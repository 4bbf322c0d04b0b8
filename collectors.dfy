/** The three collectors that list what a host runs: listening sockets,
    Docker containers and password-database users. Each walks a list the
    system hands it, builds one record per item, and keeps the record when
    no filter is given or the filter matches. The system calls themselves
    are inputs here: the socket table, the process lookup, the container
    listing and the `last` lookup. */
module Collectors {
  import opened Common

  // ---------------------------------------------------------------------
  // Listening ports.

  /** One entry of the socket table: its state, the owning process id
      (absent for some sockets) and the local port. */
  datatype Connection = Connection(status: string, pid: Option<int>, port: nat)

  datatype PortInfo = PortInfo(port: nat, process: string, pid: Option<int>, status: string)

  const Listen := "LISTEN"

  /** `lookup(pid)` is the name of the process `psutil.Process(pid)` finds,
      or `None` when it raises `NoSuchProcess` (or its subclass
      `ZombieProcess`). `lookup(None)` is the name of the calling process
      itself, as `psutil.Process(None)` means the current process, so a
      listening socket with no known pid is listed under the tool's own
      process name. */
  type ProcessLookup = Option<int> -> Option<string>

  /** The record a connection contributes, if any: a listening socket whose
      process is still there, when there is no port filter or the filter is
      the port written in decimal. */
  function PortEntry(conn: Connection, portNumber: Option<string>, lookup: ProcessLookup): (r: Option<PortInfo>)
    ensures r.Some? <==> conn.status == Listen && lookup(conn.pid).Some?
                         && (!Truthy(portNumber) || portNumber.value == NatToString(conn.port))
    ensures r.Some? ==> r.value == PortInfo(conn.port, lookup(conn.pid).value, conn.pid, Listen)
    ensures r.Some? && Truthy(portNumber) ==> AllDigits(portNumber.value) && DigitsValue(portNumber.value) == r.value.port
  {
    DigitsOfNat(conn.port);
    if conn.status != Listen then None
    else match lookup(conn.pid)
      case None => None
      case Some(name) =>
        if !Truthy(portNumber) || portNumber.value == NatToString(conn.port)
        then Some(PortInfo(conn.port, name, conn.pid, conn.status))
        else None
  }

  function ActivePorts(conns: seq<Connection>, portNumber: Option<string>, lookup: ProcessLookup): seq<PortInfo> {
    Gather(conns, c => PortEntry(c, portNumber, lookup))
  }

  method GetActivePorts(conns: seq<Connection>, portNumber: Option<string>, lookup: ProcessLookup)
    returns (ports: seq<PortInfo>)
    ensures ports == ActivePorts(conns, portNumber, lookup)
  {
    ports := [];
    for i := 0 to |conns|
      invariant ports == ActivePorts(conns[..i], portNumber, lookup)
    {
      var conn := conns[i];
      if conn.status == Listen {
        var name := lookup(conn.pid);
        if name.Some? {
          var portInfo := PortInfo(conn.port, name.value, conn.pid, conn.status);
          if !Truthy(portNumber) || portNumber.value == NatToString(conn.port) {
            ports := ports + [portInfo];
          }
        }
      }
      GatherSnoc(conns, i, c => PortEntry(c, portNumber, lookup));
    }
    assert conns[..|conns|] == conns;
  }

  // ---------------------------------------------------------------------
  // Docker containers.

  /** A running container; `tags` is `None` when reading its image fails
      with a Docker error. */
  datatype Container = Container(shortId: string, name: string, tags: Option<seq<string>>, status: string)

  datatype ContainerInfo = ContainerInfo(containerId: string, name: string, image: string, status: string)

  /** The first tag of the image, or the text "None" for an untagged one. */
  function ImageName(tags: seq<string>): (r: string)
    ensures tags != [] ==> r == tags[0]
    ensures tags == [] ==> r == "None"
  {
    if tags != [] then tags[0] else "None"
  }

  /** The record a container contributes: none when its image cannot be
      read or the name filter rejects it. */
  function ContainerEntry(c: Container, containerName: Option<string>): (r: Option<ContainerInfo>)
    ensures r.Some? <==> c.tags.Some? && (!Truthy(containerName) || containerName.value == c.name)
    ensures r.Some? ==> r.value == ContainerInfo(c.shortId, c.name, ImageName(c.tags.value), c.status)
    ensures r.Some? && Truthy(containerName) ==> r.value.name == containerName.value
  {
    match c.tags
    case None => None
    case Some(tags) =>
      if !Truthy(containerName) || containerName.value == c.name
      then Some(ContainerInfo(c.shortId, c.name, ImageName(tags), c.status))
      else None
  }

  predicate ImagesReadable(cs: seq<Container>) {
    forall k :: 0 <= k < |cs| ==> cs[k].tags.Some?
  }

  lemma ReadableSnoc(cs: seq<Container>, i: nat)
    requires i < |cs| && ImagesReadable(cs[..i]) && cs[i].tags.Some?
    ensures ImagesReadable(cs[..i + 1])
  {
    assert forall k :: 0 <= k < i ==> cs[..i + 1][k] == cs[..i][k];
  }

  /** `containers` is `None` when the client cannot connect or list. Any
      Docker error, including one while reading a container's image,
      abandons the whole listing and gives no containers. */
  function DockerInfo(containers: Option<seq<Container>>, containerName: Option<string>): seq<ContainerInfo> {
    match containers
    case None => []
    case Some(cs) =>
      if ImagesReadable(cs)
      then Gather(cs, c => ContainerEntry(c, containerName))
      else []
  }

  method GetDockerInfo(containers: Option<seq<Container>>, containerName: Option<string>)
    returns (info: seq<ContainerInfo>)
    ensures info == DockerInfo(containers, containerName)
  {
    if containers.None? {
      return [];
    }
    var cs := containers.value;
    ghost var f := c => ContainerEntry(c, containerName);
    var dockerInfo := [];
    for i := 0 to |cs|
      invariant ImagesReadable(cs[..i])
      invariant dockerInfo == Gather(cs[..i], f)
    {
      var container := cs[i];
      if container.tags.None? {
        assert !ImagesReadable(cs) by {
          assert cs[i].tags.None?;
        }
        return [];
      }
      var tags := container.tags.value;
      var containerInfo := ContainerInfo(container.shortId, container.name, if tags != [] then tags[0] else "None", container.status);
      if !Truthy(containerName) || containerName.value == container.name {
        dockerInfo := dockerInfo + [containerInfo];
      }
      ReadableSnoc(cs, i);
      assert f(cs[i]) == if !Truthy(containerName) || containerName.value == container.name then Some(containerInfo) else None;
      GatherSnoc(cs, i, f);
      assert cs[..i + 1][..i] == cs[..i] && cs[..i + 1][i] == cs[i];
    }
    assert cs[..|cs|] == cs;
    return dockerInfo;
  }

  // ---------------------------------------------------------------------
  // Users.

  datatype PasswdEntry = PasswdEntry(name: string, uid: nat, dir: string)

  datatype UserInfo = UserInfo(username: string, uid: nat, home: string, lastLogin: string)

  /** `lastLogin(name)` is what the `last` pipeline prints for the user,
      without the final newline. */
  type LoginLookup = string -> string

  /** The record a password entry contributes when it passes the name
      filter. Its last login is never empty. */
  function UserEntry(u: PasswdEntry, username: Option<string>, lastLogin: LoginLookup): (r: Option<UserInfo>)
    ensures r.Some? <==> !Truthy(username) || username.value == u.name
    ensures r.Some? ==> r.value.username == u.name && r.value.uid == u.uid && r.value.home == u.dir
    ensures r.Some? ==> r.value.lastLogin != ""
    ensures r.Some? ==> (r.value.lastLogin == "Never" <==> lastLogin(u.name) in {"", "Never"})
    ensures r.Some? && lastLogin(u.name) != "" ==> r.value.lastLogin == lastLogin(u.name)
  {
    var login := lastLogin(u.name);
    if !Truthy(username) || username.value == u.name
    then Some(UserInfo(u.name, u.uid, u.dir, if login != "" then login else "Never"))
    else None
  }

  function UserInfos(entries: seq<PasswdEntry>, username: Option<string>, lastLogin: LoginLookup): seq<UserInfo> {
    Gather(entries, u => UserEntry(u, username, lastLogin))
  }

  method GetUserInfo(entries: seq<PasswdEntry>, username: Option<string>, lastLogin: LoginLookup)
    returns (users: seq<UserInfo>)
    ensures users == UserInfos(entries, username, lastLogin)
  {
    users := [];
    for i := 0 to |entries|
      invariant users == UserInfos(entries[..i], username, lastLogin)
    {
      var user := entries[i];
      var login := lastLogin(user.name);
      var userInfo := UserInfo(user.name, user.uid, user.dir, if login != "" then login else "Never");
      if !Truthy(username) || username.value == user.name {
        users := users + [userInfo];
      }
      GatherSnoc(entries, i, u => UserEntry(u, username, lastLogin));
    }
    assert entries[..|entries|] == entries;
  }
}

/** What the collectors promise about their results. */
module CollectorProperties {
  import opened Common
  import opened Collectors

  // ---------------------------------------------------------------------
  // Ports.

  /** A port record is listed exactly when some connection of the table is
      listening, its process is found, and the filter is absent or is the
      port in decimal; the record carries that port, process name and id. */
  lemma PortsMembers(conns: seq<Connection>, portNumber: Option<string>, lookup: ProcessLookup, p: PortInfo)
    ensures p in ActivePorts(conns, portNumber, lookup)
        <==> exists k :: 0 <= k < |conns| && conns[k].status == Listen && lookup(conns[k].pid).Some?
               && (!Truthy(portNumber) || portNumber.value == NatToString(conns[k].port))
               && p == PortInfo(conns[k].port, lookup(conns[k].pid).value, conns[k].pid, Listen)
  {
    GatherMembers(conns, c => PortEntry(c, portNumber, lookup), p);
  }

  /** Filtering by port while collecting is the same as collecting every
      listening port and then keeping those whose decimal form is the
      filter. */
  lemma PortFilterIsPostFilter(conns: seq<Connection>, portNumber: string, lookup: ProcessLookup)
    requires portNumber != ""
    ensures ActivePorts(conns, Some(portNumber), lookup)
         == Gather(ActivePorts(conns, None, lookup), (p: PortInfo) => if NatToString(p.port) == portNumber then Some(p) else None)
  {
    GatherCompose(conns, c => PortEntry(c, None, lookup),
                  (p: PortInfo) => if NatToString(p.port) == portNumber then Some(p) else None,
                  c => PortEntry(c, Some(portNumber), lookup));
  }

  /** A filter that is not a plain decimal numeral, such as `http` or
      `80/tcp`, matches no port. */
  lemma NonNumericPortFilterMatchesNothing(conns: seq<Connection>, portNumber: string, lookup: ProcessLookup, i: nat)
    requires i < |portNumber| && !IsDigit(portNumber[i])
    ensures ActivePorts(conns, Some(portNumber), lookup) == []
  {
    forall k | 0 <= k < |conns|
      ensures PortEntry(conns[k], Some(portNumber), lookup).None?
    {
      var written := NatToString(conns[k].port);
      if i < |written| {
        assert IsDigit(written[i]);
      }
    }
    GatherEmpty(conns, c => PortEntry(c, Some(portNumber), lookup));
  }

  // ---------------------------------------------------------------------
  // Containers.

  /** When every image can be read, a container record is listed exactly
      when some container passes the name filter; its image is the first
      tag, or "None" when the image has no tag. */
  lemma ContainersMembers(cs: seq<Container>, containerName: Option<string>, e: ContainerInfo)
    requires ImagesReadable(cs)
    ensures e in DockerInfo(Some(cs), containerName)
        <==> exists k :: 0 <= k < |cs| && (!Truthy(containerName) || containerName.value == cs[k].name)
               && e == ContainerInfo(cs[k].shortId, cs[k].name,
                                     if cs[k].tags.value != [] then cs[k].tags.value[0] else "None", cs[k].status)
  {
    GatherMembers(cs, c => ContainerEntry(c, containerName), e);
  }

  /** A Docker error anywhere, even on a container the filter would drop,
      empties the whole listing. */
  lemma DockerErrorEmptiesListing(cs: seq<Container>, containerName: Option<string>, k: nat)
    requires k < |cs| && cs[k].tags.None?
    ensures DockerInfo(Some(cs), containerName) == []
  {
  }

  /** The name filter is exact: with distinct container names, a name
      selects at most one container. */
  lemma DistinctNamesSelectAtMostOne(cs: seq<Container>, name: string)
    requires name != ""
    requires forall i, j :: 0 <= i < j < |cs| ==> cs[i].name != cs[j].name
    ensures |DockerInfo(Some(cs), Some(name))| <= 1
  {
    if ImagesReadable(cs) {
      DistinctNamesGatherAtMostOne(cs, name);
    }
  }

  lemma {:induction false} DistinctNamesGatherAtMostOne(cs: seq<Container>, name: string)
    requires name != ""
    requires forall i, j :: 0 <= i < j < |cs| ==> cs[i].name != cs[j].name
    ensures |Gather(cs, c => ContainerEntry(c, Some(name)))| <= 1
  {
    var f := c => ContainerEntry(c, Some(name));
    if cs != [] {
      var init := cs[..|cs| - 1];
      DistinctNamesGatherAtMostOne(init, name);
      if f(cs[|cs| - 1]).Some? {
        forall k | 0 <= k < |init|
          ensures f(init[k]).None?
        {
          assert init[k].name == cs[k].name != cs[|cs| - 1].name;
        }
        GatherEmpty(init, f);
      }
    }
  }

  /** Filtering by name while collecting is the same as collecting every
      container and then keeping those with that name. */
  lemma ContainerFilterIsPostFilter(cs: seq<Container>, containerName: string)
    requires containerName != ""
    ensures DockerInfo(Some(cs), Some(containerName))
         == Gather(DockerInfo(Some(cs), None), (e: ContainerInfo) => if e.name == containerName then Some(e) else None)
  {
    GatherCompose(cs, c => ContainerEntry(c, None),
                  (e: ContainerInfo) => if e.name == containerName then Some(e) else None,
                  c => ContainerEntry(c, Some(containerName)));
  }

  // ---------------------------------------------------------------------
  // Users.

  /** Without a filter every password entry gives one record, in order,
      with its name, id and home directory. */
  lemma {:induction false} AllUsersListed(entries: seq<PasswdEntry>, lastLogin: LoginLookup)
    ensures |UserInfos(entries, None, lastLogin)| == |entries|
    ensures forall k :: 0 <= k < |entries| ==>
              var u := UserInfos(entries, None, lastLogin)[k];
              u.username == entries[k].name && u.uid == entries[k].uid && u.home == entries[k].dir
  {
    if entries != [] {
      var init := entries[..|entries| - 1];
      AllUsersListed(init, lastLogin);
      assert forall k :: 0 <= k < |init| ==> init[k] == entries[k];
    }
  }

  /** Every listed user's last login is what the lookup printed, or "Never"
      when it printed nothing; a listed user either matches the filter or
      there is none. */
  lemma UsersMembers(entries: seq<PasswdEntry>, username: Option<string>, lastLogin: LoginLookup, u: UserInfo)
    requires u in UserInfos(entries, username, lastLogin)
    ensures !Truthy(username) || u.username == username.value
    ensures u.lastLogin == (if lastLogin(u.username) == "" then "Never" else lastLogin(u.username))
    ensures exists k :: 0 <= k < |entries| && entries[k].name == u.username && entries[k].uid == u.uid
  {
    GatherMembers(entries, e => UserEntry(e, username, lastLogin), u);
  }

  /** Filtering by user name while collecting is the same as collecting
      every user and then keeping those with that name. */
  lemma UserFilterIsPostFilter(entries: seq<PasswdEntry>, username: string, lastLogin: LoginLookup)
    requires username != ""
    ensures UserInfos(entries, Some(username), lastLogin)
         == Gather(UserInfos(entries, None, lastLogin), (u: UserInfo) => if u.username == username then Some(u) else None)
  {
    GatherCompose(entries, e => UserEntry(e, None, lastLogin),
                  (u: UserInfo) => if u.username == username then Some(u) else None,
                  e => UserEntry(e, Some(username), lastLogin));
  }
}
