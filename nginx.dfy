/** The reverse-proxy virtual-host collector (`get_nginx_info`): a two-state
    line machine over the configuration file that accumulates the last
    `server_name`, `listen` and `root` directive of a `server {` block and
    emits a record when a closing-brace line ends the block. */
module Nginx {
  import opened Common

  const NotSpecified: string := "Not specified"
  const NoServerInfo: string := "No Nginx server information found."

  datatype VirtualHost = VirtualHost(serverName: string, listen: string, root: string)

  /** One dictionary of the collector's result: a virtual host, or the
      single informational placeholder. */
  datatype NginxEntry = Server(host: VirtualHost) | Message(text: string)

  // ---------------------------------------------------------------------
  // The four regular expressions, matched with `re.match` (anchored at the
  // start of the line, not at its end).

  /** `\s*server\s*{` */
  predicate IsServerOpen(line: string) {
    var t := TrimLeft(line);
    IsPrefix("server", t) && var u := TrimLeft(t[6..]); u != [] && u[0] == '{'
  }

  /** `\s*}`: any line whose first non-blank character is a closing brace. */
  predicate IsBlockClose(line: string) {
    var t := TrimLeft(line);
    t != [] && t[0] == '}'
  }

  /** `\s*<name>\s+(.*);` and its group 1. The `\s+` is greedy and `.` stops
      at a newline, so the capture starts at the first non-blank character
      after the name and runs up to the LAST semicolon before the next
      newline. */
  function Directive(name: string, line: string): (r: Option<string>)
    ensures r.Some? ==> '\n' !in r.value
    ensures r.Some? ==> HasKeyword(name, line)
  {
    if HasKeyword(name, line) then Capture(AfterKeyword(name, line)) else None
  }

  /** What a directive line yields: a match exactly when the keyword is
      there and a semicolon follows it before the end of the line, and
      then the text from the first non-blank character after the keyword
      up to the last such semicolon. */
  lemma DirectiveCaptures(name: string, line: string)
    ensures var r := Directive(name, line);
      r.Some? <==> HasKeyword(name, line) && ';' in Segment(AfterKeyword(name, line))
    ensures var r := Directive(name, line); var seg := Segment(AfterKeyword(name, line));
      r.Some? ==> |r.value| < |seg| && seg[..|r.value|] == r.value && seg[|r.value|] == ';' && ';' !in seg[|r.value| + 1..]
  {
  }

  /** The text after the keyword and the blanks that follow it. */
  function AfterKeyword(name: string, line: string): string {
    var t := TrimLeft(line);
    if |name| <= |t| then TrimLeft(t[|name|..]) else []
  }

  /** The part of `v` that `.` can match: everything before the first
      newline. */
  function Segment(v: string): (seg: string)
    ensures |seg| <= |v| && v[..|seg|] == seg
    ensures '\n' !in seg
    ensures |seg| < |v| ==> v[|seg|] == '\n'
  {
    match IndexOf(v, '\n')
    case None => v
    case Some(e) => v[..e]
  }

  /** `\s*<name>\s`: the name after the leading blanks, then a blank. */
  predicate HasKeyword(name: string, line: string) {
    var t := TrimLeft(line);
    IsPrefix(name, t) && |t| > |name| && IsSpace(t[|name|])
  }

  /** `(.*);` from the start of `v`: everything up to the last semicolon
      that comes before the first newline. */
  function Capture(v: string): (r: Option<string>)
    ensures r.Some? <==> ';' in Segment(v)
    ensures r.Some? ==> var seg := Segment(v);
      |r.value| < |seg| && seg[..|r.value|] == r.value && seg[|r.value|] == ';' && ';' !in seg[|r.value| + 1..]
    ensures r.Some? ==> '\n' !in r.value
  {
    var segment := Segment(v);
    match LastIndexOf(segment, ';')
    case None => None
    case Some(k) => Some(segment[..k])
  }

  lemma OpenIsNotClose(line: string)
    requires IsServerOpen(line)
    ensures !IsBlockClose(line)
  {
    assert TrimLeft(line)[..6] == "server";
  }

  /** The capture runs to the last semicolon of the line, so a value may
      itself hold semicolons. */
  lemma DirectiveKeepsInnerSemicolons()
    ensures Directive("root", "  root /a;b;c\n") == Some("/a;b")
  {
    RootLineExample();
    CaptureExample();
  }

  lemma RootLineExample()
    ensures HasKeyword("root", "  root /a;b;c\n")
    ensures AfterKeyword("root", "  root /a;b;c\n") == "/a;b;c\n"
  {
    var t := "root /a;b;c\n";
    TrimLeftBlanks("  ", t);
    KeywordExample(t);
  }

  lemma KeywordExample(t: string)
    requires t == "root /a;b;c\n"
    ensures IsPrefix("root", t) && |t| > 4 && IsSpace(t[4])
    ensures TrimLeft(t[4..]) == "/a;b;c\n"
  {
    assert t[..4] == "root";
    assert t[4..] == " " + "/a;b;c\n";
    TrimLeftBlanks(" ", "/a;b;c\n");
  }

  lemma CaptureExample()
    ensures Capture("/a;b;c\n") == Some("/a;b")
  {
    IndexOfFirst("/a;b;c", '\n', []);
    assert "/a;b;c" + ['\n'] + [] == "/a;b;c\n";
    assert Segment("/a;b;c\n") == "/a;b;c";
    assert LastIndexOf("/a;b;c", ';') == Some(4);
    assert "/a;b;c"[..4] == "/a;b";
  }

  /** A line that opens or closes a block never matches a directive. */
  lemma BraceLineHasNoDirective(line: string)
    requires IsServerOpen(line) || IsBlockClose(line)
    ensures Directive("server_name", line).None?
    ensures Directive("listen", line).None?
    ensures Directive("root", line).None?
  {
    if IsServerOpen(line) {
      OpenLineHasNoKeyword(line);
    } else {
      CloseLineHasNoKeyword(line);
    }
  }

  lemma OpenLineHasNoKeyword(line: string)
    requires IsServerOpen(line)
    ensures !HasKeyword("server_name", line) && !HasKeyword("listen", line) && !HasKeyword("root", line)
  {
    var t := TrimLeft(line);
    assert t[..6][0] == 's';
    TrimLeftHead(t[6..]);
    KeywordChar("server_name", line, 6);
    KeywordChar("listen", line, 0);
    KeywordChar("root", line, 0);
  }

  lemma CloseLineHasNoKeyword(line: string)
    requires IsBlockClose(line)
    ensures !HasKeyword("server_name", line) && !HasKeyword("listen", line) && !HasKeyword("root", line)
  {
    KeywordChar("server_name", line, 0);
    KeywordChar("listen", line, 0);
    KeywordChar("root", line, 0);
  }

  /** A line that matches a keyword spells it after its leading blanks. */
  lemma KeywordChar(name: string, line: string, k: nat)
    requires k < |name|
    ensures HasKeyword(name, line) ==> TrimLeft(line)[k] == name[k]
  {
    if HasKeyword(name, line) {
      assert TrimLeft(line)[..|name|][k] == name[k];
    }
  }

  /** The first character left after trimming is the first one of the text,
      unless that one is blank. */
  lemma TrimLeftHead(s: string)
    ensures TrimLeft(s) != [] ==> s[0] == TrimLeft(s)[0] || IsSpace(s[0])
  {
  }

  // ---------------------------------------------------------------------
  // The state machine.

  datatype ParserState = ParserState(inBlock: bool, serverName: Option<string>, listen: Option<string>, root: Option<string>)

  const Outside: ParserState := ParserState(false, None, None, None)
  const Opened: ParserState := ParserState(true, None, None, None)

  /** The record a closing line produces from the accumulators: only when
      both `server_name` and `listen` are truthy; an unset or empty root
      reads "Not specified". */
  function Emit(st: ParserState): (r: Option<VirtualHost>)
    ensures r.Some? <==> Truthy(st.serverName) && Truthy(st.listen)
    ensures r.Some? ==> r.value.serverName == st.serverName.value && r.value.listen == st.listen.value
    ensures r.Some? ==> r.value.root == (if Truthy(st.root) then st.root.value else NotSpecified)
    ensures r.Some? ==> r.value.serverName != "" && r.value.listen != "" && r.value.root != ""
  {
    if Truthy(st.serverName) && Truthy(st.listen) then
      Some(VirtualHost(st.serverName.value, st.listen.value, if Truthy(st.root) then st.root.value else NotSpecified))
    else None
  }

  function Override(current: Option<string>, matched: Option<string>): Option<string> {
    if matched.Some? then matched else current
  }

  /** The three directive tests, applied in order to one line. */
  function Absorb(st: ParserState, line: string): ParserState {
    st.(serverName := Override(st.serverName, Directive("server_name", line)),
        listen := Override(st.listen, Directive("listen", line)),
        root := Override(st.root, Directive("root", line)))
  }

  /** One iteration of the loop over the file's lines. */
  function Step(st: ParserState, line: string): (ParserState, Option<VirtualHost>) {
    var st1 := if IsServerOpen(line) then Opened else st;
    if !st1.inBlock then (st1, None)
    else if IsBlockClose(line) then (Absorb(Outside, line), Emit(st1))
    else (Absorb(st1, line), None)
  }

  datatype Scan = Scan(state: ParserState, hosts: seq<VirtualHost>)

  /** The machine run over `lines` from state `st`: the final state and the
      records emitted, in file order. */
  function RunFrom(st: ParserState, lines: seq<string>): (r: Scan)
    ensures forall k :: 0 <= k < |r.hosts| ==>
      r.hosts[k].serverName != "" && r.hosts[k].listen != "" && r.hosts[k].root != ""
  {
    if lines == [] then Scan(st, [])
    else
      var prev := RunFrom(st, lines[..|lines| - 1]);
      var (next, emitted) := Step(prev.state, lines[|lines| - 1]);
      Scan(next, prev.hosts + (if emitted.Some? then [emitted.value] else []))
  }

  /** Every record the file's blocks produce, before the domain filter. */
  function Records(lines: seq<string>): seq<VirtualHost> {
    RunFrom(Outside, lines).hosts
  }

  /** The domain filter: no filter (None or empty), or a substring of the
      server name. */
  predicate Wanted(domain: Option<string>, host: VirtualHost) {
    !Truthy(domain) || Contains(host.serverName, domain.value)
  }

  /** The wanted records as result entries, in order. */
  function Listing(hosts: seq<VirtualHost>, domain: Option<string>): (r: seq<NginxEntry>)
    ensures forall k :: 0 <= k < |r| ==> r[k].Server?
  {
    if hosts == [] then []
    else
      var h := hosts[|hosts| - 1];
      Listing(hosts[..|hosts| - 1], domain) + (if Wanted(domain, h) then [Server(h)] else [])
  }

  /** What `get_nginx_info(domain)` returns: `[]` when the file is missing
      or unreadable, the placeholder when no record is kept, otherwise the
      kept records in file order. */
  function NginxInfo(conf: Option<seq<string>>, domain: Option<string>): (r: seq<NginxEntry>)
    ensures conf.None? ==> r == []
    ensures conf.Some? ==> r != []
    ensures forall k :: 0 <= k < |r| && r[k].Message? ==> r == [Message(NoServerInfo)]
  {
    match conf
    case None => []
    case Some(lines) =>
      var found := Listing(Records(lines), domain);
      if found == [] then [Message(NoServerInfo)] else found
  }

  /** `get_nginx_info`: the file's lines (None when the file does not
      exist or cannot be read) and the optional domain filter. */
  method GetNginxInfo(conf: Option<seq<string>>, domain: Option<string>) returns (info: seq<NginxEntry>)
    ensures info == NginxInfo(conf, domain)
  {
    if conf.None? {
      return [];
    }
    var found := ScanLines(conf.value, domain);
    if found == [] {
      info := [Message(NoServerInfo)];
    } else {
      info := found;
    }
  }
  /** The loop over the file's lines: the blocks found, filtered by domain,
      in the order they close. */
  method ScanLines(lines: seq<string>, domain: Option<string>) returns (found: seq<NginxEntry>)
    ensures found == Listing(Records(lines), domain)
  {
    var serverBlock := false;
    var serverName: Option<string> := None;
    var listen: Option<string> := None;
    var root: Option<string> := None;
    found := [];
    for i := 0 to |lines|
      invariant RunFrom(Outside, lines[..i]).state == ParserState(serverBlock, serverName, listen, root)
      invariant found == Listing(Records(lines[..i]), domain)
    {
      var line := lines[i];
      ghost var step := Step(ParserState(serverBlock, serverName, listen, root), line);
      ghost var found0 := found;
      if IsServerOpen(line) {
        serverBlock := true;
        serverName, listen, root := None, None, None;
      }
      ghost var st1 := ParserState(serverBlock, serverName, listen, root);
      assert step.1 == if serverBlock && IsBlockClose(line) then Emit(st1) else None;
      if serverBlock {
        if IsBlockClose(line) {
          serverBlock := false;
          if Truthy(serverName) && Truthy(listen) {
            var host := VirtualHost(serverName.value, listen.value, if Truthy(root) then root.value else NotSpecified);
            if Wanted(domain, host) {
              found := found + [Server(host)];
            }
          }
          serverName, listen, root := None, None, None;
        }
        serverName, listen, root := ReadDirectives(line, serverName, listen, root);
      }
      assert ParserState(serverBlock, serverName, listen, root) == step.0;
      assert found == found0 + (if step.1.Some? && Wanted(domain, step.1.value) then [Server(step.1.value)] else []);
      RunFromStep(Outside, lines, i);
      ListingSnoc(Records(lines[..i]), step.1, domain);
    }
    assert lines[..|lines|] == lines;
  }
  /** The three directive tests of a line inside a block: each directive
      the line sets replaces the value held so far. */
  method ReadDirectives(line: string, serverName: Option<string>, listen: Option<string>, root: Option<string>)
    returns (serverName': Option<string>, listen': Option<string>, root': Option<string>)
    ensures ParserState(true, serverName', listen', root') == Absorb(ParserState(true, serverName, listen, root), line)
  {
    serverName', listen', root' := serverName, listen, root;
    var m := Directive("server_name", line);
    if m.Some? {
      serverName' := m;
    }
    m := Directive("listen", line);
    if m.Some? {
      listen' := m;
    }
    m := Directive("root", line);
    if m.Some? {
      root' := m;
    }
  }



  lemma RunFromStep(st: ParserState, lines: seq<string>, i: nat)
    requires i < |lines|
    ensures var prev := RunFrom(st, lines[..i]);
            var (next, emitted) := Step(prev.state, lines[i]);
            RunFrom(st, lines[..i + 1]) == Scan(next, prev.hosts + (if emitted.Some? then [emitted.value] else []))
  {
    assert lines[..i + 1][..i] == lines[..i];
  }

  lemma ListingSnoc(hosts: seq<VirtualHost>, emitted: Option<VirtualHost>, domain: Option<string>)
    ensures Listing(hosts + (if emitted.Some? then [emitted.value] else []), domain)
         == Listing(hosts, domain) + (if emitted.Some? && Wanted(domain, emitted.value) then [Server(emitted.value)] else [])
  {
    if emitted.Some? {
      assert (hosts + [emitted.value])[..|hosts|] == hosts;
    } else {
      assert hosts + [] == hosts;
    }
  }

  lemma {:induction false} ListingAppend(a: seq<VirtualHost>, b: seq<VirtualHost>, domain: Option<string>)
    ensures Listing(a + b, domain) == Listing(a, domain) + Listing(b, domain)
    decreases |b|
  {
    if b == [] {
      assert a + b == a;
    } else {
      assert (a + b)[..|a + b| - 1] == a + b[..|b| - 1];
      ListingAppend(a, b[..|b| - 1], domain);
    }
  }
}

/** Properties of the virtual-host collector, stated about the block
    structure of the file rather than about the line machine. */
module NginxProperties {
  import opened Common
  import opened Nginx

  // ---------------------------------------------------------------------
  // The three patterns, read as texts.

  /** `\s*server\s*{`: any blanks, `server`, any blanks and an opening
      brace start a block, whatever follows. */
  lemma ServerOpenOfParts(a: string, b: string, rest: string)
    requires AllBlank(a) && AllBlank(b)
    ensures IsServerOpen(a + "server" + b + "{" + rest)
  {
    var t := "server" + (b + ("{" + rest));
    assert a + "server" + b + "{" + rest == a + t;
    assert t[0] == 's';
    TrimLeftBlanks(a, t);
    assert t[..6] == "server";
    assert t[6..] == b + ("{" + rest);
    TrimLeftBlanks(b, "{" + rest);
  }

  /** Conversely, a line that starts a block has that shape. */
  lemma ServerOpenParts(line: string) returns (a: string, b: string, rest: string)
    requires IsServerOpen(line)
    ensures AllBlank(a) && AllBlank(b) && line == a + "server" + b + "{" + rest
  {
    a, b, rest := WordThenCharParts(line, "server", '{');
  }

  lemma WordThenCharParts(line: string, w: string, c: char) returns (a: string, b: string, rest: string)
    requires IsPrefix(w, TrimLeft(line))
    requires var u := TrimLeft(TrimLeft(line)[|w|..]); u != [] && u[0] == c
    ensures AllBlank(a) && AllBlank(b) && line == a + w + b + [c] + rest
  {
    var t := TrimLeft(line);
    a := TrimLeftParts(line);
    var v := t[|w|..];
    PrefixParts(w, t);
    var u := TrimLeft(v);
    b := TrimLeftParts(v);
    rest := u[1..];
    assert u == [c] + rest;
    Regroup(a, w, b, [c], rest);
  }

  lemma Regroup(a: string, w: string, b: string, c: string, rest: string)
    ensures a + (w + (b + (c + rest))) == a + w + b + c + rest
  {
  }

  /** `\s*}`: any blanks and a closing brace end a block. */
  lemma BlockCloseOfParts(a: string, rest: string)
    requires AllBlank(a)
    ensures IsBlockClose(a + "}" + rest)
  {
    assert a + "}" + rest == a + ("}" + rest);
    TrimLeftBlanks(a, "}" + rest);
  }

  /** Conversely, a closing line has that shape. */
  lemma BlockCloseParts(line: string) returns (a: string, rest: string)
    requires IsBlockClose(line)
    ensures AllBlank(a) && line == a + "}" + rest
  {
    var t := TrimLeft(line);
    TrimLeftSplit(line);
    a := line[..|line| - |t|];
    rest := t[1..];
    assert t == "}" + rest;
  }

  /** `\s*<name>\s+`: any blanks, the name, at least one blank. What the
      capture then reads starts after all those blanks. */
  lemma KeywordOfParts(name: string, a: string, b: string, rest: string)
    requires IsWord(name) && AllBlank(a) && IsBlankRun(b)
    ensures HasKeyword(name, a + name + b + rest)
    ensures AfterKeyword(name, a + name + b + rest) == TrimLeft(rest)
  {
    var t := name + (b + rest);
    assert a + name + b + rest == a + t;
    assert t[0] == name[0];
    TrimLeftBlanks(a, t);
    assert t[..|name|] == name;
    assert t[|name|..] == b + rest;
    assert IsSpace(t[|name|]) by {
      assert t[|name|] == b[0];
    }
    TrimLeftSkips(b, rest);
  }

  /** Conversely, a line with the keyword has that shape, and the capture
      reads what follows the blanks after the name. */
  lemma KeywordParts(name: string, line: string) returns (a: string, b: string)
    requires HasKeyword(name, line)
    ensures AllBlank(a) && IsBlankRun(b) && line == a + name + b + AfterKeyword(name, line)
    ensures AfterKeyword(name, line) == [] || !IsSpace(AfterKeyword(name, line)[0])
  {
    var t := TrimLeft(line);
    a := TrimLeftParts(line);
    var v := t[|name|..];
    PrefixParts(name, t);
    var u := TrimLeft(v);
    b := TrimLeftParts(v);
    assert IsSpace(v[0]);
    Regroup(a, name, b, u, []);
    assert u + [] == u && a + name + b + u + [] == a + name + b + u;
  }

  // ---------------------------------------------------------------------
  // One step of the machine.

  /** Outside a block the accumulators are clear. */
  predicate Settled(st: ParserState) {
    st.inBlock || st == Outside
  }

  /** Each line keeps the machine settled. It is in a block after the line
      exactly when the line opens one, or it was in one the line does not
      close. A record comes out exactly when a closing line ends a block
      with a non-empty name and listen, and it is that block's record. */
  lemma StepCases(st: ParserState, line: string)
    requires Settled(st)
    ensures Settled(Step(st, line).0)
    ensures Step(st, line).0.inBlock <==> IsServerOpen(line) || (st.inBlock && !IsBlockClose(line))
    ensures Step(st, line).1.Some? <==> st.inBlock && IsBlockClose(line) && Emit(st).Some?
    ensures Step(st, line).1.Some? ==> Step(st, line).1 == Emit(st)
  {
    if IsServerOpen(line) {
      OpenLineResets(st, line);
      OpenIsNotClose(line);
    } else if st.inBlock && IsBlockClose(line) {
      CloseStep(st, line);
    }
  }

  /** The last `server {` line before line `j`. */
  function LatestOpen(lines: seq<string>, j: nat): (r: Option<nat>)
    requires j <= |lines|
    ensures r.Some? ==> r.value < j && IsServerOpen(lines[r.value])
    ensures r.Some? ==> forall k :: r.value < k < j ==> !IsServerOpen(lines[k])
    ensures r.None? ==> forall k :: 0 <= k < j ==> !IsServerOpen(lines[k])
  {
    if j == 0 then None
    else if IsServerOpen(lines[j - 1]) then Some(j - 1)
    else LatestOpen(lines, j - 1)
  }

  /** Lines `0 .. j-1` leave a server block open: there is a `server {`
      line and no closing-brace line after the last one. */
  predicate InBlockBefore(lines: seq<string>, j: nat)
    requires j <= |lines|
  {
    match LatestOpen(lines, j)
    case None => false
    case Some(i) => forall k :: i < k < j ==> !IsBlockClose(lines[k])
  }

  /** The result of the last line among `lo .. hi-1` on which `capture`
      succeeds. */
  function LastMatch(capture: string -> Option<string>, lines: seq<string>, lo: nat, hi: nat): Option<string>
    requires lo <= hi <= |lines|
    decreases hi - lo
  {
    if hi == lo then None
    else if capture(lines[hi - 1]).Some? then capture(lines[hi - 1])
    else LastMatch(capture, lines, lo, hi - 1)
  }

  /** The capture of the last `name` directive among lines `lo .. hi-1`. */
  function LastValue(name: string, lines: seq<string>, lo: nat, hi: nat): Option<string>
    requires lo <= hi <= |lines|
  {
    LastMatch(line => Directive(name, line), lines, lo, hi)
  }

  /** One more line: its directive, if any, replaces the earlier value. */
  lemma LastValueStep(name: string, lines: seq<string>, lo: nat, hi: nat)
    requires lo <= hi < |lines|
    ensures LastValue(name, lines, lo, hi + 1)
            == if Directive(name, lines[hi]).Some? then Directive(name, lines[hi]) else LastValue(name, lines, lo, hi)
  {
  }

  /** The accumulators after lines `0 .. n-1`, read off the block structure:
      inside an open block, the last value of each directive since the
      block's `server {` line; otherwise nothing. */
  function BlockState(lines: seq<string>, n: nat): ParserState
    requires n <= |lines|
  {
    if InBlockBefore(lines, n) then
      var i := LatestOpen(lines, n).value;
      ParserState(true, LastValue("server_name", lines, i, n), LastValue("listen", lines, i, n), LastValue("root", lines, i, n))
    else Outside
  }

  /** The record line `j` produces: only a closing-brace line that ends an
      open block, and only when both `server_name` and `listen` are set. */
  function RecordAt(lines: seq<string>, j: nat): Option<VirtualHost>
    requires j < |lines|
  {
    if IsBlockClose(lines[j]) && InBlockBefore(lines, j) then Emit(BlockState(lines, j)) else None
  }

  /** The records of lines `0 .. n-1`, one per closing line that emits. */
  function BlockRecords(lines: seq<string>, n: nat): seq<VirtualHost>
    requires n <= |lines|
  {
    if n == 0 then []
    else
      var r := RecordAt(lines, n - 1);
      BlockRecords(lines, n - 1) + (if r.Some? then [r.value] else [])
  }

  /** The line machine agrees with the block-structure reading of the file,
      both in its state after every prefix and in the records it emits. */
  lemma {:induction false} RunMatchesBlocks(lines: seq<string>, n: nat)
    requires n <= |lines|
    ensures RunFrom(Outside, lines[..n]) == Scan(BlockState(lines, n), BlockRecords(lines, n))
  {
    if n > 0 {
      var m := n - 1;
      RunMatchesBlocks(lines, m);
      RunFromStep(Outside, lines, m);
      var line := lines[m];
      var st := BlockState(lines, m);
      if IsServerOpen(line) {
        OpenIsNotClose(line);
        BraceLineHasNoDirective(line);
        assert LatestOpen(lines, n) == Some(m);
        assert InBlockBefore(lines, n);
        LastValueStep("server_name", lines, m, m);
        LastValueStep("listen", lines, m, m);
        LastValueStep("root", lines, m, m);
      } else if InBlockBefore(lines, m) && IsBlockClose(line) {
        BraceLineHasNoDirective(line);
        assert !InBlockBefore(lines, n);
      } else if InBlockBefore(lines, m) {
        assert InBlockBefore(lines, n);
      } else {
        assert !InBlockBefore(lines, n);
      }
    }
  }

  lemma RecordsMatchBlocks(lines: seq<string>)
    ensures Records(lines) == BlockRecords(lines, |lines|)
  {
    RunMatchesBlocks(lines, |lines|);
    assert lines[..|lines|] == lines;
  }

  /** Running the machine over `a + b` is running it over `a`, then over
      `b` from where `a` left it. */
  lemma {:induction false} RunFromAppend(st: ParserState, a: seq<string>, b: seq<string>)
    ensures var mid := RunFrom(st, a);
            var rest := RunFrom(mid.state, b);
            RunFrom(st, a + b) == Scan(rest.state, mid.hosts + rest.hosts)
    decreases |b|
  {
    if b == [] {
      assert a + b == a;
    } else {
      var b', x := b[..|b| - 1], b[|b| - 1];
      assert b == b' + [x];
      assert a + b == (a + b') + [x];
      RunFromAppend(st, a, b');
      var mid := RunFrom(st, a);
      RunFromSnoc(mid.state, b', x);
      RunFromSnoc(st, a + b', x);
    }
  }

  /** One more line: one more step of the machine. */
  lemma RunFromSnoc(st: ParserState, lines: seq<string>, x: string)
    ensures var prev := RunFrom(st, lines);
            var (next, emitted) := Step(prev.state, x);
            RunFrom(st, lines + [x]) == Scan(next, prev.hosts + (if emitted.Some? then [emitted.value] else []))
  {
    assert (lines + [x])[..|lines|] == lines;
  }

  /** A `server {` line puts the machine in the same state from any state,
      and emits nothing. */
  lemma OpenLineResets(st: ParserState, line: string)
    requires IsServerOpen(line)
    ensures Step(st, line) == (Opened, None)
  {
    OpenIsNotClose(line);
    BraceLineHasNoDirective(line);
  }

  /** A `server {` line discards any half-built block: whatever came before
      it contributes only the records it already emitted, and its unfinished
      directives never reach a later record. */
  lemma ServerLineDiscardsUnfinishedBlock(pre: seq<string>, post: seq<string>)
    requires post != [] && IsServerOpen(post[0])
    ensures Records(pre + post) == Records(pre) + Records(post)
  {
    var mid := RunFrom(Outside, pre).state;
    RunFromAppend(Outside, pre, post);
    assert post == [post[0]] + post[1..];
    FromOpenLine(mid, post[0], post[1..]);
    FromOpenLine(Outside, post[0], post[1..]);
  }

  /** From a `server {` line on, the run does not depend on the state. */
  lemma FromOpenLine(st: ParserState, open: string, rest: seq<string>)
    requires IsServerOpen(open)
    ensures RunFrom(st, [open] + rest) == RunFrom(Opened, rest)
  {
    RunFromAppend(st, [open], rest);
    OpenLineResets(st, open);
    assert [open][..0] == [];
  }

  /** Outside a block the machine ignores every line but `server {`. */
  lemma {:induction false} OutsideStaysOutside(lines: seq<string>)
    requires forall k :: 0 <= k < |lines| ==> !IsServerOpen(lines[k])
    ensures RunFrom(Outside, lines) == Scan(Outside, [])
    decreases |lines|
  {
    if lines != [] {
      OutsideStaysOutside(lines[..|lines| - 1]);
    }
  }

  /** Directive lines and stray closing braces before the first `server {`
      line contribute nothing. */
  lemma LinesOutsideBlocksIgnored(outside: seq<string>, rest: seq<string>)
    requires forall k :: 0 <= k < |outside| ==> !IsServerOpen(outside[k])
    ensures Records(outside + rest) == Records(rest)
  {
    OutsideStaysOutside(outside);
    RunFromAppend(Outside, outside, rest);
  }

  lemma InBlockStep(st: ParserState, line: string)
    requires st.inBlock && !IsServerOpen(line) && !IsBlockClose(line)
    ensures Step(st, line) == (Absorb(st, line), None)
  {
  }

  lemma CloseStep(st: ParserState, line: string)
    requires st.inBlock && IsBlockClose(line)
    ensures Step(st, line) == (Outside, Emit(st))
  {
    BraceLineHasNoDirective(line);
    if IsServerOpen(line) {
      OpenIsNotClose(line);
    }
  }

  /** Inside a block the accumulators hold the last value of each
      directive read so far. */
  lemma {:induction false} BlockAccumulates(open: string, body: seq<string>, m: nat)
    requires IsServerOpen(open)
    requires m <= |body|
    requires forall k :: 0 <= k < |body| ==> !IsServerOpen(body[k]) && !IsBlockClose(body[k])
    ensures RunFrom(Outside, [open] + body[..m])
         == Scan(ParserState(true, LastValue("server_name", body, 0, m), LastValue("listen", body, 0, m), LastValue("root", body, 0, m)), [])
  {
    if m == 0 {
      assert [open] + body[..0] == [open];
      OpenLineResets(Outside, open);
    } else {
      BlockAccumulates(open, body, m - 1);
      var lines := [open] + body[..m];
      assert lines[..m] == [open] + body[..m - 1];
      assert lines[..m + 1] == lines;
      var line := body[m - 1];
      assert lines[m] == line;
      assert !IsServerOpen(line) && !IsBlockClose(line);
      var prev := ParserState(true, LastValue("server_name", body, 0, m - 1), LastValue("listen", body, 0, m - 1), LastValue("root", body, 0, m - 1));
      RunFromStep(Outside, lines, m);
      InBlockStep(prev, line);
      AbsorbLastValues(body, m - 1);
    }
  }

  /** Reading one more body line moves each accumulator to the last value
      of its directive. */
  lemma AbsorbLastValues(body: seq<string>, n: nat)
    requires n < |body|
    ensures Absorb(ParserState(true, LastValue("server_name", body, 0, n), LastValue("listen", body, 0, n), LastValue("root", body, 0, n)), body[n])
         == ParserState(true, LastValue("server_name", body, 0, n + 1), LastValue("listen", body, 0, n + 1), LastValue("root", body, 0, n + 1))
  {
    LastValueStep("server_name", body, 0, n);
    LastValueStep("listen", body, 0, n);
    LastValueStep("root", body, 0, n);
  }

  /** One complete block: its record, if any, is built from the last
      `server_name`, `listen` and `root` lines of its body. */
  lemma SingleBlockLastValueWins(open: string, body: seq<string>, close: string)
    requires IsServerOpen(open) && IsBlockClose(close)
    requires forall k :: 0 <= k < |body| ==> !IsServerOpen(body[k]) && !IsBlockClose(body[k])
    ensures var sn := LastValue("server_name", body, 0, |body|);
            var ls := LastValue("listen", body, 0, |body|);
            var rt := LastValue("root", body, 0, |body|);
            Records([open] + body + [close])
              == if Truthy(sn) && Truthy(ls)
                 then [VirtualHost(sn.value, ls.value, if Truthy(rt) then rt.value else NotSpecified)]
                 else []
  {
    var st := ParserState(true, LastValue("server_name", body, 0, |body|), LastValue("listen", body, 0, |body|), LastValue("root", body, 0, |body|));
    SingleBlockEmits(open, body, close);
    assert Records([open] + body + [close]) == if Emit(st).Some? then [Emit(st).value] else [];
  }

  lemma SingleBlockEmits(open: string, body: seq<string>, close: string)
    requires IsServerOpen(open) && IsBlockClose(close)
    requires forall k :: 0 <= k < |body| ==> !IsServerOpen(body[k]) && !IsBlockClose(body[k])
    ensures var st := ParserState(true, LastValue("server_name", body, 0, |body|), LastValue("listen", body, 0, |body|), LastValue("root", body, 0, |body|));
            Records([open] + body + [close]) == if Emit(st).Some? then [Emit(st).value] else []
  {
    BlockAccumulates(open, body, |body|);
    assert body[..|body|] == body;
    var lines := [open] + body + [close];
    assert lines[..|lines| - 1] == [open] + body;
    CloseEndsRun(RunFrom(Outside, [open] + body).state, lines);
  }

  lemma CloseEndsRun(st: ParserState, lines: seq<string>)
    requires lines != [] && IsBlockClose(lines[|lines| - 1]) && st.inBlock
    requires RunFrom(Outside, lines[..|lines| - 1]) == Scan(st, [])
    ensures Records(lines) == if Emit(st).Some? then [Emit(st).value] else []
  {
    RunFromStep(Outside, lines, |lines| - 1);
    assert lines[..|lines|] == lines;
    CloseStep(st, lines[|lines| - 1]);
  }

  /** The shape of the collector's result: the placeholder exactly when no
      record survives the domain filter, otherwise the surviving records in
      file order and nothing else. */
  lemma NginxInfoShape(lines: seq<string>, domain: Option<string>)
    ensures NginxInfo(Some(lines), domain) == [Message(NoServerInfo)]
            <==> forall k :: 0 <= k < |Records(lines)| ==> !Wanted(domain, Records(lines)[k])
    ensures forall e :: e in NginxInfo(Some(lines), domain) && e.Server? ==>
              e.host in Records(lines) && Wanted(domain, e.host)
    ensures forall h :: h in Records(lines) && Wanted(domain, h) ==> Server(h) in NginxInfo(Some(lines), domain)
  {
    ListingMembers(Records(lines), domain);
  }

  lemma {:induction false} ListingMembers(hosts: seq<VirtualHost>, domain: Option<string>)
    ensures forall h :: Server(h) in Listing(hosts, domain) <==> h in hosts && Wanted(domain, h)
    ensures Listing(hosts, domain) == [] <==> forall k :: 0 <= k < |hosts| ==> !Wanted(domain, hosts[k])
    decreases |hosts|
  {
    if hosts != [] {
      var init := hosts[..|hosts| - 1];
      ListingMembers(init, domain);
      assert hosts == init + [hosts[|hosts| - 1]];
    }
  }

  /** The last matching line wins: `LastMatch` is the capture of the last
      line of the range on which the capture succeeds, and is unset only
      when it succeeds on no line of the range. */
  lemma {:induction false} LastMatchIsLast(capture: string -> Option<string>, lines: seq<string>, lo: nat, hi: nat)
    requires lo <= hi <= |lines|
    ensures LastMatch(capture, lines, lo, hi).None? <==> forall k :: lo <= k < hi ==> capture(lines[k]).None?
    ensures LastMatch(capture, lines, lo, hi).Some? ==>
              exists k :: lo <= k < hi && capture(lines[k]) == LastMatch(capture, lines, lo, hi)
                          && forall k' :: k < k' < hi ==> capture(lines[k']).None?
    decreases hi - lo
  {
    if hi > lo {
      if capture(lines[hi - 1]).None? {
        LastMatchIsLast(capture, lines, lo, hi - 1);
        if LastMatch(capture, lines, lo, hi).Some? {
          var k :| lo <= k < hi - 1 && capture(lines[k]) == LastMatch(capture, lines, lo, hi - 1)
                   && forall k' :: k < k' < hi - 1 ==> capture(lines[k']).None?;
          assert forall k' :: k < k' < hi ==> capture(lines[k']).None?;
        }
      }
    }
  }
}
