/** Values and text helpers shared by the collectors, the configuration
    parser, the log correlator and the report renderer. Each helper follows
    the Python operation the program uses (`str.isspace`, `str.strip`,
    `str.split`, `in` on strings, `str()` and `repr()`). */
module Common {

  datatype Option<+T> = None | Some(value: T)

  datatype Result<+T, +E> = Ok(value: T) | Err(error: E)

  /** Python truthiness of an optional string: `None` and `""` are false. */
  predicate Truthy(o: Option<string>) {
    o.Some? && o.value != ""
  }

  /** The characters for which Python's `str.isspace()` holds, which are
      also the ones the regular-expression class `\s` matches in a text
      pattern. */
  const Blanks: set<char> := {
    ' ', '\t', '\n', '\U{b}', '\U{c}', '\r', '\U{1c}', '\U{1d}', '\U{1e}', '\U{1f}',
    '\U{85}', '\U{a0}', '\U{1680}', '\U{2000}', '\U{2001}', '\U{2002}', '\U{2003}',
    '\U{2004}', '\U{2005}', '\U{2006}', '\U{2007}', '\U{2008}', '\U{2009}', '\U{200a}',
    '\U{2028}', '\U{2029}', '\U{202f}', '\U{205f}', '\U{3000}'
  }

  predicate IsSpace(c: char) {
    c in Blanks
  }

  predicate IsDigit(c: char) {
    '0' <= c <= '9'
  }

  /** The text after the leading whitespace (regex `\s*` at the start). */
  function TrimLeft(s: string): (r: string)
    ensures |r| <= |s|
    ensures r != [] ==> !IsSpace(r[0])
  {
    if s != [] && IsSpace(s[0]) then TrimLeft(s[1..]) else s
  }

  function TrimRight(s: string): (r: string)
    ensures |r| <= |s|
    ensures r != [] ==> !IsSpace(r[|r| - 1])
  {
    if s != [] && IsSpace(s[|s| - 1]) then TrimRight(s[..|s| - 1]) else s
  }

  /** Python's `str.strip()` with no argument. */
  function Strip(s: string): string {
    TrimRight(TrimLeft(s))
  }

  /** Length of the run of non-whitespace characters that starts `s`. */
  function WordLength(s: string): (n: nat)
    ensures n <= |s|
    ensures forall i :: 0 <= i < n ==> !IsSpace(s[i])
    ensures n < |s| ==> IsSpace(s[n])
  {
    if s == [] || IsSpace(s[0]) then 0 else 1 + WordLength(s[1..])
  }

  /** Python's `str.split()` with no argument: the maximal runs of
      non-whitespace characters, in order. */
  function Words(s: string): (ws: seq<string>)
    ensures forall k :: 0 <= k < |ws| ==> ws[k] != []
    decreases |s|
  {
    var t := TrimLeft(s);
    if t == [] then []
    else
      var n := WordLength(t);
      [t[..n]] + Words(t[n..])
  }

  /** Position of the first `c` in `s`. */
  function IndexOf(s: string, c: char): (r: Option<nat>)
    ensures r.Some? ==> r.value < |s| && s[r.value] == c && c !in s[..r.value]
    ensures r.None? ==> c !in s
  {
    if s == [] then None
    else if s[0] == c then Some(0)
    else match IndexOf(s[1..], c)
      case None => None
      case Some(i) => Some(i + 1)
  }

  /** Position of the last `c` in `s`. */
  function LastIndexOf(s: string, c: char): (r: Option<nat>)
    ensures r.Some? ==> r.value < |s| && s[r.value] == c && c !in s[r.value + 1..]
    ensures r.None? ==> c !in s
  {
    if s == [] then None
    else if s[|s| - 1] == c then Some(|s| - 1)
    else LastIndexOf(s[..|s| - 1], c)
  }

  /** Python's `s.split(c)` for a one-character separator. */
  function SplitOn(s: string, c: char): (parts: seq<string>)
    ensures |parts| >= 1
    ensures forall k :: 0 <= k < |parts| ==> c !in parts[k]
    decreases |s|
  {
    match IndexOf(s, c)
    case None => [s]
    case Some(i) => [s[..i]] + SplitOn(s[i + 1..], c)
  }

  /** `sep.join(parts)`. */
  function Join(sep: string, parts: seq<string>): string {
    if parts == [] then ""
    else if |parts| == 1 then parts[0]
    else parts[0] + sep + Join(sep, parts[1..])
  }

  predicate IsPrefix(p: string, s: string) {
    |p| <= |s| && s[..|p|] == p
  }

  /** Python's `needle in hay` on strings. */
  predicate Contains(hay: string, needle: string)
    decreases |hay|
  {
    IsPrefix(needle, hay) || (hay != [] && Contains(hay[1..], needle))
  }

  /** Decimal digits of a natural number, as `str()` writes them. */
  function NatToString(n: nat): (s: string)
    ensures s != [] && forall i :: 0 <= i < |s| ==> IsDigit(s[i])
  {
    if n < 10 then [(n + '0' as int) as char]
    else NatToString(n / 10) + [(n % 10 + '0' as int) as char]
  }

  /** `str()` of a Python int. */
  function IntToString(i: int): string {
    if i < 0 then "-" + NatToString(-i) else NatToString(i)
  }

  /** The value of a string of decimal digits. */
  function DigitsValue(s: string): nat
    requires AllDigits(s)
  {
    if s == [] then 0
    else
      assert IsDigit(s[|s| - 1]);
      10 * DigitsValue(s[..|s| - 1]) + (s[|s| - 1] as int - '0' as int)
  }

  predicate AllDigits(s: string) {
    forall i :: 0 <= i < |s| ==> IsDigit(s[i])
  }

  /** Python's `repr()` of a string, for ASCII text: single quotes unless
      the text holds a single quote and no double quote, and backslash
      escapes for the quote, the backslash and control characters. */
  function ReprString(s: string): string {
    var q := if '\'' in s && '"' !in s then '"' else '\'';
    [q] + EscapeAll(s, q) + [q]
  }

  function EscapeAll(s: string, q: char): string {
    if s == [] then "" else EscapeAll(s[..|s| - 1], q) + Escape(s[|s| - 1], q)
  }

  function Escape(c: char, q: char): string {
    if c == q || c == '\\' then ['\\', c]
    else if c == '\t' then "\\t"
    else if c == '\n' then "\\n"
    else if c == '\r' then "\\r"
    else if c < ' ' || c == '\U{7f}' then "\\x" + [HexDigit(c as int / 16), HexDigit(c as int % 16)]
    else [c]
  }

  function HexDigit(d: int): char
    requires 0 <= d < 16
  {
    if d < 10 then (d + '0' as int) as char else (d - 10 + 'a' as int) as char
  }

  // ---------------------------------------------------------------------
  // Facts about the helpers on texts built by concatenation.

  lemma DigitIsNotSpace(c: char)
    requires IsDigit(c)
    ensures !IsSpace(c)
  {
  }

  lemma TrimLeftKeeps(s: string)
    requires s != [] && !IsSpace(s[0])
    ensures TrimLeft(s) == s
  {
  }

  lemma TrimRightKeeps(s: string)
    requires s != [] && !IsSpace(s[|s| - 1])
    ensures TrimRight(s) == s
  {
  }

  /** A text that neither starts nor ends with whitespace is its own strip. */
  lemma StripKeeps(s: string)
    requires s != [] && !IsSpace(s[0]) && !IsSpace(s[|s| - 1])
    ensures Strip(s) == s
  {
    TrimLeftKeeps(s);
    TrimRightKeeps(s);
  }

  /** One leading blank before a word is dropped by the trim. */
  lemma TrimLeftOneBlank(c: char, s: string)
    requires IsSpace(c) && s != [] && !IsSpace(s[0])
    ensures TrimLeft([c] + s) == s
  {
    assert ([c] + s)[1..] == s;
    TrimLeftKeeps(s);
  }

  /** Whitespace only, possibly nothing. */
  predicate AllBlank(s: string) {
    forall i :: 0 <= i < |s| ==> IsSpace(s[i])
  }

  /** A run of blanks before a text that does not start with one is
      dropped by the trim. */
  lemma {:induction false} TrimLeftBlanks(a: string, b: string)
    requires AllBlank(a)
    requires b == [] || !IsSpace(b[0])
    ensures TrimLeft(a + b) == b
  {
    if a == [] {
      assert a + b == b;
      if b != [] {
        TrimLeftKeeps(b);
      }
    } else {
      assert (a + b)[1..] == a[1..] + b;
      TrimLeftBlanks(a[1..], b);
    }
  }

  /** A non-empty text without whitespace: one word of `split()`. */
  predicate IsWord(w: string) {
    w != [] && forall i :: 0 <= i < |w| ==> !IsSpace(w[i])
  }

  /** A non-empty run of whitespace. */
  predicate IsBlankRun(s: string) {
    s != [] && AllBlank(s)
  }

  /** Leading blanks make no difference to the trim. */
  lemma {:induction false} TrimLeftSkips(a: string, x: string)
    requires AllBlank(a)
    ensures TrimLeft(a + x) == TrimLeft(x)
  {
    if a == [] {
      assert a + x == x;
    } else {
      assert (a + x)[1..] == a[1..] + x;
      TrimLeftSkips(a[1..], x);
    }
  }

  /** A word followed by blanks is the first word of the text. */
  lemma WordsFirst(w: string, sep: string, rest: string)
    requires IsWord(w) && IsBlankRun(sep)
    ensures Words(w + sep + rest) == [w] + Words(rest)
  {
    var s := w + sep + rest;
    assert s == w + (sep + rest);
    TrimLeftKeeps(s);
    WordLengthOfWord(w, sep + rest);
    assert s[..|w|] == w && s[|w|..] == sep + rest;
    TrimLeftSkips(sep, rest);
  }

  /** The trim drops exactly the leading run of blanks. */
  lemma {:induction false} TrimLeftSplit(s: string)
    ensures var k := |s| - |TrimLeft(s)|; s[k..] == TrimLeft(s) && AllBlank(s[..k])
  {
    if s != [] && IsSpace(s[0]) {
      TrimLeftSplit(s[1..]);
      var k := |s| - |TrimLeft(s)|;
      assert s[k..] == s[1..][k - 1..];
      forall i | 0 <= i < k
        ensures IsSpace(s[..k][i])
      {
        if i > 0 {
          assert s[..k][i] == s[1..][..k - 1][i - 1];
        }
      }
    }
  }

  /** A text is its leading blanks followed by its trim. */
  lemma TrimLeftParts(s: string) returns (a: string)
    ensures AllBlank(a) && s == a + TrimLeft(s)
  {
    TrimLeftSplit(s);
    a := s[..|s| - |TrimLeft(s)|];
  }

  lemma PrefixParts(p: string, s: string)
    requires IsPrefix(p, s)
    ensures s == p + s[|p|..]
  {
  }

  // ---------------------------------------------------------------------
  // `needle in hay`.

  /** An occurrence of the needle at any position makes `in` hold. */
  lemma {:induction false} ContainsAt(hay: string, needle: string, i: nat)
    requires i + |needle| <= |hay| && hay[i..i + |needle|] == needle
    ensures Contains(hay, needle)
  {
    if i > 0 {
      assert hay[1..][i - 1..i - 1 + |needle|] == needle;
      ContainsAt(hay[1..], needle, i - 1);
    }
  }

  /** When `in` holds, the needle occurs at some position. */
  lemma {:induction false} ContainsWitness(hay: string, needle: string) returns (i: nat)
    requires Contains(hay, needle)
    ensures i + |needle| <= |hay| && hay[i..i + |needle|] == needle
  {
    if IsPrefix(needle, hay) {
      i := 0;
    } else {
      var j := ContainsWitness(hay[1..], needle);
      i := j + 1;
      assert hay[i..i + |needle|] == hay[1..][j..j + |needle|];
    }
  }

  /** A text contains whatever any part of it contains. */
  lemma ContainsWithin(a: string, b: string, c: string, needle: string)
    requires Contains(b, needle)
    ensures Contains(a + b + c, needle)
  {
    var i := ContainsWitness(b, needle);
    assert (a + b + c)[|a| + i..|a| + i + |needle|] == b[i..i + |needle|];
    ContainsAt(a + b + c, needle, |a| + i);
  }

  lemma ContainsItself(s: string)
    ensures Contains(s, s)
  {
    ContainsAt(s, s, 0);
  }

  /** `in` is transitive. */
  lemma ContainsTransitive(a: string, b: string, c: string)
    requires Contains(a, b) && Contains(b, c)
    ensures Contains(a, c)
  {
    var i := ContainsWitness(a, b);
    var j := ContainsWitness(b, c);
    forall t | 0 <= t < |c|
      ensures a[i + j + t] == c[t]
    {
      assert b[j..j + |c|][t] == c[t];
      assert a[i..i + |b|][j + t] == b[j + t];
    }
    assert a[i + j..i + j + |c|] == c;
    ContainsAt(a, c, i + j);
  }

  /** Every part occurs in the joined text. */
  lemma {:induction false} JoinHasPart(sep: string, parts: seq<string>, k: nat)
    requires k < |parts|
    ensures Contains(Join(sep, parts), parts[k])
  {
    ContainsItself(parts[k]);
    if |parts| == 1 {
    } else if k == 0 {
      ContainsWithin([], parts[0], sep + Join(sep, parts[1..]), parts[0]);
      assert [] + parts[0] + (sep + Join(sep, parts[1..])) == Join(sep, parts);
    } else {
      JoinHasPart(sep, parts[1..], k - 1);
      ContainsWithin(parts[0] + sep, Join(sep, parts[1..]), [], parts[k]);
      assert parts[0] + sep + Join(sep, parts[1..]) + [] == Join(sep, parts);
    }
  }

  // ---------------------------------------------------------------------
  // `repr`.

  /** Printable ASCII other than the single quote and the backslash: the
      characters `repr` writes as they are inside single quotes. */
  predicate PlainChar(c: char) {
    ' ' <= c < '\U{7f}' && c != '\'' && c != '\\'
  }

  /** `repr` of plain text is the text in single quotes. */
  lemma ReprPlain(s: string)
    requires forall i :: 0 <= i < |s| ==> PlainChar(s[i])
    ensures ReprString(s) == "'" + s + "'"
  {
    EscapePlain(s, '\'');
  }

  lemma {:induction false} EscapePlain(s: string, q: char)
    requires forall i :: 0 <= i < |s| ==> PlainChar(s[i]) && s[i] != q
    ensures EscapeAll(s, q) == s
  {
    if s != [] {
      EscapePlain(s[..|s| - 1], q);
      assert s[..|s| - 1] + [s[|s| - 1]] == s;
    }
  }

  lemma {:induction false} IndexOfFirst(a: string, c: char, b: string)
    requires c !in a
    ensures IndexOf(a + [c] + b, c) == Some(|a|)
  {
    if a != [] {
      assert (a + [c] + b)[1..] == a[1..] + [c] + b;
      IndexOfFirst(a[1..], c, b);
    }
  }

  lemma {:induction false} WordLengthOfWord(a: string, b: string)
    requires forall i :: 0 <= i < |a| ==> !IsSpace(a[i])
    requires b != [] && IsSpace(b[0])
    ensures WordLength(a + b) == |a|
  {
    if a != [] {
      assert (a + b)[1..] == a[1..] + b;
      WordLengthOfWord(a[1..], b);
    } else {
      assert a + b == b;
    }
  }

  lemma SplitOnWhole(a: string, c: char)
    requires c !in a
    ensures SplitOn(a, c) == [a]
  {
  }

  lemma SplitOnFirst(a: string, c: char, b: string)
    requires c !in a
    ensures SplitOn(a + [c] + b, c) == [a] + SplitOn(b, c)
  {
    IndexOfFirst(a, c, b);
    var s := a + [c] + b;
    assert s[..|a|] == a;
    assert s[|a| + 1..] == b;
  }

  /** `split` gives two parts exactly when the separator occurs once. */
  lemma SplitOnTwoParts(s: string, c: char)
    ensures |SplitOn(s, c)| == 2 <==> exists i :: 0 <= i < |s| && s[i] == c && c !in s[..i] && c !in s[i + 1..]
  {
    if |SplitOn(s, c)| == 2 {
      var i := TwoPartsWitness(s, c);
    } else {
      forall j | 0 <= j < |s| && s[j] == c && c !in s[..j]
        ensures c in s[j + 1..]
      {
        if c !in s[j + 1..] {
          SplitAtOnly(s, c, j);
        }
      }
    }
  }

  /** Two parts come from the only occurrence of the separator. */
  lemma TwoPartsWitness(s: string, c: char) returns (i: nat)
    requires |SplitOn(s, c)| == 2
    ensures i < |s| && s[i] == c && c !in s[..i] && c !in s[i + 1..]
  {
    i := IndexOf(s, c).value;
    assert |SplitOn(s[i + 1..], c)| == 1;
  }

  /** A separator that occurs once splits the text in two. */
  lemma SplitAtOnly(s: string, c: char, j: nat)
    requires j < |s| && s[j] == c && c !in s[..j] && c !in s[j + 1..]
    ensures |SplitOn(s, c)| == 2
  {
    var i := IndexOf(s, c).value;
    InPrefix(s, i, j);
    InPrefix(s, j, i);
    assert i == j;
    assert IndexOf(s[j + 1..], c).None?;
  }

  lemma InPrefix(s: string, i: nat, j: nat)
    requires i < |s| && j <= |s|
    ensures i < j ==> s[i] in s[..j]
  {
    if i < j {
      assert s[..j][i] == s[i];
    }
  }

  /** Reading back the digits `str()` writes for a natural number. */
  lemma {:induction false} DigitsOfNat(n: nat)
    ensures AllDigits(NatToString(n)) && DigitsValue(NatToString(n)) == n
  {
    if n >= 10 {
      DigitsOfNat(n / 10);
      var s := NatToString(n);
      assert s[..|s| - 1] == NatToString(n / 10);
    }
  }

  /** Four-digit numbers are written with four digits. */
  lemma FourDigits(n: nat)
    requires 1000 <= n <= 9999
    ensures |NatToString(n)| == 4
  {
    var a := n / 10;
    var b := a / 10;
    var c := b / 10;
    assert 1 <= c <= 9 && 10 <= b && 10 <= a;
    assert |NatToString(c)| == 1;
    assert |NatToString(b)| == 2;
    assert |NatToString(a)| == 3;
  }

  /** The images of the elements of `s` on which `f` gives a value, in
      order: the shape of every loop here that appends to a result list
      when a condition holds. */
  function Gather<T, U>(s: seq<T>, f: T -> Option<U>): (r: seq<U>)
    ensures |r| <= |s|
  {
    if s == [] then [] else Gather(s[..|s| - 1], f) + (if f(s[|s| - 1]).Some? then [f(s[|s| - 1]).value] else [])
  }

  /** One more element of input: its image, if any, comes last. */
  lemma GatherSnoc<T, U>(s: seq<T>, i: nat, f: T -> Option<U>)
    requires i < |s|
    ensures Gather(s[..i + 1], f) == Gather(s[..i], f) + (if f(s[i]).Some? then [f(s[i]).value] else [])
  {
    assert s[..i + 1][..i] == s[..i];
  }

  lemma {:induction false} GatherAppend<T, U>(a: seq<T>, b: seq<T>, f: T -> Option<U>)
    ensures Gather(a + b, f) == Gather(a, f) + Gather(b, f)
    decreases |b|
  {
    if b == [] {
      assert a + b == a;
    } else {
      var b' := b[..|b| - 1];
      assert (a + b)[..|a + b| - 1] == a + b';
      GatherAppend(a, b', f);
    }
  }

  /** A value is gathered exactly when it is the image of some element. */
  lemma {:induction false} GatherMembers<T, U>(s: seq<T>, f: T -> Option<U>, u: U)
    ensures u in Gather(s, f) <==> exists k :: 0 <= k < |s| && f(s[k]) == Some(u)
  {
    if s != [] {
      var init := s[..|s| - 1];
      GatherMembers(init, f, u);
      if u in Gather(init, f) {
        var k :| 0 <= k < |init| && f(init[k]) == Some(u);
        assert s[k] == init[k];
      }
      if exists k :: 0 <= k < |s| && f(s[k]) == Some(u) {
        var k :| 0 <= k < |s| && f(s[k]) == Some(u);
        if k < |init| {
          assert init[k] == s[k];
        }
      }
    }
  }

  /** Nothing is gathered exactly when `f` gives no value on any element. */
  lemma {:induction false} GatherEmpty<T, U>(s: seq<T>, f: T -> Option<U>)
    ensures Gather(s, f) == [] <==> forall k :: 0 <= k < |s| ==> f(s[k]).None?
  {
    if s != [] {
      var init := s[..|s| - 1];
      GatherEmpty(init, f);
      assert forall k :: 0 <= k < |init| ==> init[k] == s[k];
    }
  }

  /** Gathering with `f` followed by `h` is gathering with `f`, then
      gathering the results with `h`. */
  lemma {:induction false} GatherCompose<T, U, V>(s: seq<T>, f: T -> Option<U>, h: U -> Option<V>, g: T -> Option<V>)
    requires forall x :: g(x) == if f(x).Some? then h(f(x).value) else None
    ensures Gather(s, g) == Gather(Gather(s, f), h)
  {
    if s != [] {
      var init := s[..|s| - 1];
      var x := s[|s| - 1];
      GatherCompose(init, f, h, g);
      var tail := if f(x).Some? then [f(x).value] else [];
      GatherAppend(Gather(init, f), tail, h);
      if f(x).Some? {
        assert tail[..0] == [];
      }
    }
  }
}
