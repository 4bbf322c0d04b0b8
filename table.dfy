/** The report renderer: the column widths worked out over every row, the
    row filter matched against the text of a row's values, and the wrapping
    of the long text columns on the rows that are shown. The text layout of
    the table itself is not part of this model. */
module Table {
  import opened Common

  /** The values the collectors put in a row. */
  datatype Value = Str(s: string) | Int(i: int) | Null

  /** A row: its keys in insertion order, each with its value. */
  type Row = seq<(string, Value)>

  datatype TableError = EmptyMax  // `max()` of an empty sequence: every long text wraps to nothing

  /** What is printed: the placeholder, or a table with its header, the
      widths set on it and the rows added to it. */
  datatype Report =
    | NoData
    | Table(fields: seq<string>, maxWidth: seq<(string, nat)>, body: seq<Row>)

  const NoDataMessage := "No data available."

  /** The columns whose text is wrapped at 80 characters. */
  predicate IsTextKey(key: string) {
    key == "Activity" || key == "Message"
  }

  /** `textwrap.wrap(text, width=80)`, given as a parameter. */
  type Wrapper = string -> seq<string>

  function Keys(row: Row): (ks: seq<string>)
    ensures |ks| == |row|
  {
    if row == [] then [] else Keys(row[..|row| - 1]) + [row[|row| - 1].0]
  }

  /** `row.get(key)`. */
  function Get(row: Row, key: string): Option<Value> {
    if row == [] then None
    else if row[0].0 == key then Some(row[0].1)
    else Get(row[1..], key)
  }

  /** `str()` of a value. */
  function ValueText(v: Value): string {
    match v
    case Str(s) => s
    case Int(i) => IntToString(i)
    case Null => "None"
  }

  /** `repr()` of a value. */
  function ValueRepr(v: Value): string {
    match v
    case Str(s) => ReprString(s)
    case Int(i) => IntToString(i)
    case Null => "None"
  }

  function ReprAll(row: Row): (rs: seq<string>)
    ensures |rs| == |row|
  {
    if row == [] then [] else ReprAll(row[..|row| - 1]) + [ValueRepr(row[|row| - 1].1)]
  }

  /** `str(row.values())`. */
  function ValuesText(row: Row): string {
    "dict_values([" + Join(", ", ReprAll(row)) + "])"
  }

  /** Whether a row is shown: no filter, or the filter occurs in the text
      of its values. */
  predicate Shown(row: Row, filterValue: Option<string>) {
    !Truthy(filterValue) || Contains(ValuesText(row), filterValue.value)
  }

  /** The text of a long-text cell, `''` when the row lacks the key. */
  function TextOf(row: Row, key: string): string {
    match Get(row, key)
    case Some(Str(s)) => s
    case _ => ""
  }

  /** Long-text cells hold text, as `textwrap` requires. */
  predicate TextCells(row: Row) {
    forall k :: 0 <= k < |row| && IsTextKey(row[k].0) ==> row[k].1.Str?
  }

  // ---------------------------------------------------------------------
  // Widths.

  /** The length of `str()` of the row's value for the key, 0 when the
      row lacks the key. */
  function CellWidth(row: Row, key: string): nat {
    match Get(row, key)
    case Some(v) => |ValueText(v)|
    case None => 0
  }

  /** The largest width over the items, 0 when there are none. */
  function Widest<T>(s: seq<T>, width: T -> nat): nat {
    if s == [] then 0 else Max(Widest(s[..|s| - 1], width), width(s[|s| - 1]))
  }

  /** The widest cell of the column over the rows. */
  function ColumnWidth(rows: seq<Row>, key: string): nat {
    Widest(rows, row => CellWidth(row, key))
  }

  function Max(a: nat, b: nat): nat {
    if a < b then b else a
  }

  /** The longest of the lines, `None` when there are none. */
  function LongestLine(lines: seq<string>): Option<nat> {
    if lines == [] then None
    else MaxOpt(LongestLine(lines[..|lines| - 1]), |lines[|lines| - 1]|)
  }

  function MaxOpt(a: Option<nat>, b: nat): Option<nat> {
    match a
    case None => Some(b)
    case Some(x) => Some(Max(x, b))
  }

  /** The longest wrapped line of the column over the rows, `None` when
      there is no line at all. */
  function TextWidth(rows: seq<Row>, key: string, wrap: Wrapper): Option<nat> {
    if rows == [] then None
    else Join2(TextWidth(rows[..|rows| - 1], key, wrap), LongestLine(wrap(TextOf(rows[|rows| - 1], key))))
  }

  function Join2(a: Option<nat>, b: Option<nat>): Option<nat> {
    match b
    case None => a
    case Some(y) => MaxOpt(a, y)
  }

  /** The width of every column of the first row, in its order. */
  function Widths(rows: seq<Row>, keys: seq<string>, wrap: Wrapper): Result<seq<(string, nat)>, TableError> {
    if keys == [] then Ok([])
    else
      match Widths(rows, keys[..|keys| - 1], wrap)
      case Err(e) => Err(e)
      case Ok(ws) =>
        var key := keys[|keys| - 1];
        if IsTextKey(key) then
          match TextWidth(rows, key, wrap)
          case None => Err(EmptyMax)
          case Some(w) => Ok(ws + [(key, w)])
        else Ok(ws + [(key, ColumnWidth(rows, key))])
  }

  /** The widths set on the table: only those above zero. */
  function Applied(ws: seq<(string, nat)>): seq<(string, nat)> {
    Gather(ws, (p: (string, nat)) => if p.1 > 0 then Some(p) else None)
  }

  // ---------------------------------------------------------------------
  // Rows.

  /** A shown row with its long-text cells replaced by their wrapped lines
      joined with newlines. */
  function Wrapped(row: Row, wrap: Wrapper): (r: Row)
    ensures |r| == |row|
  {
    if row == [] then []
    else
      var (key, v) := row[|row| - 1];
      Wrapped(row[..|row| - 1], wrap)
        + [if IsTextKey(key) && v.Str? then (key, Str(Join("\n", wrap(v.s)))) else (key, v)]
  }

  /** One row after the renderer: wrapped when shown, untouched otherwise. */
  function Rendered(row: Row, filterValue: Option<string>, wrap: Wrapper): Row {
    if Shown(row, filterValue) then Wrapped(row, wrap) else row
  }

  /** Every row as it stands after the renderer. */
  function AfterRendering(rows: seq<Row>, filterValue: Option<string>, wrap: Wrapper): (r: seq<Row>)
    ensures |r| == |rows|
  {
    if rows == [] then []
    else AfterRendering(rows[..|rows| - 1], filterValue, wrap) + [Rendered(rows[|rows| - 1], filterValue, wrap)]
  }

  lemma AfterRenderingSnoc(rows: seq<Row>, filterValue: Option<string>, wrap: Wrapper, i: nat)
    requires i < |rows|
    ensures AfterRendering(rows[..i + 1], filterValue, wrap)
         == AfterRendering(rows[..i], filterValue, wrap) + [Rendered(rows[i], filterValue, wrap)]
  {
    assert rows[..i + 1][..i] == rows[..i];
  }

  /** Rendering row `i` in place extends the rendered prefix by one row. */
  lemma RenderStep(rows: seq<Row>, filterValue: Option<string>, wrap: Wrapper, i: nat, before: seq<Row>)
    requires i < |rows|
    requires before == AfterRendering(rows[..i], filterValue, wrap) + rows[i..]
    ensures before[i] == rows[i]
    ensures before[i := Rendered(rows[i], filterValue, wrap)]
         == AfterRendering(rows[..i + 1], filterValue, wrap) + rows[i + 1..]
  {
    var done := AfterRendering(rows[..i], filterValue, wrap);
    assert before[i] == rows[i..][0];
    assert before[i := Rendered(rows[i], filterValue, wrap)] == done + [Rendered(rows[i], filterValue, wrap)] + rows[i + 1..];
    AfterRenderingSnoc(rows, filterValue, wrap, i);
  }

  /** Row `j` after the renderer is row `j` wrapped when it is shown, and
      row `j` as it was when it is not. */
  lemma {:induction false} AfterRenderingAt(rows: seq<Row>, filterValue: Option<string>, wrap: Wrapper, j: nat)
    requires j < |rows|
    ensures AfterRendering(rows, filterValue, wrap)[j]
         == if Shown(rows[j], filterValue) then Wrapped(rows[j], wrap) else rows[j]
  {
    if j < |rows| - 1 {
      AfterRenderingAt(rows[..|rows| - 1], filterValue, wrap, j);
    }
  }

  /** The rows added to the table. */
  function Body(rows: seq<Row>, filterValue: Option<string>, wrap: Wrapper): seq<Row> {
    Gather(rows, row => if Shown(row, filterValue) then Some(Wrapped(row, wrap)) else None)
  }

  // ---------------------------------------------------------------------
  // The methods.

  /** The longest wrapped line of a long-text column over all rows, `None`
      where the maximum is taken over no line at all. */
  method LongestWrappedLine(data: array<Row>, key: string, wrap: Wrapper) returns (best: Option<nat>)
    ensures best == TextWidth(data[..], key, wrap)
  {
    best := None;
    for i := 0 to data.Length
      invariant best == TextWidth(data[..i], key, wrap)
    {
      var lines := wrap(TextOf(data[i], key));
      ghost var before := best;
      for j := 0 to |lines|
        invariant best == Join2(before, LongestLine(lines[..j]))
      {
        best := MaxOpt(best, |lines[j]|);
        assert lines[..j + 1][..j] == lines[..j];
      }
      assert lines[..|lines|] == lines;
      assert data[..i + 1][..i] == data[..i];
    }
    assert data[..data.Length] == data[..];
  }

  /** The widest cell of an ordinary column over all rows. */
  method WidestValue(data: array<Row>, key: string) returns (best: nat)
    ensures best == ColumnWidth(data[..], key)
  {
    best := 0;
    for i := 0 to data.Length
      invariant best == ColumnWidth(data[..i], key)
    {
      var cell := Get(data[i], key);
      var text := if cell.Some? then ValueText(cell.value) else "";
      best := Max(best, |text|);
      assert data[..i + 1][..i] == data[..i];
    }
    assert data[..data.Length] == data[..];
  }

  /** Once a key fails, the widths of any longer list of keys fail too. */
  lemma {:induction false} WidthsFailFrom(rows: seq<Row>, keys: seq<string>, k: nat, wrap: Wrapper)
    requires k <= |keys| && Widths(rows, keys[..k], wrap).Err?
    ensures Widths(rows, keys, wrap) == Widths(rows, keys[..k], wrap)
    decreases |keys| - k
  {
    if k < |keys| {
      assert keys[..k + 1][..k] == keys[..k];
      WidthsFailFrom(rows, keys, k + 1, wrap);
    } else {
      assert keys[..k] == keys;
    }
  }

  /** The first loop: for each key of the first row, its width over all
      rows, until a long-text key has no line at all. */
  method ComputeMaxLengths(data: array<Row>, wrap: Wrapper) returns (r: Result<seq<(string, nat)>, TableError>)
    requires data.Length > 0
    ensures r == Widths(data[..], Keys(data[0]), wrap)
  {
    var keys := Keys(data[0]);
    var maxLengths := [];
    for k := 0 to |keys|
      invariant Widths(data[..], keys[..k], wrap) == Ok(maxLengths)
    {
      var key := keys[k];
      assert keys[..k + 1][..k] == keys[..k];
      if IsTextKey(key) {
        var best := LongestWrappedLine(data, key, wrap);
        if best.None? {
          WidthsFailFrom(data[..], keys, k + 1, wrap);
          return Err(EmptyMax);
        }
        maxLengths := maxLengths + [(key, best.value)];
      } else {
        var best := WidestValue(data, key);
        maxLengths := maxLengths + [(key, best)];
      }
    }
    assert keys[..|keys|] == keys;
    return Ok(maxLengths);
  }

  /** The last loop: the widths above zero, in column order. */
  method ApplyWidths(maxLengths: seq<(string, nat)>) returns (maxWidth: seq<(string, nat)>)
    ensures maxWidth == Applied(maxLengths)
  {
    maxWidth := [];
    for k := 0 to |maxLengths|
      invariant maxWidth == Applied(maxLengths[..k])
    {
      if maxLengths[k].1 > 0 {
        maxWidth := maxWidth + [maxLengths[k]];
      }
      GatherSnoc(maxLengths, k, (p: (string, nat)) => if p.1 > 0 then Some(p) else None);
    }
    assert maxLengths[..|maxLengths|] == maxLengths;
  }

  /** The whole renderer: nothing but the placeholder for no data; the
      failure of `max()` before any row is touched; otherwise every shown
      row rewritten in place and added, and the positive widths set. */
  method PrintTable(data: array<Row>, filterValue: Option<string>, wrap: Wrapper) returns (r: Result<Report, TableError>)
    requires forall i :: 0 <= i < data.Length ==> TextCells(data[i])
    modifies data
    ensures data.Length == 0 ==> r == Ok(NoData)
    ensures data.Length > 0 ==>
              match Widths(old(data[..]), Keys(old(data[0])), wrap)
              case Err(e) => r == Err(e) && data[..] == old(data[..])
              case Ok(ws) =>
                r == Ok(Table(Keys(old(data[0])), Applied(ws), Body(old(data[..]), filterValue, wrap)))
                && data[..] == AfterRendering(old(data[..]), filterValue, wrap)
  {
    if data.Length == 0 {
      return Ok(NoData);
    }
    var fields := Keys(data[0]);
    var maxLengths := ComputeMaxLengths(data, wrap);
    if maxLengths.Err? {
      return Err(maxLengths.error);
    }
    var body := AddRows(data, filterValue, wrap);
    var maxWidth := ApplyWidths(maxLengths.value);
    return Ok(Table(fields, maxWidth, body));
  }

  /** The second loop: each shown row has its long-text cells wrapped in
      place and is added to the table; the other rows stay as they were. */
  method AddRows(data: array<Row>, filterValue: Option<string>, wrap: Wrapper) returns (body: seq<Row>)
    modifies data
    ensures body == Body(old(data[..]), filterValue, wrap)
    ensures data[..] == AfterRendering(old(data[..]), filterValue, wrap)
  {
    ghost var rows := data[..];
    body := [];
    for i := 0 to data.Length
      invariant data[..] == AfterRendering(rows[..i], filterValue, wrap) + rows[i..]
      invariant body == Body(rows[..i], filterValue, wrap)
    {
      RenderStep(rows, filterValue, wrap, i, data[..]);
      ghost var before := data[..];
      var row := data[i];
      if Shown(row, filterValue) {
        row := WrapTextFields(row, wrap);
        data[i] := row;
        body := body + [row];
      }
      assert data[..] == before[i := Rendered(rows[i], filterValue, wrap)];
      GatherSnoc(rows, i, row => if Shown(row, filterValue) then Some(Wrapped(row, wrap)) else None);
    }
    assert rows[..data.Length] == rows;
    assert rows[data.Length..] == [];
  }

  /** The inner loop over a shown row's keys. */
  method WrapTextFields(row: Row, wrap: Wrapper) returns (r: Row)
    ensures r == Wrapped(row, wrap)
  {
    r := [];
    for k := 0 to |row|
      invariant r == Wrapped(row[..k], wrap)
    {
      var (key, v) := row[k];
      if IsTextKey(key) && v.Str? {
        r := r + [(key, Str(Join("\n", wrap(v.s))))];
      } else {
        r := r + [(key, v)];
      }
      assert row[..k + 1][..k] == row[..k];
    }
    assert row[..|row|] == row;
  }
}

/** What the renderer promises about the widths it sets and the rows it
    shows. */
module TableProperties {
  import opened Common
  import opened Table

  // ---------------------------------------------------------------------
  // Widths.

  /** No item is wider than the widest. */
  lemma {:induction false} WidestBounds<T>(s: seq<T>, width: T -> nat, k: nat)
    requires k < |s|
    ensures width(s[k]) <= Widest(s, width)
  {
    var n := |s| - 1;
    if k < n {
      WidestBounds(s[..n], width, k);
      assert s[..n][k] == s[k];
    }
  }

  /** Some item is exactly as wide as the widest. */
  lemma {:induction false} WidestIsAttained<T>(s: seq<T>, width: T -> nat)
    requires s != []
    ensures exists k :: 0 <= k < |s| && width(s[k]) == Widest(s, width)
  {
    var n := |s| - 1;
    var init := s[..n];
    if n > 0 && Widest(init, width) > width(s[n]) {
      WidestIsAttained(init, width);
      var k :| 0 <= k < n && width(init[k]) == Widest(init, width);
      assert s[k] == init[k];
    } else {
      assert width(s[n]) == Widest(s, width);
    }
  }

  /** An ordinary column is as wide as its widest cell: no cell is wider,
      and some cell is exactly that wide. */
  lemma ColumnWidthIsWidestCell(rows: seq<Row>, key: string)
    ensures forall k :: 0 <= k < |rows| ==> CellWidth(rows[k], key) <= ColumnWidth(rows, key)
    ensures rows != [] ==> exists k :: 0 <= k < |rows| && CellWidth(rows[k], key) == ColumnWidth(rows, key)
  {
    var width := row => CellWidth(row, key);
    forall k | 0 <= k < |rows|
      ensures CellWidth(rows[k], key) <= ColumnWidth(rows, key)
    {
      WidestBounds(rows, width, k);
    }
    if rows != [] {
      WidestIsAttained(rows, width);
    }
  }

  /** The longest line is no shorter than any line and equal to one of
      them; there is none exactly when there are no lines. */
  lemma {:induction false} LongestLineIsLongest(lines: seq<string>)
    ensures LongestLine(lines).None? <==> lines == []
    ensures LongestLine(lines).Some? ==>
              (forall j :: 0 <= j < |lines| ==> |lines[j]| <= LongestLine(lines).value)
              && exists j :: 0 <= j < |lines| && |lines[j]| == LongestLine(lines).value
  {
    if lines != [] {
      var init := lines[..|lines| - 1];
      LongestLineIsLongest(init);
      assert forall j :: 0 <= j < |init| ==> init[j] == lines[j];
      if init != [] && LongestLine(lines).value == LongestLine(init).value {
        var j :| 0 <= j < |init| && |init[j]| == LongestLine(init).value;
        assert |lines[j]| == LongestLine(lines).value;
      }
    }
  }

  /** A long-text column has no width exactly when every row's text wraps
      to no line at all. */
  lemma {:induction false} TextWidthAbsent(rows: seq<Row>, key: string, wrap: Wrapper)
    ensures TextWidth(rows, key, wrap).None? <==> forall k :: 0 <= k < |rows| ==> wrap(TextOf(rows[k], key)) == []
  {
    if rows != [] {
      var init := rows[..|rows| - 1];
      TextWidthAbsent(init, key, wrap);
      LongestLineIsLongest(wrap(TextOf(rows[|rows| - 1], key)));
      assert forall k :: 0 <= k < |init| ==> init[k] == rows[k];
    }
  }

  /** No wrapped line of a long-text column is longer than its width. */
  lemma {:induction false} LineFitsTextWidth(rows: seq<Row>, key: string, wrap: Wrapper, k: nat, j: nat)
    requires k < |rows| && j < |wrap(TextOf(rows[k], key))|
    ensures TextWidth(rows, key, wrap).Some?
    ensures |wrap(TextOf(rows[k], key))[j]| <= TextWidth(rows, key, wrap).value
  {
    var n := |rows| - 1;
    var init := rows[..n];
    if k < n {
      assert init[k] == rows[k];
      LineFitsTextWidth(init, key, wrap, k, j);
    } else {
      LongestLineIsLongest(wrap(TextOf(rows[n], key)));
    }
  }

  /** Some wrapped line of a long-text column is exactly as long as its
      width. */
  lemma {:induction false} TextWidthIsAttained(rows: seq<Row>, key: string, wrap: Wrapper)
    requires TextWidth(rows, key, wrap).Some?
    ensures exists k, j :: 0 <= k < |rows| && 0 <= j < |wrap(TextOf(rows[k], key))|
              && |wrap(TextOf(rows[k], key))[j]| == TextWidth(rows, key, wrap).value
  {
    var n := |rows| - 1;
    var init := rows[..n];
    var last := wrap(TextOf(rows[n], key));
    var before := TextWidth(init, key, wrap);
    LongestLineIsLongest(last);
    if before.Some? && (last == [] || LongestLine(last).value < before.value) {
      TextWidthIsAttained(init, key, wrap);
      var k, j :| 0 <= k < n && 0 <= j < |wrap(TextOf(init[k], key))|
                  && |wrap(TextOf(init[k], key))[j]| == before.value;
      assert rows[k] == init[k];
    } else {
      var j :| 0 <= j < |last| && |last[j]| == LongestLine(last).value;
      assert wrap(TextOf(rows[n], key))[j] == last[j];
    }
  }

  /** With text wrapped to at most 80 characters a line, no long-text
      column is wider than 80. */
  lemma TextWidthAtMost80(rows: seq<Row>, key: string, wrap: Wrapper)
    requires forall t: string, j :: 0 <= j < |wrap(t)| ==> |wrap(t)[j]| <= 80
    ensures TextWidth(rows, key, wrap).Some? ==> TextWidth(rows, key, wrap).value <= 80
  {
    if TextWidth(rows, key, wrap).Some? {
      TextWidthIsAttained(rows, key, wrap);
    }
  }

  /** The widths fail exactly when some long-text key of the first row has
      no wrapped line in any row. */
  lemma {:induction false} WidthsFailWhen(rows: seq<Row>, keys: seq<string>, wrap: Wrapper)
    ensures Widths(rows, keys, wrap).Err?
        <==> exists k :: 0 <= k < |keys| && IsTextKey(keys[k]) && TextWidth(rows, keys[k], wrap).None?
  {
    if keys != [] {
      var init := keys[..|keys| - 1];
      WidthsFailWhen(rows, init, wrap);
      assert forall k :: 0 <= k < |init| ==> init[k] == keys[k];
    }
  }

  /** Otherwise there is one width per key, in the key order: the longest
      wrapped line for a long-text key, the widest cell for any other. */
  lemma {:induction false} WidthsPerKey(rows: seq<Row>, keys: seq<string>, wrap: Wrapper)
    requires Widths(rows, keys, wrap).Ok?
    ensures |Widths(rows, keys, wrap).value| == |keys|
    ensures forall k :: 0 <= k < |keys| ==>
              var w := Widths(rows, keys, wrap).value[k];
              w.0 == keys[k]
              && if IsTextKey(keys[k]) then TextWidth(rows, keys[k], wrap) == Some(w.1)
                 else w.1 == ColumnWidth(rows, keys[k])
  {
    if keys != [] {
      var init := keys[..|keys| - 1];
      var ws := Widths(rows, init, wrap).value;
      WidthsPerKey(rows, init, wrap);
      assert forall k :: 0 <= k < |init| ==> init[k] == keys[k] && Widths(rows, keys, wrap).value[k] == ws[k];
    }
  }

  /** The widths set on the table are exactly the positive ones. */
  lemma AppliedMembers(ws: seq<(string, nat)>, p: (string, nat))
    ensures p in Applied(ws) <==> p in ws && p.1 > 0
  {
    GatherMembers(ws, (p: (string, nat)) => if p.1 > 0 then Some(p) else None, p);
  }

  // ---------------------------------------------------------------------
  // Rows.

  /** Wrapping keeps the row's keys, in their order. */
  lemma {:induction false} WrappedKeepsKeys(row: Row, wrap: Wrapper)
    ensures Keys(Wrapped(row, wrap)) == Keys(row)
  {
    if row != [] {
      WrappedKeepsKeys(row[..|row| - 1], wrap);
    }
  }

  /** Wrapping keeps every ordinary cell; a long-text cell becomes its
      wrapped lines joined by newlines. */
  lemma {:induction false} WrappedCellAt(row: Row, wrap: Wrapper, k: nat)
    requires k < |row|
    ensures Wrapped(row, wrap)[k]
         == if IsTextKey(row[k].0) && row[k].1.Str? then (row[k].0, Str(Join("\n", wrap(row[k].1.s)))) else row[k]
  {
    if k < |row| - 1 {
      var init := row[..|row| - 1];
      WrappedCellAt(init, wrap, k);
      assert init[k] == row[k];
    }
  }

  /** A row is added exactly when it is shown, and it is added wrapped. */
  lemma BodyMembers(rows: seq<Row>, filterValue: Option<string>, wrap: Wrapper, r: Row)
    ensures r in Body(rows, filterValue, wrap)
        <==> exists k :: 0 <= k < |rows| && Shown(rows[k], filterValue) && r == Wrapped(rows[k], wrap)
  {
    GatherMembers(rows, row => if Shown(row, filterValue) then Some(Wrapped(row, wrap)) else None, r);
  }

  /** The table has no rows exactly when no row is shown, and then the
      renderer leaves every row as it was. */
  lemma {:induction false} NothingShown(rows: seq<Row>, filterValue: Option<string>, wrap: Wrapper)
    ensures Body(rows, filterValue, wrap) == [] <==> forall k :: 0 <= k < |rows| ==> !Shown(rows[k], filterValue)
    ensures Body(rows, filterValue, wrap) == [] ==> AfterRendering(rows, filterValue, wrap) == rows
  {
    GatherEmpty(rows, row => if Shown(row, filterValue) then Some(Wrapped(row, wrap)) else None);
    if Body(rows, filterValue, wrap) == [] {
      forall k | 0 <= k < |rows|
        ensures AfterRendering(rows, filterValue, wrap)[k] == rows[k]
      {
        AfterRenderingAt(rows, filterValue, wrap, k);
      }
    }
  }

  /** When every row is shown, the table holds every row, wrapped, and the
      rows left behind are those same rows. */
  lemma {:induction false} EverythingShown(rows: seq<Row>, filterValue: Option<string>, wrap: Wrapper)
    requires forall k :: 0 <= k < |rows| ==> Shown(rows[k], filterValue)
    ensures Body(rows, filterValue, wrap) == AfterRendering(rows, filterValue, wrap)
    ensures |Body(rows, filterValue, wrap)| == |rows|
  {
    if rows != [] {
      var init := rows[..|rows| - 1];
      assert forall k :: 0 <= k < |init| ==> init[k] == rows[k];
      EverythingShown(init, filterValue, wrap);
    }
  }

  /** The filter is matched against the printed form of the values, so a
      filter that starts that form, such as `dict` or `dict_values`, shows
      every row whatever its values. */
  lemma DictValuesFilterShowsEveryRow(row: Row, filterValue: string)
    requires IsPrefix(filterValue, "dict_values([")
    ensures Shown(row, Some(filterValue))
  {
    var text := ValuesText(row);
    assert text[..|filterValue|] == "dict_values(["[..|filterValue|];
  }

  lemma {:induction false} ReprAllAt(row: Row, k: nat)
    requires k < |row|
    ensures ReprAll(row)[k] == ValueRepr(row[k].1)
  {
    if k < |row| - 1 {
      ReprAllAt(row[..|row| - 1], k);
    }
  }

  /** The text of a row's values holds the `repr` of each value. */
  lemma ReprInValuesText(row: Row, k: nat)
    requires k < |row|
    ensures Contains(ValuesText(row), ValueRepr(row[k].1))
  {
    ReprAllAt(row, k);
    JoinHasPart(", ", ReprAll(row), k);
    ContainsWithin("dict_values([", Join(", ", ReprAll(row)), "])", ValueRepr(row[k].1));
  }

  /** A row is shown whenever the filter occurs in the `repr` of one of
      its values; for plain text that is the text itself. */
  lemma ShownByValue(row: Row, filterValue: string, k: nat)
    requires k < |row| && Contains(ValueRepr(row[k].1), filterValue)
    ensures Shown(row, Some(filterValue))
  {
    ReprInValuesText(row, k);
    ContainsTransitive(ValuesText(row), ValueRepr(row[k].1), filterValue);
  }

  /** A filter inside a plain text value shows the row. */
  lemma ShownByPlainText(row: Row, filterValue: string, k: nat, s: string)
    requires k < |row| && row[k].1 == Str(s)
    requires forall i :: 0 <= i < |s| ==> PlainChar(s[i])
    requires Contains(s, filterValue)
    ensures Shown(row, Some(filterValue))
  {
    ReprPlain(s);
    ContainsWithin("'", s, "'", filterValue);
    ShownByValue(row, filterValue, k);
  }
}
