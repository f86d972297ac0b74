/** Finding a table in the header again, and rebuilding the maps it was exported from. */
module ExtensionTableMaps {
  import opened Wrappers
  import opened Text
  import opened ExtensionTable

  // ---------------------------------------------------------------------------
  // get_slice_of_file
  // ---------------------------------------------------------------------------

  /** str.find: the first position, or -1. */
  function Find(m: string, s: string): int
    decreases |s|
  {
    if |s| < |m| then -1
    else if s[..|m|] == m then 0
    else if s == "" then -1
    else
      var r := Find(m, s[1..]);
      if r < 0 then -1 else r + 1
  }

  /** s[i:j] with negative indexes counting from the end. */
  function PySlice(s: string, i: int, j: int): string {
    var from := Clamp(s, i);
    var to := Clamp(s, j);
    if from <= to then s[from..to] else ""
  }

  function Clamp(s: string, i: int): nat
    ensures Clamp(s, i) <= |s|
  {
    if i < -|s| then 0 else if i < 0 then |s| + i else if i > |s| then |s| else i
  }

  function EndMarker(name: string): string {
    "END_OF_" + name
  }

  function GetSliceOfFile(name: string, file: string): string {
    PySlice(file, Find(name, file), Find(EndMarker(name), file))
  }

  predicate At(m: string, s: string, i: nat) {
    i + |m| <= |s| && s[i..i + |m|] == m
  }

  /** The text does not contain m. */
  ghost predicate Free(m: string, s: string) {
    forall i: nat :: !At(m, s, i)
  }

  lemma FreeTail(m: string, s: string)
    requires Free(m, s) && s != ""
    ensures Free(m, s[1..])
  {
    forall i: nat ensures !At(m, s[1..], i) {
      assert !At(m, s, i + 1);
      assert i + |m| <= |s[1..]| ==> s[1..][i..i + |m|] == s[i + 1..i + 1 + |m|];
    }
  }

  /** m straddles no boundary at which a character stands that m does not have. */
  lemma FreeConcat(m: string, a: string, b: string)
    requires Free(m, a) && Free(m, b)
    requires a == "" || b == "" || a[|a| - 1] !in m || b[0] !in m
    ensures Free(m, a + b)
  {
    forall i: nat ensures !At(m, a + b, i) {
      if i + |m| <= |a + b| {
        var x := (a + b)[i..i + |m|];
        if i + |m| <= |a| {
          assert x == a[i..i + |m|];
          assert !At(m, a, i);
        } else if i >= |a| {
          assert x == b[i - |a|..i - |a| + |m|];
          assert !At(m, b, i - |a|);
        } else {
          assert x[|a| - 1 - i] == a[|a| - 1] && x[|a| - i] == b[0];
        }
      }
    }
  }

  lemma NotInFront(m: string, a: string, b: string)
    requires m != "" && Free(m, a) && a != "" && a[|a| - 1] !in m
    ensures (a + m + b)[..|m|] != m
  {
    var s := a + m + b;
    if |m| <= |a| {
      assert !At(m, a, 0);
      assert a[0..0 + |m|] == s[..|m|];
    } else {
      assert s[..|m|][|a| - 1] == a[|a| - 1];
      assert m[|a| - 1] in m;
    }
  }

  /** The first occurrence is the one after a text that is free of m and ends with a foreign character. */
  lemma {:induction false} FindAt(m: string, a: string, b: string)
    requires m != "" && Free(m, a) && (a == "" || a[|a| - 1] !in m)
    ensures Find(m, a + m + b) == |a|
    decreases |a|
  {
    var s := a + m + b;
    if a == "" {
      assert s[..|m|] == m;
    } else {
      NotInFront(m, a, b);
      FreeTail(m, a);
      FindAt(m, a[1..], b);
      assert s[1..] == a[1..] + m + b;
    }
  }

  /** Letters, digits and underscores make up the names of tables. */
  predicate NameChar(c: char) {
    'A' <= c <= 'Z' || 'a' <= c <= 'z' || '0' <= c <= '9' || c == '_'
  }

  predicate IsName(s: string) {
    s != "" && forall i :: 0 <= i < |s| ==> NameChar(s[i])
  }

  lemma Foreign(m: string, c: char)
    requires IsName(m) && !NameChar(c)
    ensures c !in m
  {}

  lemma MarkerIsName(name: string)
    requires IsName(name)
    ensures IsName(EndMarker(name)) && |EndMarker(name)| > 7
  {}

  predicate NeverOF(s: string) {
    forall i :: 0 <= i < |s| - 1 ==> !(s[i] == 'O' && s[i + 1] == 'F')
  }

  lemma StemNeverOF(t: CatalogType)
    ensures NeverOF(Stem(t))
  {}

  lemma TypeFree(name: string, t: CatalogType)
    ensures Free(EndMarker(name), TypeText(t))
  {
    StemNeverOF(t);
    assert NeverOF("CatalogType::") && NeverOF("_ENTRY");
    hide Stem;
    var s, m := TypeText(t), EndMarker(name);
    assert NeverOF(s);
    assert m[4] == 'O' && m[5] == 'F' && |m| > 6;
    forall i: nat ensures !At(m, s, i) {
      if i + |m| <= |s| {
        assert s[i..i + |m|][4] == s[i + 4] && s[i..i + |m|][5] == s[i + 5];
      }
    }
  }

  ghost predicate CellFree(m: string, c: Cell) {
    c.Quoted? ==> Free(m, c.text)
  }

  ghost predicate RowsFree(m: string, rows: seq<seq<Cell>>) {
    forall i :: 0 <= i < |rows| ==> forall j :: 0 <= j < |rows[i]| ==> CellFree(m, rows[i][j])
  }

  lemma ShortFree(m: string, s: string)
    requires |s| < |m|
    ensures Free(m, s)
  {}

  lemma PrintCellFree(name: string, c: Cell)
    requires IsName(name) && CellFree(EndMarker(name), c)
    ensures Free(EndMarker(name), PrintCell(c))
  {
    var m := EndMarker(name);
    MarkerIsName(name);
    match c
    case TypeName(t) => TypeFree(name, t);
    case Quoted(text) =>
      Foreign(m, '"');
      ShortFree(m, "\"");
      hide EndMarker;
      FreeConcat(m, "\"", text);
      FreeConcat(m, "\"" + text, "\"");
  }

  lemma {:induction false} PrintCellsFree(name: string, cells: seq<Cell>)
    requires IsName(name) && forall j :: 0 <= j < |cells| ==> CellFree(EndMarker(name), cells[j])
    ensures Free(EndMarker(name), PrintCells(cells))
    decreases |cells|
  {
    var m := EndMarker(name);
    MarkerIsName(name);
    hide EndMarker, CellFree, Free, PrintCell;
    if cells == [] {
      ShortFree(m, "");
    } else {
      PrintCellFree(name, cells[0]);
      if |cells| > 1 {
        PrintCellsFree(name, cells[1..]);
        Foreign(m, ',');
        Foreign(m, ' ');
        ShortFree(m, ", ");
        FreeConcat(m, PrintCell(cells[0]), ", ");
        FreeConcat(m, PrintCell(cells[0]) + ", ", PrintCells(cells[1..]));
      }
    }
  }

  lemma PrintRowFree(name: string, cells: seq<Cell>)
    requires IsName(name) && forall j :: 0 <= j < |cells| ==> CellFree(EndMarker(name), cells[j])
    ensures Free(EndMarker(name), PrintRow(cells))
  {
    var m := EndMarker(name);
    PrintCellsFree(name, cells);
    MarkerIsName(name);
    hide EndMarker, CellFree, Free, PrintCells;
    Foreign(m, '{');
    Foreign(m, '}');
    ShortFree(m, "\t{");
    ShortFree(m, "},\n");
    FreeConcat(m, "\t{", PrintCells(cells));
    FreeConcat(m, "\t{" + PrintCells(cells), "},\n");
  }

  lemma {:induction false} PrintRowsFree(name: string, rows: seq<seq<Cell>>)
    requires IsName(name) && RowsFree(EndMarker(name), rows)
    ensures Free(EndMarker(name), PrintRows(rows))
    decreases |rows|
  {
    var m := EndMarker(name);
    MarkerIsName(name);
    hide EndMarker, CellFree, Free;
    if rows == [] {
      ShortFree(m, "");
    } else {
      PrintRowFree(name, rows[0]);
      PrintRowsFree(name, rows[1..]);
      RowEnds(rows[0]);
      hide PrintRow;
      Foreign(m, '\n');
      FreeConcat(m, PrintRow(rows[0]), PrintRows(rows[1..]));
    }
  }

  lemma RowEnds(cells: seq<Cell>)
    ensures PrintRow(cells) != "" && PrintRow(cells)[|PrintRow(cells)| - 1] == '\n'
  {
    hide PrintCells;
  }

  lemma PrintBodyFree(name: string, rows: seq<seq<Cell>>)
    requires IsName(name) && RowsFree(EndMarker(name), rows)
    ensures Free(EndMarker(name), PrintBody(rows))
  {
    var m := EndMarker(name);
    PrintRowsFree(name, rows);
    MarkerIsName(name);
    hide EndMarker, CellFree, Free, PrintRows;
    Foreign(m, '\n');
    Foreign(m, '}');
    ShortFree(m, "[] = {\n");
    ShortFree(m, "}; // ");
    FreeConcat(m, "[] = {\n", PrintRows(rows));
    FreeConcat(m, "[] = {\n" + PrintRows(rows), "}; // ");
  }

  /** Text in front that does not contain the name does not contain its end marker either. */
  lemma MarkerLonger(name: string, s: string)
    requires Free(name, s)
    ensures Free(EndMarker(name), s)
  {
    var m := EndMarker(name);
    assert m[7..] == name;
    forall i: nat ensures !At(m, s, i) {
      if i + |m| <= |s| {
        assert s[i..i + |m|][7..] == s[i + 7..i + 7 + |name|];
        assert !At(name, s, i + 7);
      }
    }
  }

  function Declaration(entryType: string): string {
    "\nstatic constexpr " + entryType + " "
  }

  /** What stands in front of the table does not contain its name, and no cell contains its end marker. */
  ghost predicate Marked(pre: string, entryType: string, name: string, rows: seq<seq<Cell>>) {
    && IsName(name)
    && Free(name, pre + Declaration(entryType))
    && RowsFree(EndMarker(name), rows)
  }

  /** The slice of a header that holds the table is the table's name and body. */
  lemma SliceOfTable(pre: string, entryType: string, name: string, rows: seq<seq<Cell>>, post: string)
    requires Marked(pre, entryType, name, rows)
    ensures GetSliceOfFile(name, pre + PrintTable(entryType, name, rows) + post) == name + PrintBody(rows)
  {
    var front, body, m := pre + Declaration(entryType), PrintBody(rows), EndMarker(name);
    MarkerIsName(name);
    PrintBodyFree(name, rows);
    BodyEnds(rows);
    MarkerLonger(name, front);
    TableParts(pre, entryType, name, rows, post);
    assert front[|front| - 1] == ' ';
    hide PrintBody, EndMarker, PrintTable, RowsFree;
    SliceBetween(front, name, body, m, post);
  }

  lemma BodyEnds(rows: seq<seq<Cell>>)
    ensures var body := PrintBody(rows); body != "" && body[|body| - 1] == ' ' && body[0] == '['
  {
    hide PrintRows;
  }

  lemma TableParts(pre: string, entryType: string, name: string, rows: seq<seq<Cell>>, post: string)
    ensures pre + PrintTable(entryType, name, rows) + post ==
      pre + Declaration(entryType) + name + PrintBody(rows) + EndMarker(name) + "\n" + post
  {
    hide PrintBody;
  }

  lemma SliceBetween(front: string, name: string, body: string, m: string, post: string)
    requires IsName(name) && IsName(m) && |name| < |m| && body != "" && front != ""
    requires Free(name, front) && Free(m, front) && Free(m, body)
    requires front[|front| - 1] == ' ' && body[0] == '[' && body[|body| - 1] == ' '
    ensures var file := front + name + body + m + "\n" + post;
      PySlice(file, Find(name, file), Find(m, file)) == name + body
  {
    hide Free, IsName, Find;
    FindName(front, name, body + m + "\n" + post);
    Regroup(front + name, body, m, "\n", post);
    FindMarker(front, name, body, m, "\n" + post);
    SliceMiddle(front, name, body, m + "\n" + post);
    SameSlice(front + name + body, m, post);
  }

  lemma Regroup(a: string, b: string, c: string, d: string, e: string)
    ensures a + b + c + d + e == a + (b + c + d + e) == a + b + (c + d + e)
  {}

  lemma SameSlice(a: string, m: string, post: string)
    ensures a + m + "\n" + post == a + (m + "\n" + post) == a + m + ("\n" + post)
  {}

  lemma SliceMiddle(front: string, name: string, body: string, rest: string)
    ensures (front + name + body + rest)[|front|..|front + name + body|] == name + body
  {}

  lemma FindName(front: string, name: string, rest: string)
    requires IsName(name) && Free(name, front) && front != "" && front[|front| - 1] == ' '
    ensures Find(name, front + name + rest) == |front|
  {
    Foreign(name, ' ');
    hide Free, Find;
    FindAt(name, front, rest);
  }

  lemma FindMarker(front: string, name: string, body: string, m: string, rest: string)
    requires IsName(m) && |name| < |m| && body != "" && front != "" && Free(m, front) && Free(m, body)
    requires front[|front| - 1] == ' ' && body[0] == '[' && body[|body| - 1] == ' '
    ensures Find(m, front + name + body + m + rest) == |front + name + body|
  {
    Foreign(m, ' ');
    Foreign(m, '[');
    ShortFree(m, name);
    hide Free, IsName, Find;
    FreeConcat(m, front, name);
    FreeConcat(m, front + name, body);
    FindAt(m, front + name + body, rest);
  }

  lemma NameIsPlain(name: string)
    requires IsName(name)
    ensures AllPlain(name)
  {}

  /**
   Parsing the exported slice gives back the rows, with commas and braces inside their texts, exactly if the
   table has a row and all its quoted texts are nonempty, trimmed and free of quotes.
   */
  lemma TableRoundTrip(pre: string, entryType: string, name: string, rows: seq<seq<Cell>>, post: string)
    requires Marked(pre, entryType, name, rows)
    ensures ParseRecords(GetSliceOfFile(name, pre + PrintTable(entryType, name, rows) + post)) == RowTexts(rows) <==>
      rows != [] && CleanRows(rows)
  {
    SliceOfTable(pre, entryType, name, rows, post);
    NameIsPlain(name);
    RunSlice(name, rows);
  }
}
