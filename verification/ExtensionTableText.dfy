/** The text of the generated tables, letter by letter. */
module ExtensionTableText {
  import opened Wrappers
  import opened Text
  import opened ExtensionTable
  import opened ExtensionTableMaps
  import opened ExtensionTableEntries

  /** The names of the catalog types. */
  function CatalogName(t: CatalogType): string {
    match t
    case Scalar => "CatalogType::SCALAR_FUNCTION_ENTRY"
    case Table => "CatalogType::TABLE_FUNCTION_ENTRY"
    case Aggregate => "CatalogType::AGGREGATE_FUNCTION_ENTRY"
    case Pragma => "CatalogType::PRAGMA_FUNCTION_ENTRY"
    case Macro => "CatalogType::MACRO_ENTRY"
    case TableMacro => "CatalogType::TABLE_MACRO_ENTRY"
  }

  lemma TypeNames(t: CatalogType)
    ensures TypeText(t) == CatalogName(t)
  {
    hide TypeText, CatalogName;
    match t
    case Scalar => ScalarName();
    case Table => TableName();
    case Aggregate => AggregateName();
    case Pragma => PragmaName();
    case Macro => MacroName();
    case TableMacro => TableMacroName();
  }

  lemma ScalarName()
    ensures TypeText(Scalar) == CatalogName(Scalar)
  {}

  lemma TableName()
    ensures TypeText(Table) == CatalogName(Table)
  {}

  lemma AggregateName()
    ensures TypeText(Aggregate) == CatalogName(Aggregate)
  {}

  lemma PragmaName()
    ensures TypeText(Pragma) == CatalogName(Pragma)
  {}

  lemma MacroName()
    ensures TypeText(Macro) == CatalogName(Macro)
  {}

  lemma TableMacroName()
    ensures TypeText(TableMacro) == CatalogName(TableMacro)
  {}

  function InQuotes(s: string): string {
    "\"" + s + "\""
  }

  /** A row of the function table: name, extension and type. */
  lemma FunctionRowText(e: ExtensionFunction)
    ensures PrintRow(FunctionRow(e)) ==
      "\t{" + (InQuotes(e.name) + ", " + (InQuotes(e.extension) + ", " + CatalogName(e.ctype))) + "},\n"
  {
    hide TypeText, CatalogName;
    TypeNames(e.ctype);
    var cells := FunctionRow(e);
    TwoMore(cells);
    LastCell(cells[2..]);
    hide PrintCells;
  }

  /** A row of the overload table: name, extension, type and signature. */
  lemma OverloadRowText(o: Overload)
    ensures PrintRow(OverloadRow(o)) ==
      "\t{" + (InQuotes(o.name) + ", " + (InQuotes(o.extension) + ", " + (CatalogName(o.ctype) + ", " +
        InQuotes("[" + Join(o.parameters, ',') + "]" + ">" + o.returnType)))) + "},\n"
  {
    hide TypeText, CatalogName, Join;
    TypeNames(o.ctype);
    var cells := OverloadRow(o);
    TwoMore(cells);
    OneMore(cells[2..]);
    LastCell(cells[3..]);
    hide PrintCells;
  }

  lemma OneMore(cells: seq<Cell>)
    requires |cells| > 1
    ensures PrintCells(cells) == PrintCell(cells[0]) + ", " + PrintCells(cells[1..])
  {}

  lemma TwoMore(cells: seq<Cell>)
    requires |cells| > 2
    ensures PrintCells(cells) == PrintCell(cells[0]) + ", " + (PrintCell(cells[1]) + ", " + PrintCells(cells[2..]))
  {
    hide PrintCell;
    OneMore(cells);
    OneMore(cells[1..]);
    assert cells[1..][1..] == cells[2..];
  }

  lemma LastCell(cells: seq<Cell>)
    requires |cells| == 1
    ensures PrintCells(cells) == PrintCell(cells[0])
  {}

  /** A table is a declaration, its rows, and the end marker that the reader looks for. */
  lemma TableText(entryType: string, name: string, rows: seq<seq<Cell>>)
    ensures PrintTable(entryType, name, rows) ==
      "\nstatic constexpr " + entryType + " " + name + "[] = {\n" + PrintRows(rows) + "}; // END_OF_" + name + "\n"
  {
    PrintTableAssoc(entryType, name, rows);
  }

  lemma {:induction false} RowsInOrder(rows: seq<seq<Cell>>, i: nat)
    requires i < |rows|
    ensures PrintRows(rows) == PrintRows(rows[..i]) + PrintRow(rows[i]) + PrintRows(rows[i + 1..])
  {
    hide PrintRow;
    if i == 0 {
      assert rows[..0] == [] && PrintRows(rows[..0]) == "";
    } else {
      RowsInOrder(rows[1..], i - 1);
      assert rows[1..][..i - 1] == rows[1..i] && rows[..i][1..] == rows[1..i] && rows[1..][i..] == rows[i + 1..];
      assert rows[..i][0] == rows[0];
    }
  }

  // ---------------------------------------------------------------------------
  // The slice of the header
  // ---------------------------------------------------------------------------

  /** str.find gives the first place where the text stands, or -1 if there is none. */
  lemma {:induction false} FindMeaning(m: string, s: string)
    ensures var r := Find(m, s);
      if r < 0 then r == -1 && Free(m, s)
      else At(m, s, r) && forall i: nat :: i < r ==> !At(m, s, i)
    decreases |s|
  {
    if |s| >= |m| && s[..|m|] != m && s != "" {
      FindMeaning(m, s[1..]);
      forall i: nat ensures At(m, s, i) <==> i > 0 && At(m, s[1..], i - 1) {
        if i > 0 && i + |m| <= |s| {
          assert s[i..i + |m|] == s[1..][i - 1..i - 1 + |m|];
        }
      }
    } else if |s| >= |m| && s[..|m|] == m {
      assert At(m, s, 0);
    }
  }

  /** Positions from the end for negative numbers, and no further than the ends. */
  lemma ClampMeaning(s: string, i: int)
    ensures 0 <= i <= |s| ==> Clamp(s, i) == i
    ensures i > |s| ==> Clamp(s, i) == |s|
    ensures -|s| <= i < 0 ==> Clamp(s, i) == |s| + i
    ensures i < -|s| ==> Clamp(s, i) == 0
  {}

  /** s[i:j] is empty unless i comes first. */
  lemma SliceMeaning(s: string, i: int, j: int)
    ensures var from, to := Clamp(s, i), Clamp(s, j);
      |PySlice(s, i, j)| == (if from < to then to - from else 0) &&
      forall k :: 0 <= k < |PySlice(s, i, j)| ==> PySlice(s, i, j)[k] == s[from + k]
  {}

  /** The names of the tables that are read back. */
  lemma TableNames()
    ensures IsName("EXTENSION_FUNCTIONS") && IsName("EXTENSION_FUNCTION_OVERLOADS")
  {}
}
