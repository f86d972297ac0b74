/**
 Printing the tables of extension_entries.hpp and reading them back from the header.
 */
module ExtensionTable {
  import opened Wrappers
  import opened Text

  // ---------------------------------------------------------------------------
  // parse_records
  // ---------------------------------------------------------------------------

  datatype Parser = Parser(records: seq<seq<string>>, record: seq<string>, item: string, inQuote: bool, inBraces: bool)

  /** The record with the current item, unless nothing is left of it after stripping. */
  function WithItem(record: seq<string>, item: string): seq<string> {
    if Strip(item) == "" then record else record + [Strip(item)]
  }

  /** One character: quotes toggle and are dropped, braces delimit records, commas delimit items. */
  function Step(p: Parser, c: char): Parser {
    if c == '"' then p.(inQuote := !p.inQuote)
    else if c == '{' && !p.inQuote then Parser(p.records, [], "", false, true)
    else if c == '}' && !p.inQuote && p.inBraces then
      Parser(p.records + [WithItem(p.record, p.item)], [], "", false, false)
    else if c == ',' && !p.inQuote && p.inBraces then p.(record := WithItem(p.record, p.item), item := "")
    else if p.inBraces then p.(item := p.item + [c])
    else p
  }

  function Run(p: Parser, text: string): Parser
    decreases |text|
  {
    if text == "" then p else Run(Step(p, text[0]), text[1..])
  }

  const START := Parser([], [], "", false, false)

  function ParseRecords(text: string): seq<seq<string>> {
    Run(START, text).records
  }

  lemma {:induction false} RunConcat(p: Parser, a: string, b: string)
    ensures Run(p, a + b) == Run(Run(p, a), b)
    decreases |a|
  {
    hide Step;
    if a == "" {
      assert a + b == b;
    } else {
      assert (a + b)[1..] == a[1..] + b;
      RunConcat(Step(p, a[0]), a[1..], b);
    }
  }

  lemma RunOne(p: Parser, c: char)
    ensures Run(p, [c]) == Step(p, c)
  {
    hide Step;
    assert [c][1..] == "";
  }

  /** The character loop. */
  method ParseRecordsLoop(text: string) returns (records: seq<seq<string>>)
    ensures records == ParseRecords(text)
  {
    records := [];
    var currentRecord: seq<string> := [];
    var currentItem: string := "";
    var inQuote, insideBraces := false, false;
    for i := 0 to |text|
      invariant Run(Parser(records, currentRecord, currentItem, inQuote, insideBraces), text[i..]) == Run(START, text)
    {
      var c := text[i];
      assert text[i..][1..] == text[i + 1..] && text[i..][0] == c;
      hide Strip;
      if c == '"' {
        inQuote := !inQuote;
      } else if c == '{' && !inQuote {
        insideBraces, currentRecord, currentItem := true, [], "";
      } else if c == '}' && !inQuote && insideBraces {
        var token := Strip(currentItem);
        if token != "" {
          currentRecord := currentRecord + [token];
        }
        records := records + [currentRecord];
        currentRecord, currentItem, insideBraces := [], "", false;
      } else if c == ',' && !inQuote && insideBraces {
        var token := Strip(currentItem);
        if token != "" {
          currentRecord := currentRecord + [token];
        }
        currentItem := "";
      } else if insideBraces {
        currentItem := currentItem + [c];
      }
    }
  }

  // ---------------------------------------------------------------------------
  // What the parser can return
  // ---------------------------------------------------------------------------

  predicate NoQuote(s: string) {
    forall i :: 0 <= i < |s| ==> s[i] != '"'
  }

  /** Nonempty, trimmed and free of quotes. */
  predicate CleanText(s: string) {
    s != "" && Strip(s) == s && NoQuote(s)
  }

  predicate CleanRecord(record: seq<string>) {
    forall t <- record :: CleanText(t)
  }

  predicate CleanRecords(records: seq<seq<string>>) {
    forall r <- records :: CleanRecord(r)
  }

  lemma {:induction false} StripNoQuote(s: string)
    requires NoQuote(s)
    ensures NoQuote(Strip(s))
  {
    assert LeftStrip(s) == s[|s| - |LeftStrip(s)|..];
    var l := LeftStrip(s);
    assert RightStrip(l) == l[..|RightStrip(l)|];
    hide LeftStrip, RightStrip;
  }

  lemma StripTwice(s: string)
    ensures Strip(Strip(s)) == Strip(s)
  {
    var l := LeftStrip(s);
    var r := RightStrip(l);
    assert r != "" ==> r[0] == l[0] && !IsSpace(r[0]);
    assert LeftStrip(r) == r;
    assert RightStrip(r) == r;
  }

  lemma WithItemClean(record: seq<string>, item: string)
    requires CleanRecord(record) && NoQuote(item)
    ensures CleanRecord(WithItem(record, item))
  {
    StripNoQuote(item);
    StripTwice(item);
    hide Strip;
  }

  predicate CleanState(p: Parser) {
    CleanRecords(p.records) && CleanRecord(p.record) && NoQuote(p.item)
  }

  lemma StepClean(p: Parser, c: char)
    requires CleanState(p)
    ensures CleanState(Step(p, c))
  {
    WithItemClean(p.record, p.item);
    hide WithItem, CleanText;
  }

  /** Whatever the text, every token that is read back is nonempty, trimmed and free of quotes. */
  lemma {:induction false} RunClean(p: Parser, text: string)
    requires CleanState(p)
    ensures CleanState(Run(p, text))
    decreases |text|
  {
    hide Step, CleanState;
    if text != "" {
      StepClean(p, text[0]);
      RunClean(Step(p, text[0]), text[1..]);
    }
  }

  // ---------------------------------------------------------------------------
  // Printing
  // ---------------------------------------------------------------------------

  datatype CatalogType = Scalar | Table | Aggregate | Pragma | Macro | TableMacro

  function Stem(t: CatalogType): string {
    match t
    case Scalar => "SCALAR_FUNCTION"
    case Table => "TABLE_FUNCTION"
    case Aggregate => "AGGREGATE_FUNCTION"
    case Pragma => "PRAGMA_FUNCTION"
    case Macro => "MACRO"
    case TableMacro => "TABLE_MACRO"
  }

  function TypeText(t: CatalogType): string {
    "CatalogType::" + Stem(t) + "_ENTRY"
  }

  /** catalog_type_from_type: None where the script raises. */
  function TypeFromText(s: string): Option<CatalogType> {
    if s == TypeText(Scalar) then Some(Scalar)
    else if s == TypeText(Table) then Some(Table)
    else if s == TypeText(Aggregate) then Some(Aggregate)
    else if s == TypeText(Pragma) then Some(Pragma)
    else if s == TypeText(Macro) then Some(Macro)
    else if s == TypeText(TableMacro) then Some(TableMacro)
    else None
  }

  datatype Cell = Quoted(text: string) | TypeName(ctype: CatalogType)

  function CellText(c: Cell): string {
    match c
    case Quoted(text) => text
    case TypeName(t) => TypeText(t)
  }

  function PrintCell(c: Cell): string {
    match c
    case Quoted(text) => "\"" + text + "\""
    case TypeName(t) => TypeText(t)
  }

  function PrintCells(cells: seq<Cell>): string {
    if cells == [] then ""
    else if |cells| == 1 then PrintCell(cells[0])
    else PrintCell(cells[0]) + ", " + PrintCells(cells[1..])
  }

  function PrintRow(cells: seq<Cell>): string {
    "\t{" + PrintCells(cells) + "},\n"
  }

  function PrintRows(rows: seq<seq<Cell>>): string {
    if rows == [] then "" else PrintRow(rows[0]) + PrintRows(rows[1..])
  }

  /** The declaration up to its closing brace and the comment sign. */
  function PrintBody(rows: seq<seq<Cell>>): string {
    "[] = {\n" + PrintRows(rows) + "}; // "
  }

  /** An exported table. */
  function PrintTable(entryType: string, name: string, rows: seq<seq<Cell>>): string {
    "\nstatic constexpr " + entryType + " " + name + PrintBody(rows) + ("END_OF_" + name) + "\n"
  }

  function CellTexts(cells: seq<Cell>): (r: seq<string>)
    ensures |r| == |cells| && forall i :: 0 <= i < |r| ==> r[i] == CellText(cells[i])
  {
    seq(|cells|, i requires 0 <= i < |cells| => CellText(cells[i]))
  }

  function RowTexts(rows: seq<seq<Cell>>): (r: seq<seq<string>>)
    ensures |r| == |rows| && forall i :: 0 <= i < |r| ==> r[i] == CellTexts(rows[i])
  {
    seq(|rows|, i requires 0 <= i < |rows| => CellTexts(rows[i]))
  }

  /** The export loop over the sorted entries. */
  method ExportTable(entryType: string, name: string, rows: seq<seq<Cell>>) returns (result: string)
    ensures result == PrintTable(entryType, name, rows)
  {
    result := "\nstatic constexpr " + entryType + " " + name + "[] = {\n";
    ghost var header := result;
    for i := 0 to |rows|
      invariant result + PrintRows(rows[i..]) == header + PrintRows(rows)
    {
      assert rows[i..][1..] == rows[i + 1..];
      hide PrintRow;
      assert result + PrintRows(rows[i..]) == result + PrintRow(rows[i]) + PrintRows(rows[i + 1..]);
      result := result + PrintRow(rows[i]);
    }
    assert result == header + PrintRows(rows);
    result := result + "}; // END_OF_" + name + "\n";
    PrintTableAssoc(entryType, name, rows);
  }

  lemma PrintTableAssoc(entryType: string, name: string, rows: seq<seq<Cell>>)
    ensures PrintTable(entryType, name, rows) ==
      "\nstatic constexpr " + entryType + " " + name + "[] = {\n" + PrintRows(rows) + "}; // END_OF_" + name + "\n"
  {
    assert "}; // END_OF_" == "}; // " + "END_OF_";
    hide PrintRows;
  }

  // ---------------------------------------------------------------------------
  // Reading back what was printed
  // ---------------------------------------------------------------------------

  predicate Clean(c: Cell) {
    c.Quoted? ==> CleanText(c.text)
  }

  predicate CleanRows(rows: seq<seq<Cell>>) {
    forall i :: 0 <= i < |rows| ==> forall j :: 0 <= j < |rows[i]| ==> Clean(rows[i][j])
  }

  /** A character that means nothing special outside quotes. */
  predicate Plain(c: char) {
    c != '"' && c != '{' && c != '}' && c != ','
  }

  predicate AllPlain(s: string) {
    forall i :: 0 <= i < |s| ==> Plain(s[i])
  }

  /** Inside braces, plain text and quoted text are collected alike. */
  lemma {:induction false} RunCollects(p: Parser, text: string)
    requires p.inBraces && if p.inQuote then NoQuote(text) else AllPlain(text)
    ensures Run(p, text) == p.(item := p.item + text)
    decreases |text|
  {
    if text == "" {
      assert p.item + text == p.item;
    } else {
      RunCollects(Step(p, text[0]), text[1..]);
      assert p.item + [text[0]] + text[1..] == p.item + text;
    }
  }

  /** Outside braces, text without quotes and opening braces is ignored. */
  lemma {:induction false} RunIgnores(p: Parser, text: string)
    requires !p.inBraces && !p.inQuote && forall i :: 0 <= i < |text| ==> text[i] != '"' && text[i] != '{'
    ensures Run(p, text) == p
    decreases |text|
  {
    if text != "" {
      RunIgnores(Step(p, text[0]), text[1..]);
    }
  }

  lemma StemPlain(t: CatalogType)
    ensures AllPlain(Stem(t))
  {}

  lemma TypeTextPlain(t: CatalogType)
    ensures AllPlain(TypeText(t)) && TypeText(t) != "" && TypeText(t)[0] == 'C' && TypeText(t)[|TypeText(t)| - 1] == 'Y'
  {
    StemPlain(t);
    assert AllPlain("CatalogType::") && AllPlain("_ENTRY");
    hide Stem;
  }

  lemma StemsDiffer(t: CatalogType, u: CatalogType)
    requires Stem(t) == Stem(u)
    ensures t == u
  {
    assert Stem(Scalar)[0] == 'S' && Stem(Pragma)[0] == 'P';
  }

  lemma TypeTextsDiffer(t: CatalogType, u: CatalogType)
    requires TypeText(t) == TypeText(u)
    ensures t == u
  {
    hide Stem;
    var n := |"CatalogType::"|;
    assert TypeText(t)[n..|TypeText(t)| - 6] == Stem(t);
    assert TypeText(u)[n..|TypeText(u)| - 6] == Stem(u);
    StemsDiffer(t, u);
  }

  lemma TypeRoundTrip(t: CatalogType)
    ensures TypeFromText(TypeText(t)) == Some(t)
  {
    hide TypeText;
    forall u | TypeText(u) == TypeText(t) ensures u == t {
      TypeTextsDiffer(t, u);
    }
  }

  /** What reading leaves of a cell: its stripped text, or nothing at all. */
  function Kept(c: Cell): (r: seq<string>) {
    if Strip(CellText(c)) == "" then [] else [Strip(CellText(c))]
  }

  function KeptTexts(cells: seq<Cell>): (r: seq<string>) {
    if cells == [] then [] else Kept(cells[0]) + KeptTexts(cells[1..])
  }

  function KeptRows(rows: seq<seq<Cell>>): (r: seq<seq<string>>)
    ensures |r| == |rows| && forall i :: 0 <= i < |r| ==> r[i] == KeptTexts(rows[i])
  {
    seq(|rows|, i requires 0 <= i < |rows| => KeptTexts(rows[i]))
  }

  predicate QuoteFree(c: Cell) {
    NoQuote(CellText(c))
  }

  predicate QuoteFreeRows(rows: seq<seq<Cell>>) {
    forall i :: 0 <= i < |rows| ==> forall j :: 0 <= j < |rows[i]| ==> QuoteFree(rows[i][j])
  }

  lemma TypeTextStrips(t: CatalogType)
    ensures Strip(TypeText(t)) == TypeText(t) != "" && NoQuote(TypeText(t))
  {
    TypeTextPlain(t);
    hide TypeText, Strip;
    SolidStrips(TypeText(t));
  }

  lemma SolidStrips(s: string)
    requires s != "" && !IsSpace(s[0]) && !IsSpace(s[|s| - 1])
    ensures Strip(s) == s
  {
    hide IsSpace;
  }

  /** A clean cell is kept as it is. */
  lemma CleanIsKept(c: Cell)
    requires Clean(c)
    ensures QuoteFree(c) && Kept(c) == [CellText(c)]
  {
    hide Strip, TypeText, NoQuote;
    if c.TypeName? {
      TypeTextStrips(c.ctype);
    }
  }

  lemma {:induction false} CleanCellsKept(cells: seq<Cell>)
    requires forall j :: 0 <= j < |cells| ==> Clean(cells[j])
    ensures KeptTexts(cells) == CellTexts(cells) && forall j :: 0 <= j < |cells| ==> QuoteFree(cells[j])
  {
    hide Clean, QuoteFree, Kept, CellText;
    if cells != [] {
      CleanIsKept(cells[0]);
      CleanCellsKept(cells[1..]);
      assert cells == [cells[0]] + cells[1..];
    }
  }

  lemma CleanRowsKept(rows: seq<seq<Cell>>)
    requires CleanRows(rows)
    ensures KeptRows(rows) == RowTexts(rows) && QuoteFreeRows(rows)
  {
    hide Clean, QuoteFree, KeptTexts, CellTexts;
    forall i | 0 <= i < |rows|
      ensures KeptTexts(rows[i]) == CellTexts(rows[i]) && forall j :: 0 <= j < |rows[i]| ==> QuoteFree(rows[i][j])
    {
      CleanCellsKept(rows[i]);
    }
  }

  predicate AllSpace(s: string) {
    forall i :: 0 <= i < |s| ==> IsSpace(s[i])
  }

  /** Space in front of a text is stripped. */
  lemma {:induction false} SpaceStrips(space: string, s: string)
    requires AllSpace(space)
    ensures LeftStrip(space + s) == LeftStrip(s)
    decreases |space|
  {
    hide IsSpace;
    if space == "" {
      assert space + s == s;
    } else {
      assert (space + s)[1..] == space[1..] + s;
      SpaceStrips(space[1..], s);
    }
  }

  predicate InRecord(p: Parser) {
    p.inBraces && !p.inQuote
  }

  /** A printed cell adds its text to the current item. */
  lemma RunCell(p: Parser, c: Cell)
    requires InRecord(p) && QuoteFree(c)
    ensures Run(p, PrintCell(c)) == p.(item := p.item + CellText(c))
  {
    hide Run, Strip;
    match c
    case TypeName(t) =>
      TypeTextPlain(t);
      RunCollects(p, TypeText(t));
    case Quoted(text) =>
      var q := p.(inQuote := true);
      RunOne(p, '"');
      RunCollects(q, text);
      RunOne(q.(item := p.item + text), '"');
      RunConcat(p, "\"", text);
      RunConcat(p, "\"" + text, "\"");
  }

  /** The parser has just opened a record, or has read a comma and a space. */
  predicate BeforeCell(p: Parser) {
    InRecord(p) && AllSpace(p.item)
  }

  function RecordDone(p: Parser, record: seq<string>): Parser {
    Parser(p.records + [record], [], "", false, false)
  }

  lemma ItemStrips(p: Parser, c: Cell)
    requires BeforeCell(p)
    ensures WithItem(p.record, p.item + CellText(c)) == p.record + Kept(c)
  {
    SpaceStrips(p.item, CellText(c));
    EmptyLast(p.record);
    hide LeftStrip, RightStrip, CellText, AllSpace;
  }

  lemma EmptyLast<T>(s: seq<T>)
    ensures s + [] == s
  {}

  lemma NoItem(p: Parser)
    requires BeforeCell(p)
    ensures WithItem(p.record, p.item) == p.record
  {
    SpaceStrips(p.item, "");
    EmptyLast(p.item);
    assert LeftStrip("") == "" && RightStrip("") == "";
    hide LeftStrip, RightStrip, AllSpace;
  }

  lemma RunClose(p: Parser)
    requires InRecord(p)
    ensures Run(p, "}") == RecordDone(p, WithItem(p.record, p.item))
  {
    hide Run, WithItem;
    RunOne(p, '}');
  }

  /** The brace after a cell closes the record. */
  lemma RunCellThenBrace(p: Parser, c: Cell)
    requires BeforeCell(p) && QuoteFree(c)
    ensures Run(p, PrintCell(c) + "}") == RecordDone(p, p.record + Kept(c))
  {
    RunCell(p, c);
    ItemStrips(p, c);
    hide PrintCell, CellText, Run, WithItem, QuoteFree, Kept, AllSpace, Step;
    RunConcat(p, PrintCell(c), "}");
    RunClose(p.(item := p.item + CellText(c)));
  }

  /** A comma and a space end the item and start the next one. */
  lemma RunComma(p: Parser)
    requires InRecord(p)
    ensures Run(p, ", ") == p.(record := WithItem(p.record, p.item), item := " ")
  {
    hide Run, WithItem;
    RunOne(p, ',');
    var next := p.(record := WithItem(p.record, p.item), item := "");
    assert Step(p, ',') == next;
    RunOne(next, ' ');
    RunConcat(p, [','], [' ']);
    assert [','] + [' '] == ", ";
  }

  /** The comma after a cell makes it an item. */
  lemma RunCellThenComma(p: Parser, c: Cell)
    requires BeforeCell(p) && QuoteFree(c)
    ensures Run(p, PrintCell(c) + ", ") == p.(record := p.record + Kept(c), item := " ")
  {
    RunCell(p, c);
    ItemStrips(p, c);
    hide PrintCell, CellText, Run, WithItem, QuoteFree, Kept, AllSpace;
    RunConcat(p, PrintCell(c), ", ");
    RunComma(p.(item := p.item + CellText(c)));
  }

  lemma PrintCellsNext(cells: seq<Cell>)
    requires |cells| > 1
    ensures PrintCells(cells) + "}" == PrintCell(cells[0]) + ", " + (PrintCells(cells[1..]) + "}")
  {
    hide PrintCell;
  }

  lemma SpaceOnly()
    ensures AllSpace(" ") && AllSpace("\n")
  {}

  lemma RunFirstCell(p: Parser, cells: seq<Cell>)
    requires BeforeCell(p) && |cells| > 1 && QuoteFree(cells[0])
    ensures var next := p.(record := p.record + Kept(cells[0]), item := " ");
      BeforeCell(next) && Run(p, PrintCells(cells) + "}") == Run(next, PrintCells(cells[1..]) + "}")
  {
    PrintCellsNext(cells);
    RunCellThenComma(p, cells[0]);
    SpaceOnly();
    hide PrintCells, QuoteFree, PrintCell, Kept, Run, AllSpace;
    RunConcat(p, PrintCell(cells[0]) + ", ", PrintCells(cells[1..]) + "}");
  }

  /** Printed cells and a closing brace complete the record. */
  lemma {:induction false} RunCells(p: Parser, cells: seq<Cell>)
    requires BeforeCell(p) && forall j :: 0 <= j < |cells| ==> QuoteFree(cells[j])
    ensures Run(p, PrintCells(cells) + "}") == RecordDone(p, p.record + KeptTexts(cells))
    decreases |cells|
  {
    hide QuoteFree, PrintCell, Kept, Run, BeforeCell;
    if cells == [] {
      RunNoCells(p);
    } else {
      KeptFirst(cells);
      if |cells| == 1 {
        RunCellThenBrace(p, cells[0]);
      } else {
        RunFirstCell(p, cells);
        RunCells(p.(record := p.record + Kept(cells[0]), item := " "), cells[1..]);
        hide PrintCells, KeptTexts;
        ConcatAssoc(p.record, Kept(cells[0]), KeptTexts(cells[1..]));
      }
    }
  }

  lemma KeptFirst(cells: seq<Cell>)
    requires cells != []
    ensures KeptTexts(cells) == Kept(cells[0]) + KeptTexts(cells[1..])
    ensures |cells| == 1 ==> KeptTexts(cells) == Kept(cells[0])
  {
    hide Kept;
    if |cells| == 1 {
      assert KeptTexts(cells[1..]) == [];
      EmptyLast(Kept(cells[0]));
    }
  }

  lemma NoCells()
    ensures PrintCells([]) + "}" == "}" && KeptTexts([]) == []
  {}

  lemma RunNoCells(p: Parser)
    requires BeforeCell(p)
    ensures Run(p, PrintCells([]) + "}") == RecordDone(p, p.record + KeptTexts([]))
  {
    NoItem(p);
    RunClose(p);
    NoCells();
    EmptyLast(p.record);
    hide Run, Step, WithItem, PrintCells, KeptTexts, AllSpace;
  }

  /**
   A printed row without quotes in its texts yields one record with the stripped texts, whatever was collected
   before it.
   */
  lemma RunRow(p: Parser, cells: seq<Cell>)
    requires !p.inQuote && forall j :: 0 <= j < |cells| ==> QuoteFree(cells[j])
    ensures Run(p, PrintRow(cells)) == Parser(p.records + [KeptTexts(cells)], [], "", false, false)
  {
    hide QuoteFree, PrintCells, Run, Strip, KeptTexts, IsSpace;
    var q := Parser(p.records, [], "", false, true);
    RunOpen(p);
    RunCells(q, cells);
    assert [] + KeptTexts(cells) == KeptTexts(cells);
    var r := Parser(p.records + [KeptTexts(cells)], [], "", false, false);
    RunIgnores(r, ",\n");
    assert PrintRow(cells) == "\t{" + (PrintCells(cells) + "}") + ",\n";
    RunConcat(p, "\t{", PrintCells(cells) + "}");
    RunConcat(p, "\t{" + (PrintCells(cells) + "}"), ",\n");
  }

  lemma RunOpen(p: Parser)
    requires !p.inQuote
    ensures Run(p, "\t{") == Parser(p.records, [], "", false, true)
  {
    RunConcat(p, "\t", "{");
    assert "\t" + "{" == "\t{";
    RunOne(p, '\t');
    RunOne(Step(p, '\t'), '{');
  }

  lemma KeptRowsFirst(rows: seq<seq<Cell>>)
    requires rows != []
    ensures KeptRows(rows) == [KeptTexts(rows[0])] + KeptRows(rows[1..])
  {
    hide KeptTexts;
  }

  lemma QuoteFreeRest(rows: seq<seq<Cell>>)
    requires QuoteFreeRows(rows) && rows != []
    ensures QuoteFreeRows(rows[1..]) && forall j :: 0 <= j < |rows[0]| ==> QuoteFree(rows[0][j])
  {
    hide QuoteFree;
  }

  lemma ConcatAssoc<T>(a: seq<T>, b: seq<T>, c: seq<T>)
    ensures a + b + c == a + (b + c)
  {}

  lemma {:induction false} RunRows(p: Parser, rows: seq<seq<Cell>>)
    requires !p.inQuote && QuoteFreeRows(rows) && rows != []
    ensures Run(p, PrintRows(rows)) == Parser(p.records + KeptRows(rows), [], "", false, false)
    decreases |rows|
  {
    QuoteFreeRest(rows);
    RunRow(p, rows[0]);
    hide QuoteFree, QuoteFreeRows, PrintRow, Run, KeptTexts, KeptRows;
    var q := Parser(p.records + [KeptTexts(rows[0])], [], "", false, false);
    RunConcat(p, PrintRow(rows[0]), PrintRows(rows[1..]));
    KeptRowsFirst(rows);
    ConcatAssoc(p.records, [KeptTexts(rows[0])], KeptRows(rows[1..]));
    if |rows| == 1 {
      NoRows(q);
      EmptyLast([KeptTexts(rows[0])]);
    } else {
      RunRows(q, rows[1..]);
    }
  }

  lemma NoRows(p: Parser)
    ensures Run(p, PrintRows([])) == p && KeptRows([]) == []
  {}

  /** What the parser is given: the table's name, which it ignores, and the printed body. */
  lemma RunSlice(name: string, rows: seq<seq<Cell>>)
    requires AllPlain(name)
    ensures ParseRecords(name + PrintBody(rows)) == RowTexts(rows) <==> rows != [] && CleanRows(rows)
  {
    RunClean(START, name + PrintBody(rows));
    if ParseRecords(name + PrintBody(rows)) == RowTexts(rows) {
      hide ParseRecords, PrintBody;
      CleanTextsOnly(rows);
    }
    if rows == [] {
      EmptyTable(name);
    } else if CleanRows(rows) {
      CleanRowsKept(rows);
      SliceRead(name, rows);
    }
  }

  lemma CleanTextsOnly(rows: seq<seq<Cell>>)
    requires CleanRecords(RowTexts(rows))
    ensures CleanRows(rows)
  {
    forall i | 0 <= i < |rows| ensures forall j :: 0 <= j < |rows[i]| ==> Clean(rows[i][j]) {
      assert CleanRecord(RowTexts(rows)[i]);
      forall j | 0 <= j < |rows[i]| ensures Clean(rows[i][j]) {
        assert CleanText(CellTexts(rows[i])[j]);
      }
    }
  }

  /** A table without rows is read back as one record without items. */
  lemma EmptyTable(name: string)
    requires AllPlain(name)
    ensures ParseRecords(name + PrintBody([])) == [[]]
  {
    var p := Parser([], [], "\n", false, true);
    RunHeader(name);
    RunTrailer(p);
    SpaceOnly();
    NoItem(p);
    EmptyBody(name);
    hide Run, AllSpace, WithItem, PrintBody;
    RunConcat(START, name + "[] = {\n", "}; // ");
  }

  lemma EmptyBody(name: string)
    ensures name + PrintBody([]) == (name + "[] = {\n") + "}; // "
  {}

  /** The closing brace of a table whose opening brace is still open closes a record. */
  lemma RunTrailer(p: Parser)
    requires InRecord(p)
    ensures Run(p, "}; // ") == RecordDone(p, WithItem(p.record, p.item))
  {
    hide Run, WithItem;
    RunOne(p, '}');
    RunIgnores(RecordDone(p, WithItem(p.record, p.item)), "; // ");
    RunConcat(p, ['}'], "; // ");
    assert ['}'] + "; // " == "}; // ";
  }

  lemma RunHeader(name: string)
    requires AllPlain(name)
    ensures Run(START, name + "[] = {\n") == Parser([], [], "\n", false, true)
  {
    assert name + "[] = {\n" == (name + "[] = ") + "{" + "\n";
    hide Run;
    RunIgnores(START, name + "[] = ");
    RunConcat(START, name + "[] = ", "{");
    RunConcat(START, (name + "[] = ") + "{", "\n");
    RunOne(START, '{');
    RunOne(Step(START, '{'), '\n');
  }

  lemma RunEnd(p: Parser)
    requires !p.inBraces && !p.inQuote
    ensures Run(p, "}; // ") == p
  {
    hide Run;
    RunIgnores(p, "}; // ");
  }

  lemma Regroup(name: string, a: string, b: string, c: string)
    ensures name + (a + b + c) == ((name + a) + b) + c
  {}

  /** As long as no text contains a quote, reading strips every text and drops what is then empty. */
  lemma SliceRead(name: string, rows: seq<seq<Cell>>)
    requires AllPlain(name) && rows != [] && QuoteFreeRows(rows)
    ensures ParseRecords(name + PrintBody(rows)) == KeptRows(rows)
  {
    hide PrintRows, QuoteFreeRows, Run, KeptRows, Step, AllPlain;
    var header, body := name + "[] = {\n", PrintRows(rows);
    Regroup(name, "[] = {\n", body, "}; // ");
    var p := Parser([], [], "\n", false, true);
    RunHeader(name);
    RunRows(p, rows);
    assert [] + KeptRows(rows) == KeptRows(rows);
    var q := Parser(KeptRows(rows), [], "", false, false);
    RunEnd(q);
    RunConcat(START, header, body);
    RunConcat(START, header + body, "}; // ");
  }
}
