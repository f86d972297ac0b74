/** The maps of extension entries: what is exported for them, and what is rebuilt from the header. */
module ExtensionTableEntries {
  import opened Wrappers
  import opened Text
  import opened ExtensionTable
  import opened ExtensionTableMaps

  datatype Function = Function(name: string, ctype: CatalogType)

  datatype ExtensionFunction = ExtensionFunction(extension: string, name: string, ctype: CatalogType)

  /** A record has too few items, a signature has no return type, or a type is not known. */
  datatype ReadError = IndexOutOfRange | UnrecognizedType

  // ---------------------------------------------------------------------------
  // Functions
  // ---------------------------------------------------------------------------

  type FunctionMap = map<Function, ExtensionFunction>

  /** The key of an entry is part of the entry. */
  predicate Keyed(m: FunctionMap) {
    forall f <- m :: m[f].name == f.name && m[f].ctype == f.ctype
  }

  function FunctionRow(e: ExtensionFunction): seq<Cell> {
    [Quoted(e.name), Quoted(e.extension), TypeName(e.ctype)]
  }

  /** The rows of export_functions, for an enumeration of the keys. */
  function FunctionRows(m: FunctionMap, order: seq<Function>): (rows: seq<seq<Cell>>)
    requires forall f <- order :: f in m
    ensures |rows| == |order| && forall i :: 0 <= i < |order| ==> rows[i] == FunctionRow(m[order[i]])
  {
    seq(|order|, i requires 0 <= i < |order| => FunctionRow(m[order[i]]))
  }

  function ReadFunction(record: seq<string>): Result<ExtensionFunction, ReadError> {
    if |record| < 3 then Err(IndexOutOfRange)
    else
      match TypeFromText(record[2])
      case None => Err(UnrecognizedType)
      case Some(t) => Ok(ExtensionFunction(record[1], record[0], t))
  }

  function CreateFunctionMap(records: seq<seq<string>>): Result<FunctionMap, ReadError> {
    if records == [] then Ok(map[])
    else
      var n := |records| - 1;
      match CreateFunctionMap(records[..n])
      case Err(e) => Err(e)
      case Ok(m) =>
        match ReadFunction(records[n])
        case Err(e) => Err(e)
        case Ok(f) => Ok(m[Function(f.name, f.ctype) := f])
  }

  /** ExtensionFunction.create_map. */
  method CreateMap(records: seq<seq<string>>) returns (output: Result<FunctionMap, ReadError>)
    ensures output == CreateFunctionMap(records)
  {
    assert records[..|records|] == records;
    var entries: FunctionMap := map[];
    for i := 0 to |records|
      invariant CreateFunctionMap(records[..i]) == Ok(entries)
    {
      assert records[..i + 1][..i] == records[..i];
      var f := ReadFunction(records[i]);
      if f.Err? {
        FirstErrorStays(records, i + 1);
        return Err(f.error);
      }
      entries := entries[Function(f.value.name, f.value.ctype) := f.value];
    }
    return Ok(entries);
  }

  lemma {:induction false} FirstErrorStays(records: seq<seq<string>>, n: nat)
    requires n <= |records| && CreateFunctionMap(records[..n]).Err?
    ensures CreateFunctionMap(records) == CreateFunctionMap(records[..n])
    decreases |records| - n
  {
    if n == |records| {
      assert records[..n] == records;
    } else {
      assert records[..n + 1][..n] == records[..n];
      FirstErrorStays(records, n + 1);
    }
  }

  lemma RowReads(e: ExtensionFunction)
    ensures ReadFunction(CellTexts(FunctionRow(e))) == Ok(e)
  {
    TypeRoundTrip(e.ctype);
    hide TypeText, TypeFromText;
    var texts := CellTexts(FunctionRow(e));
    assert texts[0] == e.name && texts[1] == e.extension && texts[2] == TypeText(e.ctype);
  }

  /** The entries of the listed keys. */
  function Picked<V>(m: map<Function, V>, order: seq<Function>): map<Function, V>
    requires forall f <- order :: f in m
  {
    map f | f in order :: m[f]
  }

  lemma PickedAll<V>(m: map<Function, V>, order: seq<Function>)
    requires forall f :: f in order <==> f in m
    ensures Picked(m, order) == m
  {}

  lemma PickedLast<V>(m: map<Function, V>, order: seq<Function>)
    requires order != [] && forall f <- order :: f in m
    ensures var n := |order| - 1; Picked(m, order) == Picked(m, order[..n])[order[n] := m[order[n]]]
  {
    assert order == order[..|order| - 1] + [order[|order| - 1]];
  }

  /** Whatever the order in which the keys are enumerated, the rebuilt map is the exported one. */
  lemma {:induction false} MapFromRows(m: FunctionMap, order: seq<Function>)
    requires Keyed(m) && forall f <- order :: f in m
    ensures CreateFunctionMap(RowTexts(FunctionRows(m, order))) == Ok(Picked(m, order))
  {
    if order != [] {
      var n := |order| - 1;
      MapFromRows(m, order[..n]);
      RowReads(m[order[n]]);
      RowsPrefix(m, order);
      PickedLast(m, order);
      hide ReadFunction, RowTexts, FunctionRows, Picked, FunctionRow, CellTexts;
    }
  }

  lemma RowsPrefix(m: FunctionMap, order: seq<Function>)
    requires order != [] && forall f <- order :: f in m
    ensures
      var n := |order| - 1;
      var texts := RowTexts(FunctionRows(m, order));
      |texts| == n + 1 && texts[..n] == RowTexts(FunctionRows(m, order[..n])) &&
      texts[n] == CellTexts(FunctionRow(m[order[n]]))
  {
    hide FunctionRow, CellTexts;
  }

  predicate CleanEntries(m: FunctionMap) {
    forall f <- m :: CleanText(m[f].name) && CleanText(m[f].extension)
  }

  /** An entry that was read has its texts from a record. */
  lemma {:induction false} ReadEntriesClean(records: seq<seq<string>>)
    requires CleanRecords(records) && CreateFunctionMap(records).Ok?
    ensures CleanEntries(CreateFunctionMap(records).value)
  {
    hide CleanText, TypeFromText;
    if records != [] {
      var n := |records| - 1;
      assert forall r <- records[..n] :: r in records;
      ReadEntriesClean(records[..n]);
      var r := records[n];
      assert CleanRecord(r);
      assert r[0] in r && r[1] in r;
    }
  }

  /** What the header reader makes of the table with the given name. */
  function ReadFunctions(name: string, header: string): Result<FunctionMap, ReadError> {
    CreateFunctionMap(ParseRecords(GetSliceOfFile(name, header)))
  }

  lemma RowsClean(m: FunctionMap, order: seq<Function>)
    requires forall f :: f in order <==> f in m
    ensures CleanRows(FunctionRows(m, order)) <==> CleanEntries(m)
  {
    hide CleanText;
    var rows := FunctionRows(m, order);
    if CleanRows(rows) {
      forall f <- m ensures CleanText(m[f].name) && CleanText(m[f].extension) {
        var i :| 0 <= i < |order| && order[i] == f;
        assert Clean(rows[i][0]) && Clean(rows[i][1]);
      }
    }
  }

  /**
   Reading the generated header gives back the exported function map exactly if the map is not empty and all
   names in it are nonempty, trimmed and free of quotes.
   */
  lemma FunctionsRoundTrip(
    pre: string, entryType: string, name: string, m: FunctionMap, order: seq<Function>, post: string)
    requires Keyed(m) && forall f :: f in order <==> f in m
    requires Marked(pre, entryType, name, FunctionRows(m, order))
    ensures var header := pre + PrintTable(entryType, name, FunctionRows(m, order)) + post;
      ReadFunctions(name, header) == Ok(m) <==> m != map[] && CleanEntries(m)
  {
    SliceOfTable(pre, entryType, name, FunctionRows(m, order), post);
    RecordsRoundTrip(name, m, order);
    hide ParseRecords, PrintBody, GetSliceOfFile, PrintTable, CleanEntries, FunctionRows, CreateFunctionMap;
  }

  lemma RecordsRoundTrip(name: string, m: FunctionMap, order: seq<Function>)
    requires IsName(name) && Keyed(m) && forall f :: f in order <==> f in m
    ensures CreateFunctionMap(ParseRecords(name + PrintBody(FunctionRows(m, order)))) == Ok(m) <==>
      m != map[] && CleanEntries(m)
  {
    NameIsPlain(name);
    if order == [] {
      EmptyTable(name);
      EmptyRecordFails();
      NoRowsNoEntries(m, order);
    } else {
      assert order[0] in m;
      RowsClean(m, order);
      MapFromRows(m, order);
      PickedAll(m, order);
      ReadFunctionsClean(name + PrintBody(FunctionRows(m, order)));
      RunSlice(name, FunctionRows(m, order));
      hide ParseRecords, PrintBody, CleanRows, CleanEntries, CreateFunctionMap, Keyed, RowTexts, Picked;
    }
  }

  lemma NoRowsNoEntries(m: FunctionMap, order: seq<Function>)
    requires order == [] && forall f :: f in order <==> f in m
    ensures m == map[] && FunctionRows(m, order) == []
  {}

  lemma ReadFunctionsClean(text: string)
    ensures CreateFunctionMap(ParseRecords(text)).Ok? ==> CleanEntries(CreateFunctionMap(ParseRecords(text)).value)
  {
    RunClean(START, text);
    hide Run, CleanText, CreateFunctionMap;
    assert CleanRecords(ParseRecords(text));
    if CreateFunctionMap(ParseRecords(text)).Ok? {
      ReadEntriesClean(ParseRecords(text));
    }
  }

  /** The record that an empty table is read as has no name. */
  lemma EmptyRecordFails()
    ensures CreateFunctionMap([[]]) == Err(IndexOutOfRange)
  {
    var records: seq<seq<string>> := [[]];
    assert records[..0] == [];
  }

  // ---------------------------------------------------------------------------
  // Signatures
  // ---------------------------------------------------------------------------

  /** str.split at a character. */
  function Split(s: string, c: char): (parts: seq<string>)
    ensures |parts| >= 1
    ensures forall i :: 0 <= i < |parts| ==> c !in parts[i]
    ensures forall i :: 0 <= i < |parts| ==> forall x <- parts[i] :: x in s
  {
    if s == "" then [""]
    else
      var rest := Split(s[1..], c);
      if s[0] == c then [""] + rest else [[s[0]] + rest[0]] + rest[1..]
  }

  function Join(parts: seq<string>, c: char): string {
    if parts == [] then "" else if |parts| == 1 then parts[0] else parts[0] + [c] + Join(parts[1..], c)
  }

  lemma {:induction false} SplitWhole(s: string, c: char)
    requires c !in s
    ensures Split(s, c) == [s]
  {
    if s != "" {
      SplitWhole(s[1..], c);
      assert [s[0]] + s[1..] == s;
    }
  }

  lemma {:induction false} SplitFirst(a: string, c: char, b: string)
    requires c !in a
    ensures Split(a + [c] + b, c) == [a] + Split(b, c)
    decreases |a|
  {
    if a == "" {
      assert (a + [c] + b)[1..] == b;
    } else {
      SplitFirst(a[1..], c, b);
      assert (a + [c] + b)[1..] == a[1..] + [c] + b;
      assert [a[0]] + a[1..] == a;
    }
  }

  lemma {:induction false} SplitJoin(parts: seq<string>, c: char)
    requires parts != [] && forall p <- parts :: c !in p
    ensures Split(Join(parts, c), c) == parts
  {
    if |parts| == 1 {
      SplitWhole(parts[0], c);
    } else {
      SplitJoin(parts[1..], c);
      SplitFirst(parts[0], c, Join(parts[1..], c));
      hide Split;
      assert parts == [parts[0]] + parts[1..];
    }
  }

  lemma {:induction false} JoinChars(parts: seq<string>, c: char, d: char)
    requires c != d && forall p <- parts :: d !in p
    ensures d !in Join(parts, c)
  {
    if |parts| > 1 {
      JoinChars(parts[1..], c, d);
    }
  }

  function Signature(parameters: seq<string>, returnType: string): string {
    "[" + Join(parameters, ',') + "]" + ['>'] + returnType
  }

  function ReadSignature(signature: string): Result<(seq<string>, string), ReadError> {
    var splits := Split(signature, '>');
    if |splits| < 2 then Err(IndexOutOfRange) else Ok((Split(PySlice(splits[0], 1, -1), ','), splits[1]))
  }

  predicate PlainSignature(parameters: seq<string>, returnType: string) {
    parameters != [] && (forall p <- parameters :: ',' !in p && '>' !in p) && '>' !in returnType
  }

  lemma PlainSignatureReads(parameters: seq<string>, returnType: string)
    requires PlainSignature(parameters, returnType)
    ensures ReadSignature(Signature(parameters, returnType)) == Ok((parameters, returnType))
  {
    var joined := Join(parameters, ',');
    JoinChars(parameters, ',', '>');
    var list := "[" + joined + "]";
    assert '>' !in list;
    SplitFirst(list, '>', returnType);
    SplitWhole(returnType, '>');
    SplitJoin(parameters, ',');
    hide Split, Join;
    assert PySlice(list, 1, -1) == joined;
  }

  /**
   A signature is read back as it was written exactly if there is a parameter, no parameter type contains a
   comma or '>', and the return type contains no '>'.
   */
  lemma SignatureRoundTrip(parameters: seq<string>, returnType: string)
    ensures ReadSignature(Signature(parameters, returnType)) == Ok((parameters, returnType)) <==>
      PlainSignature(parameters, returnType)
  {
    if PlainSignature(parameters, returnType) {
      PlainSignatureReads(parameters, returnType);
    } else {
      hide Join, Signature;
      var signature := Signature(parameters, returnType);
      if ReadSignature(signature) == Ok((parameters, returnType)) {
        ReadIsPlain(signature);
      }
    }
  }

  /** What is read from a signature is plain, and has no character that the signature does not have. */
  lemma ReadIsPlain(signature: string)
    requires ReadSignature(signature).Ok?
    ensures var (parameters, returnType) := ReadSignature(signature).value;
      && PlainSignature(parameters, returnType)
      && (forall x <- returnType :: x in signature)
      && (forall p <- parameters :: forall x <- p :: x in signature)
  {
    var splits := Split(signature, '>');
    var list := PySlice(splits[0], 1, -1);
    var parts := Split(list, ',');
    hide Split;
    forall p <- parts ensures ',' !in p && '>' !in p && forall x <- p :: x in signature {
      var i :| 0 <= i < |parts| && parts[i] == p;
      assert forall x <- p :: x in list;
      assert forall x <- list :: x in splits[0];
    }
  }

  lemma InNoQuote(s: string)
    ensures NoQuote(s) <==> '"' !in s
  {}

  /** A signature made of parts without quotes has none. */
  lemma SignatureNoQuote(parameters: seq<string>, returnType: string)
    requires '"' !in returnType && forall p <- parameters :: '"' !in p
    ensures NoQuote(Signature(parameters, returnType))
  {
    JoinChars(parameters, ',', '"');
    InNoQuote(Signature(parameters, returnType));
    hide Join, NoQuote;
  }

  lemma ReadNoQuote(signature: string)
    requires ReadSignature(signature).Ok? && NoQuote(signature)
    ensures var (parameters, returnType) := ReadSignature(signature).value;
      NoQuote(Signature(parameters, returnType))
  {
    InNoQuote(signature);
    ReadIsPlain(signature);
    var (parameters, returnType) := ReadSignature(signature).value;
    hide ReadSignature, Signature, NoQuote, PlainSignature;
    SignatureNoQuote(parameters, returnType);
  }

  lemma {:induction false} RightStripSuffix(prefix: string, s: string)
    requires prefix != "" && !IsSpace(prefix[|prefix| - 1])
    ensures RightStrip(prefix + s) == prefix + RightStrip(s)
    decreases |s|
  {
    hide IsSpace;
    var n := |s| - 1;
    if s == "" {
      assert prefix + s == prefix;
    } else if IsSpace(s[n]) {
      assert (prefix + s)[..|prefix + s| - 1] == prefix + s[..n];
      RightStripSuffix(prefix, s[..n]);
    }
  }

  /** Stripping a signature takes the white space off the end of the return type, and nothing else. */
  lemma SignatureStrips(parameters: seq<string>, returnType: string)
    ensures Strip(Signature(parameters, returnType)) == Signature(parameters, RightStrip(returnType))
  {
    var prefix := "[" + Join(parameters, ',') + "]" + ['>'];
    var s := Signature(parameters, returnType);
    assert s[0] == '[' && prefix[|prefix| - 1] == '>';
    hide Join, Signature;
    assert LeftStrip(s) == s;
    assert !IsSpace(prefix[|prefix| - 1]);
    hide IsSpace, LeftStrip, RightStrip;
    RightStripSuffix(prefix, returnType);
    assert Signature(parameters, returnType) == prefix + returnType;
    assert Signature(parameters, RightStrip(returnType)) == prefix + RightStrip(returnType);
  }

  // ---------------------------------------------------------------------------
  // Overloads
  // ---------------------------------------------------------------------------

  datatype Overload = Overload(extension: string, name: string, ctype: CatalogType, parameters: seq<string>, returnType: string)
  {
    function Key(): Function {
      Function(name, ctype)
    }
  }

  type OverloadMap = map<Function, seq<Overload>>

  function OverloadRow(o: Overload): seq<Cell> {
    [Quoted(o.name), Quoted(o.extension), TypeName(o.ctype), Quoted(Signature(o.parameters, o.returnType))]
  }

  function OverloadRows(os: seq<Overload>): (rows: seq<seq<Cell>>)
    ensures |rows| == |os| && forall i :: 0 <= i < |os| ==> rows[i] == OverloadRow(os[i])
  {
    seq(|os|, i requires 0 <= i < |os| => OverloadRow(os[i]))
  }

  function ReadOverload(record: seq<string>): Result<Overload, ReadError> {
    if |record| < 4 then Err(IndexOutOfRange)
    else
      match TypeFromText(record[2])
      case None => Err(UnrecognizedType)
      case Some(t) =>
        match ReadSignature(record[3])
        case Err(e) => Err(e)
        case Ok(s) => Ok(Overload(record[1], record[0], t, s.0, s.1))
  }

  function AddOverload(m: OverloadMap, o: Overload): OverloadMap {
    m[o.Key() := (if o.Key() in m then m[o.Key()] else []) + [o]]
  }

  function CreateOverloadMap(records: seq<seq<string>>): Result<OverloadMap, ReadError> {
    if records == [] then Ok(map[])
    else
      var n := |records| - 1;
      match CreateOverloadMap(records[..n])
      case Err(e) => Err(e)
      case Ok(m) =>
        match ReadOverload(records[n])
        case Err(e) => Err(e)
        case Ok(o) => Ok(AddOverload(m, o))
  }

  /** The overloads of the keys, in the order in which they are written. */
  function Listed(m: OverloadMap, order: seq<Function>): seq<Overload>
    requires forall f <- order :: f in m
  {
    if order == [] then [] else Listed(m, order[..|order| - 1]) + m[order[|order| - 1]]
  }

  /** Every list is nonempty and holds overloads of its key. */
  predicate OverloadsKeyed(m: OverloadMap) {
    forall f <- m :: m[f] != [] && forall o <- m[f] :: o.Key() == f
  }

  predicate ReadableOverload(o: Overload) {
    && CleanText(o.name) && CleanText(o.extension) && CleanText(Signature(o.parameters, o.returnType))
    && PlainSignature(o.parameters, o.returnType)
  }

  predicate AllReadable(os: seq<Overload>) {
    forall i :: 0 <= i < |os| ==> ReadableOverload(os[i])
  }

  /** What survives printing: words in the names, no quotes, and a signature that can be taken apart. */
  predicate Legible(o: Overload) {
    && CleanText(o.name) && CleanText(o.extension)
    && NoQuote(Signature(o.parameters, o.returnType)) && PlainSignature(o.parameters, o.returnType)
  }

  predicate AllLegible(os: seq<Overload>) {
    forall i :: 0 <= i < |os| ==> Legible(os[i])
  }

  /** The return type is the last text of its cell, so white space at its end is lost. */
  function Trimmed(o: Overload): (r: Overload)
    ensures r.Key() == o.Key()
  {
    o.(returnType := RightStrip(o.returnType))
  }

  function TrimmedAll(os: seq<Overload>): (r: seq<Overload>)
    ensures |r| == |os| && forall i :: 0 <= i < |os| ==> r[i] == Trimmed(os[i])
  {
    seq(|os|, i requires 0 <= i < |os| => Trimmed(os[i]))
  }

  lemma ReadableMeaning(o: Overload)
    ensures ReadableOverload(o) <==> Legible(o) && Trimmed(o) == o
  {
    var stripped := Signature(o.parameters, RightStrip(o.returnType));
    SignatureStrips(o.parameters, o.returnType);
    SameSignature(o.parameters, o.returnType, RightStrip(o.returnType));
    assert Signature(o.parameters, o.returnType) != "" by { hide Join; }
    hide Signature, Strip, RightStrip, NoQuote, PlainSignature;
  }

  lemma SameSignature(parameters: seq<string>, a: string, b: string)
    requires |b| <= |a| && a[..|b|] == b
    ensures Signature(parameters, a) == Signature(parameters, b) ==> a == b
  {
    hide Join;
    assert |Signature(parameters, a)| - |a| == |Signature(parameters, b)| - |b|;
  }

  lemma TrimmedPlain(o: Overload)
    requires PlainSignature(o.parameters, o.returnType)
    ensures PlainSignature(o.parameters, RightStrip(o.returnType))
  {
    var r := RightStrip(o.returnType);
    assert forall x <- r :: x in o.returnType[..|r|];
    hide RightStrip;
  }

  lemma OverloadKept(o: Overload)
    requires Legible(o)
    ensures KeptTexts(OverloadRow(o)) == [o.name, o.extension, TypeText(o.ctype), Signature(o.parameters, RightStrip(o.returnType))]
  {
    hide Kept, CleanText, NoQuote, PlainSignature, QuoteFree, TypeText, Signature, KeptTexts, RightStrip;
    var row := OverloadRow(o);
    CleanIsKept(row[0]);
    CleanIsKept(row[1]);
    CleanIsKept(row[2]);
    SignatureKept(o);
    FourKept(row, o.name, o.extension, TypeText(o.ctype), Signature(o.parameters, RightStrip(o.returnType)));
  }

  lemma OverloadQuoteFree(o: Overload)
    requires Legible(o)
    ensures forall j :: 0 <= j < |OverloadRow(o)| ==> QuoteFree(OverloadRow(o)[j])
  {
    hide NoQuote, PlainSignature, TypeText, Signature, Strip;
    TypeTextStrips(o.ctype);
  }

  lemma SignatureKept(o: Overload)
    ensures Kept(Quoted(Signature(o.parameters, o.returnType))) == [Signature(o.parameters, RightStrip(o.returnType))]
  {
    SignatureStrips(o.parameters, o.returnType);
    assert Signature(o.parameters, RightStrip(o.returnType)) != "" by { hide Join; }
    hide Signature, Strip;
  }

  lemma FourKept(row: seq<Cell>, a: string, b: string, c: string, d: string)
    requires |row| == 4 && Kept(row[0]) == [a] && Kept(row[1]) == [b] && Kept(row[2]) == [c] && Kept(row[3]) == [d]
    ensures KeptTexts(row) == [a, b, c, d]
  {
    hide Kept;
    assert row[1..][1..] == row[2..] && row[2..][1..] == row[3..] && row[3..][1..] == [];
    assert KeptTexts(row[3..]) == [d];
    assert KeptTexts(row[2..]) == [c, d];
    assert KeptTexts(row[1..]) == [b, c, d];
  }

  lemma TextsRead(a: string, b: string, t: CatalogType, parameters: seq<string>, returnType: string)
    requires PlainSignature(parameters, returnType)
    ensures ReadOverload([a, b, TypeText(t), Signature(parameters, returnType)]) ==
      Ok(Overload(b, a, t, parameters, returnType))
  {
    hide TypeText, TypeFromText, Signature, ReadSignature, PlainSignature;
    TypeRoundTrip(t);
    SignatureRoundTrip(parameters, returnType);
  }

  /** A legible overload is read back up to the white space at the end of its return type. */
  lemma OverloadReads(o: Overload)
    requires Legible(o)
    ensures ReadOverload(KeptTexts(OverloadRow(o))) == Ok(Trimmed(o))
  {
    hide KeptTexts, OverloadRow, TypeText, ReadOverload, Signature, PlainSignature, RightStrip, CleanText, NoQuote, QuoteFree;
    OverloadKept(o);
    TrimmedPlain(o);
    TextsRead(o.name, o.extension, o.ctype, o.parameters, RightStrip(o.returnType));
  }

  /** What reading overloads one by one collects. */
  function Grouped(os: seq<Overload>): OverloadMap {
    if os == [] then map[] else AddOverload(Grouped(os[..|os| - 1]), os[|os| - 1])
  }

  lemma {:induction false} OverloadsFromRows(os: seq<Overload>)
    requires AllLegible(os)
    ensures CreateOverloadMap(KeptRows(OverloadRows(os))) == Ok(Grouped(TrimmedAll(os)))
  {
    hide Legible, AddOverload, Trimmed, ReadOverload, KeptRows, OverloadRows, OverloadRow, KeptTexts, TrimmedAll, CreateOverloadMap,
      Grouped;
    if os == [] {
      NothingRead(os);
    } else {
      var n := |os| - 1;
      TrimmedPrefix(os);
      OverloadsFromRows(os[..n]);
      OverloadReads(os[n]);
      OverloadRowsPrefix(os);
      CreateLast(KeptRows(OverloadRows(os)), Trimmed(os[n]));
      GroupedLast(TrimmedAll(os[..n]), Trimmed(os[n]));
    }
  }

  lemma NothingRead(os: seq<Overload>)
    requires os == []
    ensures CreateOverloadMap(KeptRows(OverloadRows(os))) == Ok(Grouped(TrimmedAll(os)))
  {}

  lemma TrimmedPrefix(os: seq<Overload>)
    requires os != []
    ensures TrimmedAll(os) == TrimmedAll(os[..|os| - 1]) + [Trimmed(os[|os| - 1])]
  {
    hide Trimmed;
  }

  lemma CreateLast(records: seq<seq<string>>, o: Overload)
    requires records != [] && ReadOverload(records[|records| - 1]) == Ok(o)
    ensures var before := CreateOverloadMap(records[..|records| - 1]);
      before.Ok? ==> CreateOverloadMap(records) == Ok(AddOverload(before.value, o))
  {
    hide ReadOverload, AddOverload;
  }

  lemma OverloadRowsPrefix(os: seq<Overload>)
    requires os != []
    ensures
      var n := |os| - 1;
      var texts := KeptRows(OverloadRows(os));
      |texts| == n + 1 && texts[..n] == KeptRows(OverloadRows(os[..n])) && texts[n] == KeptTexts(OverloadRow(os[n]))
  {
    hide OverloadRow, KeptTexts;
  }

  lemma GroupedLast(os: seq<Overload>, o: Overload)
    ensures Grouped(os + [o]) == AddOverload(Grouped(os), o)
  {
    assert (os + [o])[..|os|] == os;
    hide AddOverload;
  }

  lemma {:induction false} GroupedSameKey(os: seq<Overload>, f: Function, more: seq<Overload>)
    requires f !in Grouped(os) && more != [] && forall o <- more :: o.Key() == f
    ensures Grouped(os + more) == Grouped(os)[f := more]
  {
    hide Grouped;
    var n := |more| - 1;
    var o := more[n];
    assert o in more;
    GroupedLast(os + more[..n], o);
    assert os + more[..n] + [o] == os + more;
    if n == 0 {
      assert os + more[..n] == os;
      assert [] + [o] == more;
    } else {
      GroupedSameKey(os, f, more[..n]);
      assert more[..n] + [o] == more;
    }
  }

  /** Reading the listed overloads groups them under the keys they were listed for. */
  lemma {:induction false} GroupedListed(m: OverloadMap, order: seq<Function>)
    requires OverloadsKeyed(m) && forall f <- order :: f in m
    requires forall i, j :: 0 <= i < j < |order| ==> order[i] != order[j]
    ensures Grouped(Listed(m, order)) == Picked(m, order)
  {
    if order != [] {
      var n := |order| - 1;
      var f := order[n];
      GroupedListed(m, order[..n]);
      assert f !in Picked(m, order[..n]);
      PickedLast(m, order);
      hide Grouped, Picked;
      GroupedSameKey(Listed(m, order[..n]), f, m[f]);
    }
  }

  // ---------------------------------------------------------------------------
  // The round trip of overloads
  // ---------------------------------------------------------------------------

  predicate AllListsLegible(m: OverloadMap) {
    forall f <- m :: AllLegible(m[f])
  }

  lemma ReadOverloadLegible(record: seq<string>)
    requires CleanRecord(record) && ReadOverload(record).Ok?
    ensures Legible(ReadOverload(record).value)
  {
    assert record[0] in record && record[1] in record && record[3] in record;
    hide TypeFromText, ReadSignature, Signature, PlainSignature, Strip, NoQuote;
    ReadIsPlain(record[3]);
    ReadNoQuote(record[3]);
  }

  /** Whatever was read is legible. */
  lemma {:induction false} ReadOverloadsLegible(records: seq<seq<string>>)
    requires CleanRecords(records) && CreateOverloadMap(records).Ok?
    ensures AllListsLegible(CreateOverloadMap(records).value)
  {
    hide ReadOverload, Legible, CleanRecord;
    if records != [] {
      var n := |records| - 1;
      assert forall r <- records[..n] :: r in records;
      ReadOverloadsLegible(records[..n]);
      assert CleanRecord(records[n]);
      ReadOverloadLegible(records[n]);
    }
  }

  lemma {:induction false} ListedLegible(m: OverloadMap, order: seq<Function>)
    requires AllListsLegible(m) && forall f <- order :: f in m
    ensures AllLegible(Listed(m, order))
  {
    hide Legible;
    if order != [] {
      var n := |order| - 1;
      ListedLegible(m, order[..n]);
      assert order[n] in order;
    }
  }

  lemma TrimmedConcat(a: seq<Overload>, b: seq<Overload>)
    ensures TrimmedAll(a + b) == TrimmedAll(a) + TrimmedAll(b)
  {
    hide Trimmed;
  }

  function TrimmedMap(m: OverloadMap): OverloadMap {
    map f | f in m :: TrimmedAll(m[f])
  }

  lemma {:induction false} ListedTrimmed(m: OverloadMap, order: seq<Function>)
    requires forall f <- order :: f in m
    ensures Listed(TrimmedMap(m), order) == TrimmedAll(Listed(m, order))
  {
    hide Trimmed;
    if order != [] {
      var n := |order| - 1;
      ListedTrimmed(m, order[..n]);
      assert order[n] in order;
      TrimmedConcat(Listed(m, order[..n]), m[order[n]]);
      hide TrimmedAll;
    }
  }

  lemma TrimmedMapKeyed(m: OverloadMap)
    requires OverloadsKeyed(m)
    ensures OverloadsKeyed(TrimmedMap(m))
  {
    hide Trimmed;
    forall f <- m ensures TrimmedAll(m[f]) != [] && forall o <- TrimmedAll(m[f]) :: o.Key() == f {
      assert forall i :: 0 <= i < |m[f]| ==> m[f][i] in m[f];
    }
  }

  lemma ListedAllTrimmed(m: OverloadMap, order: seq<Function>)
    requires TrimmedMap(m) == m && forall f <- order :: f in m
    ensures TrimmedAll(Listed(m, order)) == Listed(m, order)
  {
    ListedTrimmed(m, order);
  }

  lemma TrimmedMapSame(m: OverloadMap, order: seq<Function>)
    requires OverloadsKeyed(m) && forall f :: f in order <==> f in m
    requires forall i, j :: 0 <= i < j < |order| ==> order[i] != order[j]
    requires TrimmedAll(Listed(m, order)) == Listed(m, order)
    ensures TrimmedMap(m) == m
  {
    ListedTrimmed(m, order);
    TrimmedMapKeyed(m);
    GroupedListed(m, order);
    GroupedListed(TrimmedMap(m), order);
    PickedAll(m, order);
    PickedAll(TrimmedMap(m), order);
  }

  lemma AllReadableMeaning(os: seq<Overload>)
    ensures AllReadable(os) <==> AllLegible(os) && TrimmedAll(os) == os
  {
    hide ReadableOverload, Legible, Trimmed;
    forall i | 0 <= i < |os| ensures ReadableOverload(os[i]) <==> Legible(os[i]) && Trimmed(os[i]) == os[i] {
      ReadableMeaning(os[i]);
    }
    assert TrimmedAll(os) == os ==> forall i :: 0 <= i < |os| ==> Trimmed(os[i]) == os[i];
  }

  lemma EmptyOverloadFails()
    ensures CreateOverloadMap([[]]) == Err(IndexOutOfRange)
  {
    var records: seq<seq<string>> := [[]];
    assert records[..0] == [];
  }

  lemma LegibleRows(os: seq<Overload>)
    requires AllLegible(os)
    ensures QuoteFreeRows(OverloadRows(os))
  {
    hide QuoteFree, Legible;
    forall i | 0 <= i < |os| ensures forall j :: 0 <= j < |OverloadRow(os[i])| ==> QuoteFree(OverloadRow(os[i])[j]) {
      assert Legible(os[i]);
      OverloadQuoteFree(os[i]);
    }
  }

  /** Legible overloads are read back, grouped under their keys, without white space at the end. */
  lemma OverloadRecords(name: string, os: seq<Overload>)
    requires IsName(name) && AllLegible(os) && os != []
    ensures CreateOverloadMap(ParseRecords(name + PrintBody(OverloadRows(os)))) == Ok(Grouped(TrimmedAll(os)))
  {
    NameIsPlain(name);
    LegibleRows(os);
    OverloadsFromRows(os);
    hide PrintBody, ParseRecords, QuoteFreeRows, AllLegible, Grouped, CreateOverloadMap, KeptRows, TrimmedAll, IsName;
    SliceRead(name, OverloadRows(os));
  }

  lemma ReadLegible(text: string)
    ensures var read := CreateOverloadMap(ParseRecords(text)); read.Ok? ==> AllListsLegible(read.value)
  {
    RunClean(START, text);
    hide Run, CleanRecord, CreateOverloadMap, AllListsLegible;
    assert CleanRecords(ParseRecords(text));
    if CreateOverloadMap(ParseRecords(text)).Ok? {
      ReadOverloadsLegible(ParseRecords(text));
    }
  }

  lemma BodyRoundTrip(name: string, m: OverloadMap, order: seq<Function>)
    requires IsName(name) && OverloadsKeyed(m) && (forall f :: f in order <==> f in m)
    requires forall i, j :: 0 <= i < j < |order| ==> order[i] != order[j]
    ensures CreateOverloadMap(ParseRecords(name + PrintBody(OverloadRows(Listed(m, order))))) == Ok(m) <==>
      Listed(m, order) != [] && AllReadable(Listed(m, order))
  {
    var os := Listed(m, order);
    var read := CreateOverloadMap(ParseRecords(name + PrintBody(OverloadRows(os))));
    if os == [] {
      assert OverloadRows(os) == [];
      NameIsPlain(name);
      EmptyTable(name);
      EmptyOverloadFails();
    } else {
      ReadLegible(name + PrintBody(OverloadRows(os)));
      hide PrintBody, ParseRecords, AllReadable, AllLegible, AllListsLegible, OverloadRows, Grouped, Picked, CreateOverloadMap,
        Listed, TrimmedAll, TrimmedMap, OverloadsKeyed, IsName;
      if read == Ok(m) {
        ListedLegible(m, order);
      }
      AllReadableMeaning(os);
      if AllLegible(os) {
        OverloadRecords(name, os);
        ListedTrimmed(m, order);
        TrimmedMapKeyed(m);
        assert forall f :: f in TrimmedMap(m) <==> f in m by { TrimmedKeys(m); }
        GroupedListed(TrimmedMap(m), order);
        PickedAll(TrimmedMap(m), order);
        assert read == Ok(TrimmedMap(m));
        if read == Ok(m) {
          ListedAllTrimmed(m, order);
        }
        if TrimmedAll(os) == os {
          TrimmedMapSame(m, order);
        }
      }
    }
  }

  lemma TrimmedKeys(m: OverloadMap)
    ensures forall f :: f in TrimmedMap(m) <==> f in m
  {}

  /**
   Reading the generated header gives back the exported overloads, each key with its list in the written order,
   exactly if there are any and all of them can be read back.
   */
  lemma OverloadsRoundTrip(
    pre: string, entryType: string, name: string, m: OverloadMap, order: seq<Function>, post: string)
    requires OverloadsKeyed(m) && (forall f :: f in order <==> f in m)
    requires forall i, j :: 0 <= i < j < |order| ==> order[i] != order[j]
    requires Marked(pre, entryType, name, OverloadRows(Listed(m, order)))
    ensures
      var header := pre + PrintTable(entryType, name, OverloadRows(Listed(m, order))) + post;
      CreateOverloadMap(ParseRecords(GetSliceOfFile(name, header))) == Ok(m) <==>
        Listed(m, order) != [] && AllReadable(Listed(m, order))
  {
    SliceOfTable(pre, entryType, name, OverloadRows(Listed(m, order)), post);
    BodyRoundTrip(name, m, order);
    hide PrintBody, PrintTable, ParseRecords, GetSliceOfFile, AllReadable, Listed, OverloadRows, OverloadsKeyed,
      CreateOverloadMap;
  }
}
