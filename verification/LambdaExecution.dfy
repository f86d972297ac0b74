/**
 Batched execution of list_transform and list_filter.

 All lists of a chunk are flattened into batches of at most `batchSize` elements; a batch is handed to
 the lambda when it is full, which may be in the middle of a list.  list_filter rebuilds the list
 boundaries afterwards with a cursor that survives from one batch to the next.
 */
module LambdaExecution {
  import opened Wrappers

  datatype Value = Null | Boolean(b: bool) | BigInt(n: int) | Other(id: int)

  /** One row of the chunk the lambda is evaluated on. */
  datatype LambdaRow = LambdaRow(index: Option<int>, element: Value, captured: seq<Value>)

  /** The bound lambda: an arbitrary function of a row, and whether it sees the element's index. */
  datatype Lambda = Lambda(body: LambdaRow -> Value, hasIndex: bool, indexOffset: nat)
  {
    /** A NULL predicate value counts as false. */
    predicate Keeps(row: LambdaRow) {
      body(row) == Boolean(true)
    }

    function Mapped(rows: seq<LambdaRow>): (r: seq<Value>) {
      seq(|rows|, i requires 0 <= i < |rows| => body(rows[i]))
    }

    /** The elements of the rows that the predicate keeps, in order. */
    function Kept(rows: seq<LambdaRow>): (r: seq<Value>)
      ensures |r| <= |rows|
    {
      if rows == [] then []
      else
        var last := rows[|rows| - 1];
        Kept(rows[..|rows| - 1]) + if Keeps(last) then [last.element] else []
    }
  }

  datatype ListEntry = ListEntry(offset: nat, length: nat)

  /** A list vector in unified format: row r is described by entry sel[r]. */
  datatype ListColumn = ListColumn(sel: seq<nat>, entries: seq<ListEntry>, validity: seq<bool>, child: seq<Value>)
  {
    ghost predicate Valid() {
      && |validity| == |entries|
      && (forall r :: 0 <= r < |sel| ==> sel[r] < |entries|)
      && (forall e :: 0 <= e < |entries| && validity[e] ==> entries[e].offset + entries[e].length <= |child|)
    }

    predicate RowIsValid(r: nat)
      requires Valid() && r < |sel|
    {
      validity[sel[r]]
    }

    function Length(r: nat): nat
      requires Valid() && r < |sel|
    {
      if RowIsValid(r) then entries[sel[r]].length else 0
    }

    function Element(r: nat, k: nat): Value
      requires Valid() && r < |sel| && k < Length(r)
    {
      child[entries[sel[r]].offset + k]
    }
  }

  /** An argument column: a constant vector stores one value for all rows. */
  datatype Column = Column(constant: bool, data: seq<Value>)
  {
    ghost predicate Covers(rows: nat) {
      if constant then |data| > 0 else |data| == rows
    }

    function At(r: nat): Value
      requires if constant then |data| > 0 else r < |data|
    {
      if constant then data[0] else data[r]
    }
  }

  /** An argument of the list function after the list itself. */
  datatype Argument = LambdaPlaceholder | ColumnArgument(column: Column)

  datatype Functor = Transform | Filter

  datatype ListResult = ListResult(child: seq<Value>, entries: seq<ListEntry>, validity: seq<bool>)

  // ---------------------------------------------------------------------------
  // The row-by-row meaning that batching must not change
  // ---------------------------------------------------------------------------

  /** The captured columns: all arguments but the lambda placeholder. */
  function Columns(args: seq<Argument>): (r: seq<Column>) {
    if args == [] then []
    else
      var last := args[|args| - 1];
      Columns(args[..|args| - 1]) + if last.ColumnArgument? then [last.column] else []
  }

  /** A chunk of arguments: the list, the lambda and the columns that the lambda captures. */
  datatype Chunk = Chunk(list: ListColumn, lambda: Lambda, columns: seq<Column>)
  {
    ghost predicate Valid() {
      list.Valid() && forall c :: 0 <= c < |columns| ==> columns[c].Covers(|list.sel|)
    }

    function Captured(r: nat): (s: seq<Value>)
      requires Valid() && r < |list.sel|
    {
      seq(|columns|, c requires 0 <= c < |columns| => columns[c].At(r))
    }

    function Index(k: nat): Option<int> {
      if lambda.hasIndex then Some(k + lambda.indexOffset) else None
    }

    function Row(r: nat, k: nat): LambdaRow
      requires Valid() && r < |list.sel| && k < list.Length(r)
    {
      LambdaRow(Index(k), list.Element(r, k), Captured(r))
    }

    /** What the lambda must see for the list in row r, one row per element. */
    function Rows(r: nat): (s: seq<LambdaRow>)
      requires Valid() && r < |list.sel|
      ensures |s| == list.Length(r)
    {
      seq(list.Length(r), k requires 0 <= k < list.Length(r) => Row(r, k))
    }

    /** The rows of the lists in the first n rows. */
    ghost function Lists(n: nat): (s: seq<seq<LambdaRow>>)
      requires Valid() && n <= |list.sel|
      ensures |s| == n && forall r :: 0 <= r < n ==> s[r] == Rows(r)
    {
      seq(n, r requires 0 <= r < n => Rows(r))
    }

    /** The result refines evaluating the functor row by row. */
    ghost predicate Refines(functor: Functor, out: ListResult)
      requires Valid()
    {
      var expected := Images(functor, lambda, Lists(|list.sel|));
      && |out.entries| == |out.validity| == |list.sel|
      && out.child == Flatten(expected)
      && (forall r :: 0 <= r < |list.sel| ==> out.validity[r] == list.RowIsValid(r))
      && (forall r :: 0 <= r < |list.sel| && (functor.Filter? || list.RowIsValid(r)) ==>
            Names(expected, out.child, out.entries[r], r))
    }
  }

  function Flatten<T>(lists: seq<seq<T>>): (flat: seq<T>) {
    if lists == [] then [] else Flatten(lists[..|lists| - 1]) + lists[|lists| - 1]
  }

  /** The list that the functor makes of the rows of one list. */
  function Image(functor: Functor, f: Lambda, rows: seq<LambdaRow>): seq<Value> {
    match functor
    case Transform => f.Mapped(rows)
    case Filter => f.Kept(rows)
  }

  ghost function Images(functor: Functor, f: Lambda, lists: seq<seq<LambdaRow>>): (images: seq<seq<Value>>)
    ensures |images| == |lists|
    ensures forall r :: 0 <= r < |lists| ==> images[r] == Image(functor, f, lists[r])
  {
    seq(|lists|, r requires 0 <= r < |lists| => Image(functor, f, lists[r]))
  }

  /** The entry names list r of `lists` inside `child`: it starts right after all earlier lists. */
  ghost predicate Names(lists: seq<seq<Value>>, child: seq<Value>, entry: ListEntry, r: nat)
    requires r < |lists|
  {
    && entry.offset == |Flatten(lists[..r])|
    && entry.length == |lists[r]|
    && entry.offset + entry.length <= |child|
    && child[entry.offset..entry.offset + entry.length] == lists[r]
  }

  // ---------------------------------------------------------------------------
  // Laws of the specification functions
  // ---------------------------------------------------------------------------

  lemma {:induction false} KeptConcat(f: Lambda, a: seq<LambdaRow>, b: seq<LambdaRow>)
    ensures f.Kept(a + b) == f.Kept(a) + f.Kept(b)
  {
    if b == [] {
      assert a + b == a;
    } else {
      var n := |b| - 1;
      assert (a + b)[..|a + b| - 1] == a + b[..n];
      KeptConcat(f, a, b[..n]);
    }
  }

  lemma ImageConcat(functor: Functor, f: Lambda, a: seq<LambdaRow>, b: seq<LambdaRow>)
    ensures Image(functor, f, a + b) == Image(functor, f, a) + Image(functor, f, b)
  {
    match functor
    case Transform =>
    case Filter => KeptConcat(f, a, b);
  }

  /** Flattening and then applying the functor is the same as applying it list by list. */
  lemma {:induction false} FlattenImages(functor: Functor, f: Lambda, lists: seq<seq<LambdaRow>>)
    ensures Flatten(Images(functor, f, lists)) == Image(functor, f, Flatten(lists))
  {
    if lists != [] {
      var n := |lists| - 1;
      assert Images(functor, f, lists)[..n] == Images(functor, f, lists[..n]);
      FlattenImages(functor, f, lists[..n]);
      ImageConcat(functor, f, Flatten(lists[..n]), lists[n]);
    }
  }

  lemma {:induction false} FlattenPrefix<T>(lists: seq<seq<T>>, r: nat)
    requires r <= |lists|
    ensures Flatten(lists[..r]) <= Flatten(lists)
  {
    if r < |lists| {
      FlattenPrefix(lists[..|lists| - 1], r);
      assert lists[..|lists| - 1][..r] == lists[..r];
    } else {
      assert lists[..r] == lists;
    }
  }

  /** An entry with the right offset and length names the right slice once the child is complete. */
  lemma NamesFromBounds(lists: seq<seq<Value>>, entry: ListEntry, r: nat)
    requires r < |lists|
    requires entry.offset == |Flatten(lists[..r])| && entry.length == |lists[r]|
    ensures Names(lists, Flatten(lists), entry, r)
  {
    assert lists[..r + 1][..r] == lists[..r];
    FlattenPrefix(lists, r + 1);
    var upTo := Flatten(lists[..r + 1]);
    assert Flatten(lists)[..|upTo|] == upTo;
    assert upTo[entry.offset..] == lists[r];
  }

  // ---------------------------------------------------------------------------
  // The same meaning, position by position
  // ---------------------------------------------------------------------------

  /** How many elements the valid lists in the first r rows have. */
  function ElementsBefore(list: ListColumn, r: nat): nat
    requires list.Valid() && r <= |list.sel|
  {
    if r == 0 then 0
    else ElementsBefore(list, r - 1) + if list.validity[list.sel[r - 1]] then list.entries[list.sel[r - 1]].length else 0
  }

  /** The positions of the columns among the arguments, in order. */
  predicate ColumnPositions(args: seq<Argument>, pos: seq<nat>) {
    && (forall c, d :: 0 <= c < d < |pos| ==> pos[c] < pos[d])
    && (forall c :: 0 <= c < |pos| ==> pos[c] < |args| && args[pos[c]].ColumnArgument?)
    && (forall i :: 0 <= i < |args| && args[i].ColumnArgument? ==> i in pos)
  }

  /** In row r a constant column has its one value, any other column its r-th. */
  predicate Captures(args: seq<Argument>, pos: seq<nat>, r: nat, captured: seq<Value>)
    requires ColumnPositions(args, pos)
  {
    && |captured| == |pos|
    && forall c :: 0 <= c < |pos| ==>
         var column := args[pos[c]].column;
         if column.constant then column.data != [] && captured[c] == column.data[0]
         else r < |column.data| && captured[c] == column.data[r]
  }

  /** What the lambda gets for element k of the list in row r. */
  predicate Sees(list: ListColumn, lambda: Lambda, args: seq<Argument>, pos: seq<nat>, r: nat, k: nat, row: LambdaRow)
    requires list.Valid() && r < |list.sel| && ColumnPositions(args, pos)
    requires list.validity[list.sel[r]] && k < list.entries[list.sel[r]].length
  {
    && row.index == (if lambda.hasIndex then Some(k + lambda.indexOffset) else None)
    && row.element == list.child[list.entries[list.sel[r]].offset + k]
    && Captures(args, pos, r, row.captured)
  }

  /** The element at position i of all elements is element k of the list in row r. */
  predicate Located(list: ListColumn, i: nat, r: nat, k: nat)
    requires list.Valid()
  {
    && r < |list.sel| && list.validity[list.sel[r]] && k < list.entries[list.sel[r]].length
    && i == ElementsBefore(list, r) + k
  }

  /** Every element of every valid list is handed over once, in order, with its own index and captures. */
  ghost predicate HandsOver(list: ListColumn, lambda: Lambda, args: seq<Argument>, evaluated: seq<LambdaRow>)
    requires list.Valid()
  {
    && |evaluated| == ElementsBefore(list, |list.sel|)
    && exists pos :: ColumnPositions(args, pos) &&
         forall i: nat, r: nat, k: nat :: Located(list, i, r, k) ==> i < |evaluated| && Sees(list, lambda, args, pos, r, k, evaluated[i])
  }

  /** list_transform: the value of the lambda for each element; each valid list keeps its length. */
  ghost predicate Transforms(list: ListColumn, lambda: Lambda, evaluated: seq<LambdaRow>, out: ListResult)
    requires list.Valid()
  {
    && |out.child| == |evaluated| && (forall i :: 0 <= i < |evaluated| ==> out.child[i] == lambda.body(evaluated[i]))
    && |out.entries| == |out.validity| == |list.sel|
    && forall r :: 0 <= r < |list.sel| ==>
         && out.validity[r] == list.validity[list.sel[r]]
         && (out.validity[r] ==> out.entries[r] == ListEntry(ElementsBefore(list, r), list.entries[list.sel[r]].length))
  }

  /** The positions at which the lambda is true, in order; NULL is not. */
  predicate TruePositions(lambda: Lambda, evaluated: seq<LambdaRow>, kept: seq<nat>) {
    && (forall i, j :: 0 <= i < j < |kept| ==> kept[i] < kept[j])
    && (forall j :: 0 <= j < |kept| ==> kept[j] < |evaluated|)
    && (forall i :: 0 <= i < |evaluated| ==> (i in kept <==> lambda.body(evaluated[i]) == Boolean(true)))
  }

  /** list_filter: the elements for which the lambda is true; each entry holds those of its own list. */
  ghost predicate Filters(list: ListColumn, lambda: Lambda, evaluated: seq<LambdaRow>, out: ListResult)
    requires list.Valid()
  {
    && |out.entries| == |out.validity| == |list.sel|
    && (forall r :: 0 <= r < |list.sel| ==> out.validity[r] == list.validity[list.sel[r]])
    && exists kept :: TruePositions(lambda, evaluated, kept)
         && |out.child| == |kept| && (forall j :: 0 <= j < |kept| ==> out.child[j] == evaluated[kept[j]].element)
         && forall r :: 0 <= r < |list.sel| ==> HoldsOwn(list, kept, out.entries[r], r)
  }

  /** The entry spans the kept elements from the start of list r to its end. */
  predicate HoldsOwn(list: ListColumn, kept: seq<nat>, entry: ListEntry, r: nat)
    requires list.Valid() && r < |list.sel|
  {
    SplitsAt(kept, entry.offset, ElementsBefore(list, r)) &&
    SplitsAt(kept, entry.offset + entry.length, ElementsBefore(list, r + 1))
  }

  /** Exactly the first n positions are below the bound. */
  predicate SplitsAt(kept: seq<nat>, n: nat, bound: nat) {
    n <= |kept| && forall j :: 0 <= j < |kept| ==> (j < n <==> kept[j] < bound)
  }

  lemma {:induction false} ColumnsPositions(args: seq<Argument>) returns (pos: seq<nat>)
    ensures ColumnPositions(args, pos) && |pos| == |Columns(args)|
    ensures forall c :: 0 <= c < |pos| ==> Columns(args)[c] == args[pos[c]].column
  {
    if args == [] {
      return [];
    }
    var n := |args| - 1;
    var before := ColumnsPositions(args[..n]);
    pos := before + if args[n].ColumnArgument? then [n] else [];
    LongerPositions(args, before);
    hide ColumnPositions;
  }

  lemma LongerPositions(args: seq<Argument>, before: seq<nat>)
    requires args != [] && ColumnPositions(args[..|args| - 1], before)
    ensures var n := |args| - 1; ColumnPositions(args, before + if args[n].ColumnArgument? then [n] else [])
  {
    var n := |args| - 1;
    var pos := before + if args[n].ColumnArgument? then [n] else [];
    assert forall c :: 0 <= c < |before| ==> pos[c] == before[c] < n && args[..n][before[c]] == args[before[c]];
    forall i | 0 <= i < |args| && args[i].ColumnArgument? ensures i in pos {
      if i < n {
        assert args[..n][i] == args[i];
        assert i in before;
      }
    }
  }

  lemma {:induction false} ElementsCounted(chunk: Chunk, r: nat)
    requires chunk.Valid() && r <= |chunk.list.sel|
    ensures |Flatten(chunk.Lists(|chunk.list.sel|)[..r])| == ElementsBefore(chunk.list, r)
    decreases r
  {
    hide Chunk.Rows;
    var lists := chunk.Lists(|chunk.list.sel|);
    if r > 0 {
      ElementsCounted(chunk, r - 1);
      assert lists[..r][..r - 1] == lists[..r - 1];
    }
  }

  lemma CapturesAt(chunk: Chunk, args: seq<Argument>, pos: seq<nat>, r: nat)
    requires chunk.Valid() && chunk.columns == Columns(args) && r < |chunk.list.sel|
    requires ColumnPositions(args, pos) && |pos| == |Columns(args)|
    requires forall c :: 0 <= c < |pos| ==> Columns(args)[c] == args[pos[c]].column
    ensures Captures(args, pos, r, chunk.Captured(r))
  {
    hide Columns;
    forall c | 0 <= c < |pos|
      ensures var column := args[pos[c]].column;
        if column.constant then column.data != [] && chunk.Captured(r)[c] == column.data[0]
        else r < |column.data| && chunk.Captured(r)[c] == column.data[r]
    {
      assert chunk.columns[c].Covers(|chunk.list.sel|);
    }
  }

  lemma HandedOver(chunk: Chunk, args: seq<Argument>)
    requires chunk.Valid() && chunk.columns == Columns(args)
    ensures HandsOver(chunk.list, chunk.lambda, args, Flatten(chunk.Lists(|chunk.list.sel|)))
  {
    hide Flatten, Chunk.Captured, Columns, Captures, ColumnPositions, ElementsBefore;
    var list, lists := chunk.list, chunk.Lists(|chunk.list.sel|);
    var pos := ColumnsPositions(args);
    ElementsCounted(chunk, |list.sel|);
    assert lists[..|list.sel|] == lists;
    forall i: nat, r: nat, k: nat | Located(list, i, r, k)
      ensures i < |Flatten(lists)| && Sees(list, chunk.lambda, args, pos, r, k, Flatten(lists)[i])
    {
      ElementsCounted(chunk, r);
      ElementOfFlatten(lists, r, k);
      CapturesAt(chunk, args, pos, r);
      assert lists[r][k] == chunk.Row(r, k);
    }
  }

  lemma TransformMeaning(chunk: Chunk, out: ListResult)
    requires chunk.Valid() && chunk.Refines(Transform, out)
    ensures Transforms(chunk.list, chunk.lambda, Flatten(chunk.Lists(|chunk.list.sel|)), out)
  {
    hide Flatten, Chunk.Rows;
    var lists := chunk.Lists(|chunk.list.sel|);
    FlattenImages(Transform, chunk.lambda, lists);
    forall r | 0 <= r < |chunk.list.sel| && chunk.list.RowIsValid(r)
      ensures out.entries[r] == ListEntry(ElementsBefore(chunk.list, r), chunk.list.entries[chunk.list.sel[r]].length)
    {
      ElementsCounted(chunk, r);
      ImagesPrefix(Transform, chunk.lambda, lists, r);
      assert Names(Images(Transform, chunk.lambda, lists), out.child, out.entries[r], r);
    }
  }

  lemma ImagesPrefix(functor: Functor, f: Lambda, lists: seq<seq<LambdaRow>>, r: nat)
    requires r <= |lists|
    ensures Flatten(Images(functor, f, lists)[..r]) == Image(functor, f, Flatten(lists[..r]))
  {
    assert Images(functor, f, lists)[..r] == Images(functor, f, lists[..r]);
    FlattenImages(functor, f, lists[..r]);
  }

  /** The positions of the kept rows. */
  function KeptAt(f: Lambda, rows: seq<LambdaRow>): (kept: seq<nat>) {
    if rows == [] then []
    else
      var n := |rows| - 1;
      KeptAt(f, rows[..n]) + if f.Keeps(rows[n]) then [n] else []
  }

  lemma {:induction false} KeptAtTrue(f: Lambda, rows: seq<LambdaRow>)
    ensures TruePositions(f, rows, KeptAt(f, rows)) && |KeptAt(f, rows)| == |f.Kept(rows)|
  {
    hide TruePositions;
    if rows == [] {
      NoneKept(f, rows);
    } else {
      KeptAtTrue(f, rows[..|rows| - 1]);
      LongerKept(f, rows, KeptAt(f, rows[..|rows| - 1]));
    }
  }

  lemma NoneKept(f: Lambda, rows: seq<LambdaRow>)
    requires rows == []
    ensures TruePositions(f, rows, [])
  {}

  lemma {:induction false} KeptAtElements(f: Lambda, rows: seq<LambdaRow>)
    ensures |KeptAt(f, rows)| == |f.Kept(rows)|
    ensures forall j :: 0 <= j < |KeptAt(f, rows)| ==>
      KeptAt(f, rows)[j] < |rows| && f.Kept(rows)[j] == rows[KeptAt(f, rows)[j]].element
  {
    if rows != [] {
      KeptAtElements(f, rows[..|rows| - 1]);
    }
  }

  lemma {:induction false} KeptAtSplits(f: Lambda, rows: seq<LambdaRow>, m: nat)
    requires m <= |rows|
    ensures SplitsAt(KeptAt(f, rows), |f.Kept(rows[..m])|, m)
  {
    KeptAtTrue(f, rows);
    if m == |rows| {
      assert rows[..m] == rows;
    } else {
      var n := |rows| - 1;
      KeptAtSplits(f, rows[..n], m);
      assert rows[..n][..m] == rows[..m];
    }
  }

  lemma LongerKept(f: Lambda, rows: seq<LambdaRow>, before: seq<nat>)
    requires rows != [] && TruePositions(f, rows[..|rows| - 1], before)
    ensures var n := |rows| - 1; TruePositions(f, rows, before + if f.Keeps(rows[n]) then [n] else [])
    ensures forall j :: 0 <= j < |before| ==> before[j] < |rows| - 1
  {
    var n := |rows| - 1;
    var kept := before + if f.Keeps(rows[n]) then [n] else [];
    forall i | 0 <= i < |rows| ensures i in kept <==> f.body(rows[i]) == Boolean(true) {
      if i < n {
        assert rows[..n][i] == rows[i] && (i in before <==> i in kept);
      }
    }
  }

  lemma FilterMeaning(chunk: Chunk, out: ListResult)
    requires chunk.Valid() && chunk.Refines(Filter, out)
    ensures Filters(chunk.list, chunk.lambda, Flatten(chunk.Lists(|chunk.list.sel|)), out)
  {
    hide Flatten, Chunk.Rows, Lambda.Kept, KeptAt, SplitsAt, TruePositions, ElementsBefore;
    var f, lists, n := chunk.lambda, chunk.Lists(|chunk.list.sel|), |chunk.list.sel|;
    var all := Flatten(lists);
    FlattenImages(Filter, f, lists);
    var kept := KeptAt(f, all);
    KeptAtTrue(f, all);
    KeptAtElements(f, all);
    forall r | 0 <= r < n ensures HoldsOwn(chunk.list, kept, out.entries[r], r) {
      BeforeList(chunk, r);
      BeforeList(chunk, r + 1);
      KeptAtSplits(f, all, ElementsBefore(chunk.list, r));
      KeptAtSplits(f, all, ElementsBefore(chunk.list, r + 1));
      FinishList(f, lists, r);
      ImagesPrefix(Filter, f, lists, r);
      assert Names(Images(Filter, f, lists), out.child, out.entries[r], r);
    }
  }

  /** The elements of the first r rows are a prefix of all elements. */
  lemma BeforeList(chunk: Chunk, r: nat)
    requires chunk.Valid() && r <= |chunk.list.sel|
    ensures
      var lists := chunk.Lists(|chunk.list.sel|);
      var m := ElementsBefore(chunk.list, r);
      m <= |Flatten(lists)| && Flatten(lists)[..m] == Flatten(lists[..r])
  {
    hide Flatten, Chunk.Rows;
    ElementsCounted(chunk, r);
    FlattenPrefix(chunk.Lists(|chunk.list.sel|), r);
  }

  // ---------------------------------------------------------------------------
  // The list_filter cursor
  // ---------------------------------------------------------------------------

  function Lengths<T>(lists: seq<seq<T>>): (lengths: seq<nat>)
    ensures |lengths| == |lists|
    ensures forall r :: 0 <= r < |lists| ==> lengths[r] == |lists[r]|
  {
    seq(|lists|, r requires 0 <= r < |lists| => |lists[r]|)
  }

  class ListFilterInfo {
    var entryLengths: seq<nat>
    var length: nat
    var offset: nat
    var rowIdx: nat
    var srcLength: nat

    constructor ()
      ensures entryLengths == [] && length == offset == rowIdx == srcLength == 0
    {
      entryLengths, length, offset, rowIdx, srcLength := [], 0, 0, 0, 0;
    }

    /**
     The lengths of `lists` have been announced, and the cursor stands right behind the first `done` of
     their rows.  Everything before the current list has its entry.
     */
    ghost predicate Behind(f: Lambda, lists: seq<seq<LambdaRow>>, done: nat, entries: array<ListEntry>)
      reads this, entries
    {
      && entryLengths == Lengths(lists)
      && rowIdx <= |lists| <= entries.Length
      && done == |Flatten(lists[..rowIdx])| + srcLength
      && (srcLength > 0 ==> rowIdx < |lists| && srcLength < |lists[rowIdx]|)
      && offset == |f.Kept(Flatten(lists[..rowIdx]))|
      && length == (if srcLength > 0 then |f.Kept(lists[rowIdx][..srcLength])| else 0)
      && (forall r :: 0 <= r < rowIdx ==> entries[r] == FilteredEntry(f, lists, r))
    }

    /** Sets offset and length of the empty lists at the cursor. */
    method SkipEmptyLists(f: Lambda, ghost lists: seq<seq<LambdaRow>>, ghost done: nat, entries: array<ListEntry>)
      requires Behind(f, lists, done, entries)
      modifies this`rowIdx, entries
      ensures Behind(f, lists, done, entries)
      ensures rowIdx < |lists| ==> lists[rowIdx] != []
    {
      hide Lambda.Kept, Flatten;
      while rowIdx < |entryLengths| && entryLengths[rowIdx] == 0
        invariant Behind(f, lists, done, entries)
        decreases |entryLengths| - rowIdx
      {
        FinishList(f, lists, rowIdx);
        entries[rowIdx] := ListEntry(offset, 0);
        rowIdx := rowIdx + 1;
      }
    }

    /** Inside list rowIdx, behind at least one and possibly all of its rows. */
    ghost predicate Inside(f: Lambda, lists: seq<seq<LambdaRow>>, done: nat, entries: array<ListEntry>)
      reads this, entries
    {
      && entryLengths == Lengths(lists)
      && rowIdx < |lists| <= entries.Length
      && 0 < srcLength <= |lists[rowIdx]|
      && done == |Flatten(lists[..rowIdx])| + srcLength
      && offset == |f.Kept(Flatten(lists[..rowIdx]))|
      && length == |f.Kept(lists[rowIdx][..srcLength])|
      && (forall r :: 0 <= r < rowIdx ==> entries[r] == FilteredEntry(f, lists, r))
    }

    /** One iteration of the loop over the lambda vector: the cursor moves over the next row. */
    method Consume(f: Lambda, ghost lists: seq<seq<LambdaRow>>, ghost done: nat, ghost row: LambdaRow,
                   keep: bool, entries: array<ListEntry>)
      requires Behind(f, lists, done, entries)
      requires done < |Flatten(lists)| && Flatten(lists)[done] == row
      requires keep == f.Keeps(row)
      modifies this`length, this`offset, this`rowIdx, this`srcLength, entries
      ensures Behind(f, lists, done + 1, entries)
    {
      hide Lambda.Kept, Flatten;
      SkipEmptyLists(f, lists, done, entries);
      Count(f, lists, done, row, keep, entries);
      FinishTraversed(f, lists, done + 1, entries);
    }

    method Count(f: Lambda, ghost lists: seq<seq<LambdaRow>>, ghost done: nat, ghost row: LambdaRow,
                 keep: bool, entries: array<ListEntry>)
      requires Behind(f, lists, done, entries)
      requires rowIdx < |lists| ==> lists[rowIdx] != []
      requires done < |Flatten(lists)| && Flatten(lists)[done] == row
      requires keep == f.Keeps(row)
      modifies this`length, this`srcLength
      ensures Inside(f, lists, done + 1, entries)
    {
      hide Lambda.Kept, Flatten;
      assert rowIdx < |lists| by {
        assert lists[..|lists|] == lists;
      }
      ElementOfFlatten(lists, rowIdx, srcLength);
      KeptStep(f, lists[rowIdx], srcLength);
      if keep {
        length := length + 1;
      }
      srcLength := srcLength + 1;
    }

    /** Sets the entry of the current list if all of it has been traversed. */
    method FinishTraversed(f: Lambda, ghost lists: seq<seq<LambdaRow>>, ghost done: nat, entries: array<ListEntry>)
      requires Inside(f, lists, done, entries)
      modifies this`length, this`offset, this`rowIdx, this`srcLength, entries
      ensures Behind(f, lists, done, entries)
    {
      hide Lambda.Kept, Flatten;
      if entryLengths[rowIdx] == srcLength {
        FinishList(f, lists, rowIdx);
        assert lists[rowIdx][..srcLength] == lists[rowIdx];
        entries[rowIdx] := ListEntry(offset, length);
        offset := offset + length;
        rowIdx := rowIdx + 1;
        length := 0;
        srcLength := 0;
      }
    }

    /** Moves the cursor over a lambda vector; returns the indices of the kept rows as a selection vector. */
    method Traverse(f: Lambda, ghost lists: seq<seq<LambdaRow>>, ghost done: nat, ghost rows: seq<LambdaRow>,
                    lambdaVector: seq<Value>, entries: array<ListEntry>)
      returns (sel: seq<nat>)
      requires Behind(f, lists, done, entries)
      requires done + |rows| <= |Flatten(lists)|
      requires forall i :: 0 <= i < |rows| ==> rows[i] == Flatten(lists)[done + i]
      requires |lambdaVector| == |rows| && forall i :: 0 <= i < |rows| ==> lambdaVector[i] == f.body(rows[i])
      modifies this`length, this`offset, this`rowIdx, this`srcLength, entries
      ensures Behind(f, lists, done + |rows|, entries)
      ensures rowIdx < |lists| ==> lists[rowIdx] != []
      ensures (forall j :: 0 <= j < |sel| ==> sel[j] < |rows|) && Selected(rows, sel) == f.Kept(rows)
    {
      hide Lambda.Kept, Flatten, ListFilterInfo.Behind, Selected;
      NothingSelected(f, rows);
      sel := [];
      for i := 0 to |lambdaVector|
        invariant forall j :: 0 <= j < |sel| ==> sel[j] < |rows|
        invariant Selected(rows, sel) == f.Kept(rows[..i])
        invariant Behind(f, lists, done + i, entries)
      {
        var keep := lambdaVector[i] == Boolean(true);
        Consume(f, lists, done + i, rows[i], keep, entries);
        SelectedStep(f, rows, sel, i);
        if keep {
          sel := sel + [i];
        }
      }
      SkipEmptyLists(f, lists, done + |rows|, entries);
      assert rows[..|rows|] == rows;
    }

    /** Announces the next list before any of its elements is executed. */
    method PushLength(f: Lambda, ghost lists: seq<seq<LambdaRow>>, ghost done: nat, ghost list: seq<LambdaRow>,
                      len: nat, entries: array<ListEntry>)
      requires Behind(f, lists, done, entries)
      requires |lists| < entries.Length && len == |list|
      modifies this`entryLengths
      ensures Behind(f, lists + [list], done, entries)
    {
      entryLengths := entryLengths + [len];
      ghost var longer := lists + [list];
      assert longer[..rowIdx] == lists[..rowIdx];
      forall r | 0 <= r < rowIdx ensures FilteredEntry(f, longer, r) == FilteredEntry(f, lists, r) {
        assert longer[..r] == lists[..r];
      }
    }
  }

  /** The entry of list r after filtering. */
  ghost function FilteredEntry(f: Lambda, lists: seq<seq<LambdaRow>>, r: nat): ListEntry
    requires r < |lists|
  {
    ListEntry(|f.Kept(Flatten(lists[..r]))|, |f.Kept(lists[r])|)
  }

  /** The source elements of a chunk, sliced by a selection vector. */
  function Selected(rows: seq<LambdaRow>, sel: seq<nat>): (s: seq<Value>)
    requires forall j :: 0 <= j < |sel| ==> sel[j] < |rows|
  {
    seq(|sel|, j requires 0 <= j < |sel| => rows[sel[j]].element)
  }

  lemma NothingSelected(f: Lambda, rows: seq<LambdaRow>)
    ensures Selected(rows, []) == [] == f.Kept(rows[..0])
  {}

  lemma SelectedStep(f: Lambda, rows: seq<LambdaRow>, sel: seq<nat>, i: nat)
    requires i < |rows| && (forall j :: 0 <= j < |sel| ==> sel[j] < |rows|)
    requires Selected(rows, sel) == f.Kept(rows[..i])
    ensures Selected(rows, if f.Keeps(rows[i]) then sel + [i] else sel) == f.Kept(rows[..i + 1])
  {
    assert rows[..i + 1][..i] == rows[..i];
    assert Selected(rows, sel + [i]) == Selected(rows, sel) + [rows[i].element];
  }

  /** The refinement determines a filtered result, so the batch size cannot be observed. */
  lemma ResultIsUnique(chunk: Chunk, a: ListResult, b: ListResult)
    requires chunk.Valid() && chunk.Refines(Filter, a) && chunk.Refines(Filter, b)
    ensures a == b
  {
    var expected := Images(Filter, chunk.lambda, chunk.Lists(|chunk.list.sel|));
    forall r | 0 <= r < |chunk.list.sel| ensures a.entries[r] == b.entries[r] {
      assert Names(expected, a.child, a.entries[r], r) && Names(expected, b.child, b.entries[r], r);
    }
    assert a.entries == b.entries && a.validity == b.validity;
  }

  lemma KeptStep(f: Lambda, list: seq<LambdaRow>, k: nat)
    requires k < |list|
    ensures |f.Kept(list[..k + 1])| == |f.Kept(list[..k])| + if f.Keeps(list[k]) then 1 else 0
    ensures f.Kept(list[..0]) == []
  {
    assert list[..k + 1][..k] == list[..k];
  }

  lemma FinishList(f: Lambda, lists: seq<seq<LambdaRow>>, r: nat)
    requires r < |lists|
    ensures |Flatten(lists[..r + 1])| == |Flatten(lists[..r])| + |lists[r]|
    ensures |f.Kept(Flatten(lists[..r + 1]))| == |f.Kept(Flatten(lists[..r]))| + |f.Kept(lists[r])|
    ensures lists[r] == [] ==> f.Kept(lists[r]) == []
  {
    assert lists[..r + 1][..r] == lists[..r];
    KeptConcat(f, Flatten(lists[..r]), lists[r]);
  }

  lemma ElementOfFlatten<T>(lists: seq<seq<T>>, r: nat, k: nat)
    requires r < |lists| && k < |lists[r]|
    ensures |Flatten(lists[..r])| + k < |Flatten(lists)|
    ensures Flatten(lists)[|Flatten(lists[..r])| + k] == lists[r][k]
  {
    assert lists[..r + 1][..r] == lists[..r];
    FlattenPrefix(lists, r + 1);
    var upTo := Flatten(lists[..r + 1]);
    assert Flatten(lists)[..|upTo|] == upTo;
  }

  // ---------------------------------------------------------------------------
  // The batching loop
  // ---------------------------------------------------------------------------

  /** A captured column with the selection vector that slices it for the current batch. */
  class ColumnInfo {
    const column: Column
    const sel: array<nat>

    constructor (column: Column, batchSize: nat)
      ensures this.column == column && fresh(sel) && sel.Length == batchSize
    {
      this.column := column;
      sel := new nat[batchSize];
    }

    /** Position i of the sliced column is `value`. */
    ghost predicate Holds(i: nat, value: Value)
      reads sel
    {
      && i < sel.Length
      && (if column.constant then |column.data| > 0 else sel[i] < |column.data|)
      && value == column.At(if column.constant then 0 else sel[i])
    }
  }

  /** The locals of one call of ExecuteLambda. */
  class LambdaExecution {
    const functor: Functor
    const chunk: Chunk
    const batchSize: nat
    const columnInfos: seq<ColumnInfo>
    const mutableColumns: seq<ColumnInfo>
    const childSel: array<nat>
    const indexVector: array<nat>
    const entries: array<ListEntry>
    const validity: array<bool>
    const filterInfo: ListFilterInfo
    var elemCnt: nat
    var offset: nat
    var inputChunk: seq<LambdaRow>
    var lambdaChunk: seq<Value>
    var child: seq<Value>
    // every row that has been handed to the lambda so far, in order
    ghost var evaluated: seq<LambdaRow>

    constructor (functor: Functor, chunk: Chunk, batchSize: nat, columnInfos: seq<ColumnInfo>,
                 mutableColumns: seq<ColumnInfo>)
      requires chunk.Valid() && batchSize >= 1
      requires BatchColumns(columnInfos, mutableColumns, chunk.columns, batchSize)
      ensures this.functor == functor && this.chunk == chunk && this.batchSize == batchSize
      ensures this.columnInfos == columnInfos && this.mutableColumns == mutableColumns
      ensures fresh(Repr() - (set c <- columnInfos :: c.sel)) && Valid()
      ensures evaluated == [] && elemCnt == 0 && Consistent([], [])
    {
      this.functor, this.chunk, this.batchSize := functor, chunk, batchSize;
      this.columnInfos, this.mutableColumns := columnInfos, mutableColumns;
      childSel := new nat[batchSize];
      indexVector := new nat[batchSize];
      entries := new ListEntry[|chunk.list.sel|](_ => ListEntry(0, 0));
      validity := new bool[|chunk.list.sel|](_ => true);
      filterInfo := new ListFilterInfo();
      elemCnt, offset, inputChunk, lambdaChunk, child, evaluated := 0, 0, [], [], [], [];
    }

    ghost function Repr(): set<object> {
      {this, childSel, indexVector, entries, validity, filterInfo} + set c <- columnInfos :: c.sel
    }

    ghost predicate Valid() {
      && chunk.Valid() && batchSize >= 1
      && childSel.Length == indexVector.Length == batchSize
      && entries.Length == validity.Length == |chunk.list.sel|
      && childSel != indexVector
      && BatchColumns(columnInfos, mutableColumns, chunk.columns, batchSize)
      && (forall c <- columnInfos :: c.sel != childSel && c.sel != indexVector)
    }

    /** Position i of the buffers describes `row`. */
    ghost predicate Buffered(i: nat, row: LambdaRow)
      requires Valid() && i < batchSize
      reads childSel, indexVector, set c <- columnInfos :: c.sel
    {
      && row.index == (if chunk.lambda.hasIndex then Some(indexVector[i]) else None)
      && childSel[i] < |chunk.list.child|
      && row.element == chunk.list.child[childSel[i]]
      && |row.captured| == |columnInfos|
      && (forall c :: 0 <= c < |columnInfos| ==> columnInfos[c].Holds(i, row.captured[c]))
    }

    /**
     The rows `produced` so far are the evaluated ones followed by the buffered ones, and everything
     evaluated has reached the result.  `lists` are the lists announced so far.
     */
    ghost predicate Consistent(produced: seq<LambdaRow>, lists: seq<seq<LambdaRow>>)
      requires Valid()
      reads Repr()
    {
      && elemCnt <= batchSize
      && evaluated <= produced <= Flatten(lists)
      && |produced| == |evaluated| + elemCnt
      && Pending(produced[|evaluated|..])
      && child == Image(functor, chunk.lambda, evaluated)
      && Announced(lists)
    }

    /** The buffers hold the rows `pending`. */
    ghost predicate Pending(pending: seq<LambdaRow>)
      requires Valid() && |pending| <= batchSize
      reads childSel, indexVector, set c <- columnInfos :: c.sel
    {
      forall i :: 0 <= i < |pending| ==> Buffered(i, pending[i])
    }

    /** The parts of the result that do not wait for the lambda. */
    ghost predicate Announced(lists: seq<seq<LambdaRow>>)
      requires Valid()
      reads Repr()
    {
      && |lists| <= |chunk.list.sel|
      && (forall r :: 0 <= r < |chunk.list.sel| ==> validity[r] == (r < |lists| ==> chunk.list.RowIsValid(r)))
      && (functor.Filter? ==> filterInfo.Behind(chunk.lambda, lists, |evaluated|, entries))
      && (functor.Transform? ==> Recorded(lists))
    }

    /** list_transform knows offset and length of a list before its elements are executed. */
    ghost predicate Recorded(lists: seq<seq<LambdaRow>>)
      requires Valid() && |lists| <= |chunk.list.sel|
      reads this`offset, entries
    {
      && offset == |Flatten(lists)|
      && (forall r :: 0 <= r < |lists| && chunk.list.RowIsValid(r) ==>
            entries[r] == ListEntry(|Flatten(lists[..r])|, |lists[r]|))
    }

    lemma RecordedNext(lists: seq<seq<LambdaRow>>, list: seq<LambdaRow>, before: nat)
      requires Valid() && |lists| < |chunk.list.sel|
      requires before == |Flatten(lists)| && offset == before + |list|
      requires forall r :: 0 <= r < |lists| && chunk.list.RowIsValid(r) ==>
        entries[r] == ListEntry(|Flatten(lists[..r])|, |lists[r]|)
      requires chunk.list.RowIsValid(|lists|) ==> entries[|lists|] == ListEntry(before, |list|)
      ensures Recorded(lists + [list])
    {
      FlattenAppend(lists, list);
    }

    /** Slices the columns, fills the input chunk and evaluates the lambda on it. */
    method ExecuteExpression(ghost pending: seq<LambdaRow>)
      requires Valid() && elemCnt == |pending| <= batchSize && Pending(pending)
      modifies this`inputChunk, this`lambdaChunk, this`evaluated
      ensures inputChunk == pending && lambdaChunk == chunk.lambda.Mapped(pending)
      ensures evaluated == old(evaluated) + pending
    {
      var rows: seq<LambdaRow> := [];
      var results: seq<Value> := [];
      for i := 0 to elemCnt
        invariant rows == pending[..i] && results == chunk.lambda.Mapped(pending[..i])
      {
        assert Buffered(i, pending[i]);
        var captured: seq<Value> := [];
        for c := 0 to |columnInfos|
          invariant captured == pending[i].captured[..c]
        {
          var info := columnInfos[c];
          assert info.Holds(i, pending[i].captured[c]);
          captured := captured + [info.column.At(if info.column.constant then 0 else info.sel[i])];
        }
        var index := if chunk.lambda.hasIndex then Some(indexVector[i]) else None;
        var row := LambdaRow(index, chunk.list.child[childSel[i]], captured);
        assert row == pending[i];
        rows := rows + [row];
        results := results + [chunk.lambda.body(row)];
      }
      inputChunk, lambdaChunk := rows, results;
      evaluated := evaluated + pending;
    }

    /** ListVector::Append of the lambda vector, or of the source elements that the lambda vector keeps. */
    method AppendResult(ghost done: seq<LambdaRow>, ghost lists: seq<seq<LambdaRow>>)
      requires Valid()
      requires evaluated == done + inputChunk && evaluated <= Flatten(lists)
      requires elemCnt == |inputChunk| && lambdaChunk == chunk.lambda.Mapped(inputChunk)
      requires child == Image(functor, chunk.lambda, done)
      requires functor.Filter? ==> filterInfo.Behind(chunk.lambda, lists, |done|, entries)
      modifies this`child, filterInfo, entries
      ensures child == Image(functor, chunk.lambda, evaluated)
      ensures functor.Filter? ==>
        && filterInfo.Behind(chunk.lambda, lists, |evaluated|, entries)
        && (filterInfo.rowIdx < |lists| ==> lists[filterInfo.rowIdx] != [])
      ensures functor.Transform? ==> entries[..] == old(entries[..])
    {
      hide Lambda.Kept, Flatten, ListFilterInfo.Behind;
      ImageConcat(functor, chunk.lambda, done, inputChunk);
      match functor
      case Transform =>
        child := child + lambdaChunk;
      case Filter =>
        var sel := filterInfo.Traverse(chunk.lambda, lists, |done|, inputChunk, lambdaChunk, entries);
        child := child + Selected(inputChunk, sel);
    }

    /** Executes the buffered rows and appends their results. */
    method Flush(ghost produced: seq<LambdaRow>, ghost lists: seq<seq<LambdaRow>>)
      requires Valid() && Consistent(produced, lists)
      modifies this`elemCnt, this`inputChunk, this`lambdaChunk, this`child, this`evaluated, filterInfo, entries
      ensures Consistent(produced, lists)
      ensures elemCnt == 0 && evaluated == produced
      ensures functor.Filter? ==> filterInfo.rowIdx < |lists| ==> lists[filterInfo.rowIdx] != []
    {
      hide Lambda.Kept, Flatten, ListFilterInfo.Behind;
      ghost var done := evaluated;
      ghost var pending := produced[|evaluated|..];
      inputChunk, lambdaChunk := [], [];
      if elemCnt > 0 {
        ExecuteExpression(pending);
      }
      assert produced == done + pending;
      AppendResult(done, lists);
      elemCnt := 0;
    }

    /** NULL row: nothing is executed. */
    method PushNull(ghost produced: seq<LambdaRow>, ghost lists: seq<seq<LambdaRow>>, row: nat)
      requires Valid() && Consistent(produced, lists)
      requires row == |lists| < |chunk.list.sel| && !chunk.list.RowIsValid(row)
      modifies validity, filterInfo
      ensures Consistent(produced, lists + [[]]) && elemCnt == old(elemCnt)
    {
      hide Lambda.Kept, Flatten, ListFilterInfo.Behind;
      FlattenGrows(lists, []);
      validity[row] := false;
      if functor.Filter? {
        filterInfo.PushLength(chunk.lambda, lists, |evaluated|, [], 0, entries);
      } else {
        RecordedNext(lists, [], offset);
      }
      assert Announced(lists + [[]]);
    }

    /** Announces the list of a valid row: its result entry, or its source length. */
    method SetResultEntry(ghost produced: seq<LambdaRow>, ghost lists: seq<seq<LambdaRow>>, row: nat)
      requires Valid() && Consistent(produced, lists)
      requires row == |lists| < |chunk.list.sel| && chunk.list.RowIsValid(row)
      modifies this`offset, filterInfo, entries
      ensures Consistent(produced, lists + [chunk.Rows(row)]) && elemCnt == old(elemCnt)
    {
      hide Lambda.Kept, Flatten, ListFilterInfo.Behind;
      FlattenGrows(lists, chunk.Rows(row));
      var len := chunk.list.entries[chunk.list.sel[row]].length;
      match functor {
        case Transform =>
          ghost var before := offset;
          entries[row] := ListEntry(offset, len);
          offset := offset + len;
          RecordedNext(lists, chunk.Rows(row), before);
        case Filter =>
          filterInfo.PushLength(chunk.lambda, lists, |evaluated|, chunk.Rows(row), len, entries);
      }
      assert Announced(lists + [chunk.Rows(row)]);
    }

    /** Points the mutable columns at `row` for the next position. */
    method SetColumnRows(row: nat)
      requires Valid() && elemCnt < batchSize && row < |chunk.list.sel|
      modifies set c <- columnInfos :: c.sel
      ensures forall c <- columnInfos :: c.sel[..elemCnt] == old(c.sel[..elemCnt])
      ensures forall c <- columnInfos :: !c.column.constant ==> c.sel[elemCnt] == row
    {
      assert forall d <- mutableColumns :: d in columnInfos && d.sel.Length == batchSize;
      for c := 0 to |mutableColumns|
        invariant forall d <- columnInfos :: d.sel[..elemCnt] == old(d.sel[..elemCnt])
        invariant forall d <- mutableColumns[..c] :: d.sel[elemCnt] == row
      {
        assert mutableColumns[c] in columnInfos;
        mutableColumns[c].sel[elemCnt] := row;
      }
    }

    /** Writes the next element of the current list into the buffers. */
    method PushElement(ghost produced: seq<LambdaRow>, ghost lists: seq<seq<LambdaRow>>, row: nat, k: nat)
      requires Valid() && Consistent(produced, lists) && elemCnt < batchSize
      requires row < |chunk.list.sel| && k < chunk.list.Length(row)
      requires produced + [chunk.Row(row, k)] <= Flatten(lists)
      modifies this`elemCnt, childSel, indexVector, set c <- columnInfos :: c.sel
      ensures Consistent(produced + [chunk.Row(row, k)], lists) && elemCnt == old(elemCnt) + 1
    {
      hide Lambda.Kept, Flatten, ListFilterInfo.Behind;
      ghost var pending := produced[|evaluated|..];
      childSel[elemCnt] := chunk.list.entries[chunk.list.sel[row]].offset + k;
      if chunk.lambda.hasIndex {
        indexVector[elemCnt] := k + chunk.lambda.indexOffset;
      }
      SetColumnRows(row);
      PendingUnchanged(pending);
      NextIsBuffered(row, k);
      assert Pending(pending + [chunk.Row(row, k)]);
      elemCnt := elemCnt + 1;
      assert (produced + [chunk.Row(row, k)])[|evaluated|..] == pending + [chunk.Row(row, k)];
      assert Announced(lists);
    }

    /** Writing position elemCnt of the buffers leaves the rows before it alone. */
    twostate lemma PendingUnchanged(pending: seq<LambdaRow>)
      requires Valid() && |pending| <= batchSize && old(Pending(pending))
      requires childSel[..|pending|] == old(childSel[..|pending|])
      requires indexVector[..|pending|] == old(indexVector[..|pending|])
      requires forall c <- columnInfos :: c.sel[..|pending|] == old(c.sel[..|pending|])
      ensures Pending(pending)
    {
      forall i | 0 <= i < |pending| ensures Buffered(i, pending[i]) {
        assert old(Buffered(i, pending[i]));
        assert childSel[..|pending|][i] == childSel[i] && indexVector[..|pending|][i] == indexVector[i];
        forall c | 0 <= c < |columnInfos| ensures columnInfos[c].Holds(i, pending[i].captured[c]) {
          assert old(columnInfos[c].Holds(i, pending[i].captured[c]));
          assert columnInfos[c] in columnInfos;
          assert columnInfos[c].sel[..|pending|][i] == columnInfos[c].sel[i];
          assert old(columnInfos[c].sel[..|pending|])[i] == old(columnInfos[c].sel[i]);
        }
      }
    }

    /** One iteration of the row loop. */
    method ExecuteRow(row: nat)
      requires Valid() && row < |chunk.list.sel| && elemCnt <= batchSize
      requires Consistent(Flatten(chunk.Lists(row)), chunk.Lists(row))
      modifies Repr()
      ensures elemCnt <= batchSize
      ensures Consistent(Flatten(chunk.Lists(row + 1)), chunk.Lists(row + 1))
    {
      hide Lambda.Kept, Flatten, Consistent;
      ghost var before := Flatten(chunk.Lists(row));
      ghost var rows := chunk.Rows(row);
      ghost var lists := chunk.Lists(row + 1);
      assert lists == chunk.Lists(row) + [rows];
      FlattenGrows(chunk.Lists(row), rows);
      if !chunk.list.RowIsValid(row) {
        assert rows == [] && before + rows == before;
        PushNull(before, chunk.Lists(row), row);
        return;
      }
      SetResultEntry(before, chunk.Lists(row), row);
      var len := chunk.list.entries[chunk.list.sel[row]].length;
      assert before + rows[..0] == before;
      for k := 0 to len
        invariant elemCnt <= batchSize
        invariant Consistent(before + rows[..k], lists)
      {
        if elemCnt == batchSize {
          Flush(before + rows[..k], lists);
        }
        assert before + rows[..k] + [chunk.Row(row, k)] == before + rows[..k + 1];
        PushElement(before + rows[..k], lists, row, k);
      }
      assert rows[..len] == rows;
    }

    /** When everything has been announced and executed, every entry names the expected list. */
    lemma AllAssembled(lists: seq<seq<LambdaRow>>)
      requires Valid() && Consistent(Flatten(lists), lists)
      requires lists == chunk.Lists(|chunk.list.sel|)
      requires elemCnt == 0 && evaluated == Flatten(lists)
      requires functor.Filter? ==> filterInfo.rowIdx < |lists| ==> lists[filterInfo.rowIdx] != []
      ensures chunk.Refines(functor, ListResult(child, entries[..], validity[..]))
    {
      hide Lambda.Kept, Flatten, Names;
      var expected := Images(functor, chunk.lambda, lists);
      FlattenImages(functor, chunk.lambda, lists);
      if functor.Filter? {
        CursorAtEnd(lists);
      }
      forall r | 0 <= r < |lists| && (functor.Filter? || chunk.list.RowIsValid(r))
        ensures Names(expected, child, entries[..][r], r)
      {
        FlattenImages(functor, chunk.lambda, lists[..r]);
        assert expected[..r] == Images(functor, chunk.lambda, lists[..r]);
        NamesFromBounds(expected, entries[r], r);
      }
    }

    lemma CursorAtEnd(lists: seq<seq<LambdaRow>>)
      requires Valid() && filterInfo.Behind(chunk.lambda, lists, |Flatten(lists)|, entries)
      requires filterInfo.rowIdx < |lists| ==> lists[filterInfo.rowIdx] != []
      ensures filterInfo.rowIdx == |lists|
    {
      if filterInfo.rowIdx < |lists| {
        ElementOfFlatten(lists, filterInfo.rowIdx, |lists[filterInfo.rowIdx]| - 1);
      }
    }

    lemma NextIsBuffered(row: nat, k: nat)
      requires Valid() && elemCnt < batchSize
      requires row < |chunk.list.sel| && k < chunk.list.Length(row)
      requires childSel[elemCnt] == chunk.list.entries[chunk.list.sel[row]].offset + k
      requires chunk.lambda.hasIndex ==> indexVector[elemCnt] == k + chunk.lambda.indexOffset
      requires forall c <- columnInfos :: !c.column.constant ==> c.sel[elemCnt] == row
      ensures Buffered(elemCnt, chunk.Row(row, k))
    {
      forall c | 0 <= c < |columnInfos| ensures columnInfos[c].Holds(elemCnt, chunk.Row(row, k).captured[c]) {
        assert columnInfos[c] in columnInfos;
        assert chunk.columns[c].Covers(|chunk.list.sel|);
      }
    }
  }

  lemma FlattenGrows<T>(lists: seq<seq<T>>, list: seq<T>)
    ensures Flatten(lists) <= Flatten(lists + [list]) == Flatten(lists) + list
  {
    assert (lists + [list])[..|lists|] == lists;
  }

  lemma FlattenAppend<T>(lists: seq<seq<T>>, list: seq<T>)
    ensures Flatten(lists + [list]) == Flatten(lists) + list
    ensures forall r :: 0 <= r < |lists| ==> (lists + [list])[..r] == lists[..r]
    ensures (lists + [list])[..|lists|] == lists
  {
    assert (lists + [list])[..|lists|] == lists;
  }

  /** The column infos belong to the columns, do not share buffers, and the mutable ones are picked out. */
  ghost predicate BatchColumns(infos: seq<ColumnInfo>, mutable: seq<ColumnInfo>, columns: seq<Column>, batchSize: nat) {
    && |infos| == |columns|
    && (forall c :: 0 <= c < |infos| ==> infos[c].column == columns[c] && infos[c].sel.Length == batchSize)
    && (forall c, d :: 0 <= c < d < |infos| ==> infos[c].sel != infos[d].sel)
    && (forall c <- infos :: c in mutable <==> !c.column.constant)
    && (forall c <- mutable :: c in infos)
  }

  // ---------------------------------------------------------------------------
  // list_transform and list_filter
  // ---------------------------------------------------------------------------

  method GetColumnInfo(args: seq<Argument>, batchSize: nat) returns (data: seq<ColumnInfo>)
    ensures |data| == |Columns(args)|
    ensures forall c :: 0 <= c < |data| ==> data[c].column == Columns(args)[c] && data[c].sel.Length == batchSize
    ensures forall c :: 0 <= c < |data| ==> fresh(data[c]) && fresh(data[c].sel)
    ensures forall c, d :: 0 <= c < d < |data| ==> data[c].sel != data[d].sel
  {
    data := [];
    for i := 0 to |args|
      invariant |data| == |Columns(args[..i])|
      invariant forall c :: 0 <= c < |data| ==>
        data[c].column == Columns(args[..i])[c] && data[c].sel.Length == batchSize
      invariant forall c :: 0 <= c < |data| ==> fresh(data[c]) && fresh(data[c].sel)
      invariant forall c, d :: 0 <= c < d < |data| ==> data[c].sel != data[d].sel
    {
      assert args[..i + 1][..i] == args[..i];
      if args[i].LambdaPlaceholder? {
        continue;
      }
      var info := new ColumnInfo(args[i].column, batchSize);
      data := data + [info];
    }
    assert args[..|args|] == args;
  }

  method GetMutableColumnInfo(data: seq<ColumnInfo>) returns (inconstantInfo: seq<ColumnInfo>)
    ensures forall c <- data :: c in inconstantInfo <==> !c.column.constant
    ensures forall c <- inconstantInfo :: c in data
  {
    inconstantInfo := [];
    for i := 0 to |data|
      invariant forall c <- data[..i] :: c in inconstantInfo <==> !c.column.constant
      invariant forall c <- inconstantInfo :: c in data[..i] && !c.column.constant
    {
      if !data[i].column.constant {
        inconstantInfo := inconstantInfo + [data[i]];
      }
    }
  }

  /**
   For every batch size, the result is what the functor yields row by row, and every element of every
   valid list is handed to the lambda exactly once, with its own index and its own row's captures.
   */
  method ExecuteLambda(functor: Functor, list: ListColumn, lambda: Lambda, args: seq<Argument>, batchSize: nat)
    returns (result: ListResult, ghost evaluated: seq<LambdaRow>)
    requires batchSize >= 1
    requires Chunk(list, lambda, Columns(args)).Valid()
    ensures Chunk(list, lambda, Columns(args)).Refines(functor, result)
    ensures evaluated == Flatten(Chunk(list, lambda, Columns(args)).Lists(|list.sel|))
    ensures list.Valid() && HandsOver(list, lambda, args, evaluated)
    ensures functor.Transform? ==> Transforms(list, lambda, evaluated, result)
    ensures functor.Filter? ==> Filters(list, lambda, evaluated, result)
  {
    assert Flatten<LambdaRow>([]) == [];
    hide Lambda.Kept, Flatten, Chunk.Refines, LambdaExecution.Consistent, Chunk.Valid, Chunk.Lists, Columns,
      HandsOver, Transforms, Filters;
    var chunk := Chunk(list, lambda, Columns(args));
    var columnInfos := GetColumnInfo(args, batchSize);
    var mutableColumns := GetMutableColumnInfo(columnInfos);
    var run := new LambdaExecution(functor, chunk, batchSize, columnInfos, mutableColumns);
    assert chunk.Lists(0) == [];
    for row := 0 to |list.sel|
      invariant run.elemCnt <= batchSize
      invariant run.Consistent(Flatten(chunk.Lists(row)), chunk.Lists(row))
    {
      run.ExecuteRow(row);
    }
    ghost var lists := chunk.Lists(|list.sel|);
    run.Flush(Flatten(lists), lists);
    result := ListResult(run.child, run.entries[..], run.validity[..]);
    evaluated := run.evaluated;
    run.AllAssembled(lists);
    AllMeaning(functor, chunk, args, result);
  }

  lemma AllMeaning(functor: Functor, chunk: Chunk, args: seq<Argument>, out: ListResult)
    requires chunk.Valid() && chunk.columns == Columns(args) && chunk.Refines(functor, out)
    ensures var all := Flatten(chunk.Lists(|chunk.list.sel|));
      && chunk.list.Valid() && HandsOver(chunk.list, chunk.lambda, args, all)
      && (functor.Transform? ==> Transforms(chunk.list, chunk.lambda, all, out))
      && (functor.Filter? ==> Filters(chunk.list, chunk.lambda, all, out))
  {
    hide Flatten, Chunk.Refines, HandsOver, Transforms, Filters;
    HandedOver(chunk, args);
    if functor.Transform? {
      TransformMeaning(chunk, out);
    } else {
      FilterMeaning(chunk, out);
    }
  }
}
