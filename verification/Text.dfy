/** Strings as the scripts use them: stripping, words, suffixes and the order of sorted(). */
module Text {

  /** The white space that Python strips and splits at. */
  predicate IsSpace(c: char) {
    var n := c as int;
    || 9 <= n <= 13 || 0x1C <= n <= 0x20 || n == 0x85 || n == 0xA0 || n == 0x1680 || 0x2000 <= n <= 0x200A
    || n == 0x2028 || n == 0x2029 || n == 0x202F || n == 0x205F || n == 0x3000
  }

  function LeftStrip(s: string): (r: string)
    ensures |r| <= |s| && s[|s| - |r|..] == r && (r != "" ==> !IsSpace(r[0]))
  {
    if s != "" && IsSpace(s[0]) then LeftStrip(s[1..]) else s
  }

  function RightStrip(s: string): (r: string)
    ensures |r| <= |s| && s[..|r|] == r && (r != "" ==> !IsSpace(r[|r| - 1]))
    ensures s != "" && !IsSpace(s[|s| - 1]) ==> r == s
  {
    if s != "" && IsSpace(s[|s| - 1]) then RightStrip(s[..|s| - 1]) else s
  }

  function Strip(s: string): string {
    RightStrip(LeftStrip(s))
  }

  /** The number of words: the places where a word ends. */
  function WordCount(s: string): nat {
    if s == "" then 0
    else (if !IsSpace(s[0]) && (|s| == 1 || IsSpace(s[1])) then 1 else 0) + WordCount(s[1..])
  }

  predicate EndsWith(s: string, suffix: string) {
    |s| >= |suffix| && s[|s| - |suffix|..] == suffix
  }

  lemma StripKeepsSolidEnd(s: string)
    requires s != "" && !IsSpace(s[|s| - 1])
    ensures Strip(s) == LeftStrip(s) != ""
  {
    LeftStripEnd(s);
  }

  lemma {:induction false} LeftStripEnd(s: string)
    requires s != "" && !IsSpace(s[|s| - 1])
    ensures LeftStrip(s) != "" && LeftStrip(s)[|LeftStrip(s)| - 1] == s[|s| - 1]
  {
    if IsSpace(s[0]) {
      LeftStripEnd(s[1..]);
    }
  }

  /** The characters of Unicode that Python calls white space, by code point. */
  const WHITE_SPACE: set<int> := {
    9, 10, 11, 12, 13, 28, 29, 30, 31, 32, 133, 160, 5760,
    8192, 8193, 8194, 8195, 8196, 8197, 8198, 8199, 8200, 8201, 8202, 8232, 8233, 8239, 8287, 12288}

  lemma SpaceMeaning(c: char)
    ensures IsSpace(c) <==> c as int in WHITE_SPACE
  {}

  predicate AllWhite(s: string) {
    forall i :: 0 <= i < |s| ==> IsSpace(s[i])
  }

  /** `core` is what lies between white space at both ends, which do not belong to it. */
  predicate Core(s: string, before: string, core: string, after: string) {
    && s == before + core + after && AllWhite(before) && AllWhite(after)
    && (core != "" ==> !IsSpace(core[0]) && !IsSpace(core[|core| - 1]))
  }

  lemma {:induction false} LeftStripMeaning(s: string)
    ensures AllWhite(s[..|s| - |LeftStrip(s)|])
  {
    hide IsSpace;
    if s != "" && IsSpace(s[0]) {
      LeftStripMeaning(s[1..]);
      var n := |s| - |LeftStrip(s)|;
      forall i | 0 <= i < n ensures IsSpace(s[i]) {
        assert i > 0 ==> s[i] == s[1..][..n - 1][i - 1];
      }
    }
  }

  lemma {:induction false} RightStripMeaning(s: string)
    ensures AllWhite(s[|RightStrip(s)|..])
  {
    hide IsSpace;
    if s != "" && IsSpace(s[|s| - 1]) {
      var n := |s| - 1;
      RightStripMeaning(s[..n]);
      forall i | |RightStrip(s)| <= i < |s| ensures IsSpace(s[i]) {
        assert i < n ==> s[i] == s[..n][|RightStrip(s)|..][i - |RightStrip(s)|];
      }
    }
  }

  /** strip() leaves what is between the white space at both ends. */
  lemma StripMeaning(s: string) returns (before: string, after: string)
    ensures Core(s, before, Strip(s), after)
  {
    var l := LeftStrip(s);
    var r := RightStrip(l);
    LeftStripMeaning(s);
    RightStripMeaning(l);
    hide LeftStrip, RightStrip, IsSpace;
    before, after := s[..|s| - |l|], l[|r|..];
    assert r != "" ==> r[0] == l[0];
    hide AllWhite;
    Parts(s, |s| - |l|);
    Parts(l, |r|);
    ThreeParts(before, r, after);
  }

  lemma Parts(s: string, n: nat)
    requires n <= |s|
    ensures s == s[..n] + s[n..]
  {}

  lemma ThreeParts(a: string, b: string, c: string)
    ensures a + (b + c) == a + b + c
  {}

  /** A single word: something is left after stripping, and no white space is inside it. */
  ghost predicate IsWord(s: string) {
    exists i, j :: WordAt(s, i, j)
  }

  predicate WordAt(s: string, i: int, j: int) {
    0 <= i < j <= |s| && forall k :: 0 <= k < |s| ==> (IsSpace(s[k]) <==> !(i <= k < j))
  }

  lemma {:induction false} NoWords(s: string)
    ensures WordCount(s) == 0 <==> AllWhite(s)
  {
    hide IsSpace;
    if s != "" {
      NoWords(s[1..]);
      assert AllWhite(s) <==> IsSpace(s[0]) && AllWhite(s[1..]) by {
        assert forall k :: 0 < k < |s| ==> s[k] == s[1..][k - 1];
      }
      if !IsSpace(s[0]) && |s| > 1 && !IsSpace(s[1]) {
        assert !IsSpace(s[1..][0]);
      }
    }
  }

  /** There is one word exactly if the characters that are no white space stand together. */
  lemma {:induction false} OneWord(s: string)
    ensures WordCount(s) == 1 <==> IsWord(s)
  {
    hide IsSpace;
    if s != "" {
      var rest := s[1..];
      OneWord(rest);
      NoWords(rest);
      if IsSpace(s[0]) {
        WordBehindSpace(s);
      } else if |s| == 1 || IsSpace(s[1]) {
        WordOfOne(s);
      } else {
        WordGoesOn(s);
      }
    }
  }

  lemma WordBehindSpace(s: string)
    requires s != "" && IsSpace(s[0])
    ensures IsWord(s) <==> IsWord(s[1..])
  {
    hide IsSpace;
    if IsWord(s) {
      var i, j :| WordAt(s, i, j);
      assert WordAt(s[1..], i - 1, j - 1);
    }
    if IsWord(s[1..]) {
      var i, j :| WordAt(s[1..], i, j);
      assert forall k :: 0 < k < |s| ==> s[k] == s[1..][k - 1];
      assert WordAt(s, i + 1, j + 1);
    }
  }

  lemma WordOfOne(s: string)
    requires s != "" && !IsSpace(s[0]) && (|s| == 1 || IsSpace(s[1]))
    ensures IsWord(s) <==> AllWhite(s[1..])
  {
    hide IsSpace;
    if IsWord(s) {
      var i, j :| WordAt(s, i, j);
      assert i == 0 && j == 1;
    }
    if AllWhite(s[1..]) {
      assert forall k :: 0 < k < |s| ==> s[k] == s[1..][k - 1];
      assert WordAt(s, 0, 1);
    }
  }

  lemma WordGoesOn(s: string)
    requires |s| > 1 && !IsSpace(s[0]) && !IsSpace(s[1])
    ensures IsWord(s) <==> IsWord(s[1..])
  {
    hide IsSpace;
    if IsWord(s) {
      var i, j :| WordAt(s, i, j);
      assert i == 0 && j > 1;
      assert WordAt(s[1..], 0, j - 1);
    }
    if IsWord(s[1..]) {
      var i, j :| WordAt(s[1..], i, j);
      assert s[1..][0] == s[1];
      assert forall k :: 0 < k < |s| ==> s[k] == s[1..][k - 1];
      assert WordAt(s, 0, j + 1);
    }
  }

  // ---------------------------------------------------------------------------
  // Order
  // ---------------------------------------------------------------------------

  predicate Less(a: string, b: string) {
    if b == "" then false
    else if a == "" then true
    else if a[0] != b[0] then a[0] < b[0]
    else Less(a[1..], b[1..])
  }

  lemma {:induction false} LessIrreflexive(a: string)
    ensures !Less(a, a)
  {
    if a != "" {
      LessIrreflexive(a[1..]);
    }
  }

  lemma {:induction false} LessTotal(a: string, b: string)
    ensures a == b || Less(a, b) || Less(b, a)
  {
    if a != "" && b != "" && a[0] == b[0] {
      LessTotal(a[1..], b[1..]);
      assert a == [a[0]] + a[1..] && b == [b[0]] + b[1..];
    }
  }

  lemma {:induction false} LessTransitive(a: string, b: string, c: string)
    requires Less(a, b) && Less(b, c)
    ensures Less(a, c)
  {
    if a != "" && b != "" && c != "" && a[0] == b[0] == c[0] {
      LessTransitive(a[1..], b[1..], c[1..]);
    }
  }

  /** a ends where b goes on, or has the smaller character at the first place where they differ. */
  ghost predicate Precedes(a: string, b: string) {
    (|a| < |b| && b[..|a|] == a) || exists k: nat :: SmallerAt(a, b, k)
  }

  predicate SmallerAt(a: string, b: string, k: nat) {
    k < |a| && k < |b| && a[..k] == b[..k] && a[k] < b[k]
  }

  /** The order is that of the dictionary, by characters. */
  lemma {:induction false} LessMeaning(a: string, b: string)
    ensures Less(a, b) <==> Precedes(a, b)
  {
    if a != "" && b != "" && a[0] == b[0] {
      LessMeaning(a[1..], b[1..]);
      PrecedesTail(a, b);
    } else if b != "" && a != "" {
      assert a[0] < b[0] ==> SmallerAt(a, b, 0);
      assert forall k: nat :: 0 < k && k < |a| && k < |b| ==> a[..k][0] != b[..k][0];
    }
  }

  lemma PrecedesTail(a: string, b: string)
    requires a != "" && b != "" && a[0] == b[0]
    ensures Precedes(a, b) <==> Precedes(a[1..], b[1..])
  {
    assert a == [a[0]] + a[1..] && b == [b[0]] + b[1..];
    if |a| < |b| {
      assert b[..|a|] == [b[0]] + b[1..][..|a| - 1];
      assert b[..|a|] == a ==> b[1..][..|a| - 1] == a[1..];
    }
    if exists k: nat :: SmallerAt(a, b, k) {
      var k: nat :| SmallerAt(a, b, k);
      assert a[..k][1..] == a[1..][..k - 1] && b[..k][1..] == b[1..][..k - 1];
      assert SmallerAt(a[1..], b[1..], k - 1);
    }
    if exists k: nat :: SmallerAt(a[1..], b[1..], k) {
      var k: nat :| SmallerAt(a[1..], b[1..], k);
      assert a[..k + 1] == [a[0]] + a[1..][..k] && b[..k + 1] == [b[0]] + b[1..][..k];
      assert SmallerAt(a, b, k + 1);
    }
  }

  predicate Ascending(names: seq<string>) {
    forall i, j :: 0 <= i < j < |names| ==> Less(names[i], names[j])
  }

  function Insert(names: seq<string>, x: string): (r: seq<string>)
    requires Ascending(names) && x !in names
    ensures (forall y :: y in r <==> y == x || y in names)
  {
    if names == [] || Less(x, names[0]) then [x] + names
    else
      assert names == [names[0]] + names[1..];
      [names[0]] + Insert(names[1..], x)
  }

  lemma {:induction false} InsertAscending(names: seq<string>, x: string)
    requires Ascending(names) && x !in names
    ensures Ascending(Insert(names, x))
  {
    var r := Insert(names, x);
    hide Less;
    if names == [] {
    } else if Less(x, names[0]) {
      forall j | 0 < j < |r| ensures Less(x, r[j]) {
        if j > 1 {
          LessTransitive(x, names[0], names[j - 1]);
        }
      }
    } else {
      LessTotal(x, names[0]);
      InsertAscending(names[1..], x);
      var rest := Insert(names[1..], x);
      forall j | 0 < j < |r| ensures Less(r[0], r[j]) {
        assert r[j] == rest[j - 1] && rest[j - 1] in rest;
        if r[j] != x {
          var k :| 0 <= k < |names[1..]| && names[1..][k] == r[j];
          assert names[k + 1] == r[j];
        }
      }
    }
  }

  /** sorted() of a set of names. */
  ghost function Sorted(names: set<string>): (r: seq<string>)
    ensures Ascending(r) && forall x :: x in r <==> x in names
  {
    if names == {} then []
    else
      var x :| x in names;
      var rest := Sorted(names - {x});
      InsertAscending(rest, x);
      Insert(rest, x)
  }

  /** Two ascending lists with the same elements are the same list. */
  lemma {:induction false} AscendingIsUnique(a: seq<string>, b: seq<string>)
    requires Ascending(a) && Ascending(b) && forall x :: x in a <==> x in b
    ensures a == b
  {
    hide Less;
    if a == [] {
      HasElement(b);
    } else {
      assert a[0] in b;
      assert b[0] in a;
      FirstIsLeast(a, b[0]);
      FirstIsLeast(b, a[0]);
      if a[0] != b[0] {
        LessTransitive(a[0], b[0], a[0]);
        LessIrreflexive(a[0]);
      }
      forall x ensures x in a[1..] <==> x in b[1..] {
        RestElements(a, x);
        RestElements(b, x);
      }
      AscendingIsUnique(a[1..], b[1..]);
      assert a == [a[0]] + a[1..] && b == [b[0]] + b[1..];
    }
  }

  lemma HasElement(b: seq<string>)
    ensures b != [] ==> exists x :: x in b
  {
    assert b != [] ==> b[0] in b;
  }

  lemma FirstIsLeast(a: seq<string>, x: string)
    requires Ascending(a) && x in a
    ensures x == a[0] || Less(a[0], x)
  {
    var i :| 0 <= i < |a| && a[i] == x;
    assert i > 0 ==> Less(a[0], a[i]);
  }

  lemma RestElements(a: seq<string>, x: string)
    requires Ascending(a) && a != []
    ensures x in a[1..] <==> x in a && x != a[0]
  {
    if x in a[1..] {
      var i :| 0 <= i < |a[1..]| && a[1..][i] == x;
      assert Less(a[0], a[i + 1]);
      LessIrreflexive(x);
    }
  }
}
