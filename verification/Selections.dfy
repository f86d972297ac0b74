/** Elements picked from a sequence by a property, in order. */
module Selections {

  /** `picked` are the elements of `s` from position `low` on that have the property, in order, and `pos` where they stand. */
  ghost predicate PicksAt<T>(s: seq<T>, low: nat, keep: T -> bool, picked: seq<T>, pos: seq<nat>) {
    && |pos| == |picked| && Rising(pos)
    && (forall c :: 0 <= c < |pos| ==> low <= pos[c] < |s| && keep(s[pos[c]]) && picked[c] == s[pos[c]])
    && (forall i :: low <= i < |s| && keep(s[i]) ==> i in pos)
  }

  predicate Rising(pos: seq<nat>) {
    forall c, d :: 0 <= c < d < |pos| ==> pos[c] < pos[d]
  }

  ghost predicate Picks<T>(s: seq<T>, low: nat, keep: T -> bool, picked: seq<T>) {
    exists pos :: PicksAt(s, low, keep, picked, pos)
  }

  lemma PicksMore<T>(s: seq<T>, low: nat, keep: T -> bool, picked: seq<T>)
    requires low < |s| && Picks(s, low + 1, keep, picked)
    ensures Picks(s, low, keep, (if keep(s[low]) then [s[low]] else []) + picked)
  {
    var pos :| PicksAt(s, low + 1, keep, picked, pos);
    if keep(s[low]) {
      PicksFirst(s, low, keep, picked, pos);
    } else {
      assert [] + picked == picked;
      assert PicksAt(s, low, keep, picked, pos);
    }
  }

  lemma PicksFirst<T>(s: seq<T>, low: nat, keep: T -> bool, picked: seq<T>, pos: seq<nat>)
    requires low < |s| && keep(s[low]) && PicksAt(s, low + 1, keep, picked, pos)
    ensures PicksAt(s, low, keep, [s[low]] + picked, [low] + pos)
  {
    var q := [low] + pos;
    RisingFirst(low, pos);
    hide Rising;
    forall i | low <= i < |s| && keep(s[i]) ensures i in q {
      if i == low {
        assert q[0] == i;
      } else {
        assert i in pos;
      }
    }
  }

  lemma RisingFirst(low: nat, pos: seq<nat>)
    requires Rising(pos) && forall c :: 0 <= c < |pos| ==> low < pos[c]
    ensures Rising([low] + pos)
  {}

  lemma PicksNone<T>(s: seq<T>, keep: T -> bool)
    ensures Picks(s, |s|, keep, [])
  {
    assert PicksAt(s, |s|, keep, [], []);
  }
}
