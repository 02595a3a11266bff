/**
 * Boolean-mask selection over sequences: `Filter(s, keep)` is what indexing a
 * table with a boolean mask does (`df[mask]`), and `Kept(keep)` is the list of
 * positions the mask selects. The lemmas say that the selected elements are
 * exactly those at the selected positions, in their original order.
 */
module Masks {

  /** The positions 0, 1, ..., n - 1. */
  function Range(n: nat): seq<int>
  {
    seq(n, i => i)
  }

  /** The elements of `s` whose mask entry is true, in their order in `s`. */
  function Filter<T>(s: seq<T>, keep: seq<bool>): (r: seq<T>)
    requires |keep| == |s|
    ensures |r| <= |s|
    decreases |s|
  {
    if |s| == 0 then []
    else
      var n := |s| - 1;
      Filter(s[..n], keep[..n]) + (if keep[n] then [s[n]] else [])
  }

  /** The positions a mask selects. */
  function Kept(keep: seq<bool>): seq<int>
  {
    Filter(Range(|keep|), keep)
  }

  /** The pointwise conjunction of two masks. */
  function And(k1: seq<bool>, k2: seq<bool>): (k: seq<bool>)
    requires |k1| == |k2|
    ensures |k| == |k1|
  {
    seq(|k1|, i requires 0 <= i < |k1| => k1[i] && k2[i])
  }

  /** Appending one element and one mask entry extends the selection by at most that element. */
  lemma FilterSnoc<T>(s: seq<T>, x: T, keep: seq<bool>, b: bool)
    requires |keep| == |s|
    ensures Filter(s + [x], keep + [b]) == Filter(s, keep) + (if b then [x] else [])
  {
    assert (s + [x])[..|s|] == s;
    assert (keep + [b])[..|s|] == keep;
  }

  /** Two sequences of the same length filtered by the same mask have the same length. */
  lemma {:induction false} FilterLength<T, U>(s: seq<T>, t: seq<U>, keep: seq<bool>)
    requires |s| == |t| == |keep|
    ensures |Filter(s, keep)| == |Filter(t, keep)|
    decreases |s|
  {
    if |s| > 0 {
      var n := |s| - 1;
      FilterLength(s[..n], t[..n], keep[..n]);
    }
  }

  /** The positions kept by a mask, grown by one entry. */
  lemma KeptSnoc(keep: seq<bool>)
    requires |keep| > 0
    ensures var n := |keep| - 1;
      Kept(keep) == Kept(keep[..n]) + (if keep[n] then [n] else [])
  {
    var n := |keep| - 1;
    assert Range(|keep|)[..n] == Range(n);
  }

  /**
   * The kept positions are in range, strictly increasing, and are exactly the
   * positions whose mask entry is true.
   */
  lemma {:induction false} KeptFacts(keep: seq<bool>)
    ensures forall k :: 0 <= k < |Kept(keep)| ==> 0 <= Kept(keep)[k] < |keep|
    ensures forall a, b :: 0 <= a < b < |Kept(keep)| ==> Kept(keep)[a] < Kept(keep)[b]
    ensures forall i :: i in Kept(keep) <==> 0 <= i < |keep| && keep[i]
    decreases |keep|
  {
    if |keep| > 0 {
      var n := |keep| - 1;
      KeptSnoc(keep);
      KeptFacts(keep[..n]);
    }
  }

  /** The k-th selected element is the element at the k-th kept position. */
  lemma {:induction false} FilterAt<T>(s: seq<T>, keep: seq<bool>)
    requires |keep| == |s|
    ensures |Filter(s, keep)| == |Kept(keep)|
    ensures forall k :: 0 <= k < |Kept(keep)| ==>
      0 <= Kept(keep)[k] < |s| && Filter(s, keep)[k] == s[Kept(keep)[k]]
    decreases |s|
  {
    KeptFacts(keep);
    if |s| > 0 {
      var n := |s| - 1;
      KeptSnoc(keep);
      FilterAt(s[..n], keep[..n]);
    }
  }

  /** A mask that keeps everything selects the whole sequence. */
  lemma {:induction false} FilterAllTrue<T>(s: seq<T>, keep: seq<bool>)
    requires |keep| == |s|
    requires forall i :: 0 <= i < |keep| ==> keep[i]
    ensures Filter(s, keep) == s
    decreases |s|
  {
    if |s| > 0 {
      var n := |s| - 1;
      FilterAllTrue(s[..n], keep[..n]);
      assert s[..n] + [s[n]] == s;
    }
  }

  /** An element is selected exactly when it sits at some position the mask keeps. */
  lemma FilterMembership<T>(s: seq<T>, keep: seq<bool>)
    requires |keep| == |s|
    ensures forall x :: x in Filter(s, keep) <==> exists i :: 0 <= i < |s| && keep[i] && s[i] == x
  {
    FilterAt(s, keep);
    KeptFacts(keep);
    forall x | x in Filter(s, keep) ensures exists i :: 0 <= i < |s| && keep[i] && s[i] == x {
      var k :| 0 <= k < |Filter(s, keep)| && Filter(s, keep)[k] == x;
      assert Kept(keep)[k] in Kept(keep);
    }
    forall x | exists i :: 0 <= i < |s| && keep[i] && s[i] == x ensures x in Filter(s, keep) {
      var i :| 0 <= i < |s| && keep[i] && s[i] == x;
      var k :| 0 <= k < |Kept(keep)| && Kept(keep)[k] == i;
      assert Filter(s, keep)[k] == x;
    }
  }
}
