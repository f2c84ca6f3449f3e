/** Positional and keyed deletion (`itemremover`, my_termextract.py:1-22): the deletion
    counterpart of `operator.itemgetter`. A string and a tuple are both sequences here;
    a mapping is its list of entries in key order. */
module Removal {
  import opened Faults

  /** The elements of `s` at positions `lo` and after whose index is not in `items`, in
      their original order. */
  function KeptFrom<T>(s: seq<T>, items: seq<int>, lo: nat): (r: seq<T>)
    ensures |r| <= |s| - lo || (lo >= |s| && r == [])
    decreases |s| - lo
  {
    if lo >= |s| then []
    else (if lo in items then [] else [s[lo]]) + KeptFrom(s, items, lo + 1)
  }

  /** The comprehension branch of `itemremover` on a sequence: every element whose index
      is not among `items`, in order. */
  function Kept<T>(s: seq<T>, items: seq<int>): (r: seq<T>)
    ensures |r| <= |s|
  {
    KeptFrom(s, items, 0)
  }

  /** Reference definition: the indices in `lo..n` that are not in `items`, ascending. */
  function Survivors(n: nat, items: seq<int>, lo: nat): (r: seq<nat>)
    ensures forall t :: 0 <= t < |r| ==> lo <= r[t] < n && r[t] !in items
    ensures forall t, u :: 0 <= t < u < |r| ==> r[t] < r[u]
    ensures forall x: nat :: lo <= x < n && x !in items ==> x in r
    decreases n - lo
  {
    if lo >= n then []
    else (if lo in items then [] else [lo]) + Survivors(n, items, lo + 1)
  }

  /** The kept elements are exactly the elements at the surviving indices, in order. */
  lemma {:induction false} KeptFromIsSurvivors<T>(s: seq<T>, items: seq<int>, lo: nat)
    ensures |KeptFrom(s, items, lo)| == |Survivors(|s|, items, lo)|
    ensures forall t :: 0 <= t < |KeptFrom(s, items, lo)| ==>
              KeptFrom(s, items, lo)[t] == s[Survivors(|s|, items, lo)[t]]
    decreases |s| - lo
  {
    if lo < |s| {
      KeptFromIsSurvivors(s, items, lo + 1);
    }
  }

  /** `Kept` agrees with the reference: it lists `s` at every index outside `items`,
      ascending, and nothing else. */
  lemma KeptIsSurvivors<T>(s: seq<T>, items: seq<int>)
    ensures |Kept(s, items)| == |Survivors(|s|, items, 0)|
    ensures forall t :: 0 <= t < |Kept(s, items)| ==>
              Kept(s, items)[t] == s[Survivors(|s|, items, 0)[t]]
  {
    KeptFromIsSurvivors(s, items, 0);
  }

  lemma {:induction false} KeptFromNone<T>(s: seq<T>, items: seq<int>, lo: nat)
    requires lo <= |s|
    requires forall i :: lo <= i < |s| ==> i !in items
    ensures KeptFrom(s, items, lo) == s[lo..]
    decreases |s| - lo
  {
    if lo < |s| {
      KeptFromNone(s, items, lo + 1);
      assert s[lo..] == [s[lo]] + s[lo + 1..];
    }
  }

  /** Positions that are all removed contribute nothing. */
  lemma {:induction false} KeptFromSkip<T>(s: seq<T>, items: seq<int>, a: nat, b: nat)
    requires a <= b <= |s|
    requires forall i :: a <= i < b ==> i in items
    ensures KeptFrom(s, items, a) == KeptFrom(s, items, b)
    decreases b - a
  {
    if a < b {
      KeptFromSkip(s, items, a + 1, b);
    }
  }

  /** A kept position followed by removed positions up to `b`. */
  lemma KeptFromSpan<T>(s: seq<T>, items: seq<int>, a: nat, b: nat)
    requires a < b <= |s|
    requires a !in items
    requires forall i :: a < i < b ==> i in items
    ensures KeptFrom(s, items, a) == [s[a]] + KeptFrom(s, items, b)
  {
    KeptFromSkip(s, items, a + 1, b);
  }

  /** Removing no position of `s` (in particular, removing none at all) returns `s`. */
  lemma KeptNone<T>(s: seq<T>, items: seq<int>)
    requires forall i :: 0 <= i < |s| ==> i !in items
    ensures Kept(s, items) == s
  {
    KeptFromNone(s, items, 0);
  }

  lemma {:induction false} KeptFromAll<T>(s: seq<T>, items: seq<int>, lo: nat)
    requires forall i :: lo <= i < |s| ==> i in items
    ensures KeptFrom(s, items, lo) == []
    decreases |s| - lo
  {
    if lo < |s| {
      KeptFromAll(s, items, lo + 1);
    }
  }

  /** Removing every position returns the empty sequence. */
  lemma KeptAll<T>(s: seq<T>, items: seq<int>)
    requires forall i :: 0 <= i < |s| ==> i in items
    ensures Kept(s, items) == []
  {
    KeptFromAll(s, items, 0);
  }

  lemma {:induction false} KeptFromSameMembers<T>(s: seq<T>, a: seq<int>, b: seq<int>, lo: nat)
    requires forall i :: lo <= i < |s| ==> (i in a <==> i in b)
    ensures KeptFrom(s, a, lo) == KeptFrom(s, b, lo)
    decreases |s| - lo
  {
    if lo < |s| {
      KeptFromSameMembers(s, a, b, lo + 1);
    }
  }

  /** Only membership in `items` matters: a repeated index counts once, and order is
      irrelevant. */
  lemma KeptSameMembers<T>(s: seq<T>, a: seq<int>, b: seq<int>)
    requires forall i :: 0 <= i < |s| ==> (i in a <==> i in b)
    ensures Kept(s, a) == Kept(s, b)
  {
    KeptFromSameMembers(s, a, b, 0);
  }

  lemma {:induction false} KeptFromOne<T>(s: seq<T>, k: nat, lo: nat)
    requires lo <= k < |s|
    ensures KeptFrom(s, [k], lo) == s[lo..k] + s[k + 1..]
    decreases |s| - lo
  {
    if lo == k {
      assert lo in [k];
      KeptFromNone(s, [k], k + 1);
      assert KeptFrom(s, [k], lo) == KeptFrom(s, [k], k + 1);
      assert s[lo..k] == [];
    } else {
      assert lo !in [k];
      KeptFromOne(s, k, lo + 1);
      assert KeptFrom(s, [k], lo) == [s[lo]] + KeptFrom(s, [k], lo + 1);
      assert s[lo..k] == [s[lo]] + s[lo + 1..k];
    }
  }

  /** The single-index `del` branch agrees with the comprehension branch for a
      non-negative index in range. */
  lemma DeleteAgrees<T>(s: seq<T>, k: nat)
    requires k < |s|
    ensures s[..k] + s[k + 1..] == Kept(s, [k])
  {
    KeptFromOne(s, k, 0);
    assert s[0..k] == s[..k];
  }

  /** `itemremover(*items)(obj)` for a string or tuple `obj`. With exactly one index the
      source copies `obj` into a list and `del`s that position, which accepts a negative
      index counted from the end and raises `IndexError` outside `-|obj|..|obj|-1`; with
      any other number of indices it keeps every element whose index is not listed. */
  method ItemRemover<T>(obj: seq<T>, items: seq<int>) returns (r: Result<seq<T>>)
    ensures r.Failure? <==> |items| == 1 && !(-|obj| <= items[0] < |obj|)
    ensures r.Failure? ==> r.error == IndexOutOfRange
    ensures (forall i :: 0 <= i < |items| ==> 0 <= items[i] < |obj|) ==> r == Success(Kept(obj, items))
    ensures |items| == 1 && -|obj| <= items[0] < 0 ==> r == Success(Kept(obj, [items[0] + |obj|]))
  {
    if |items| == 1 {
      var o := obj;
      var k := items[0];
      if k < -|o| || |o| <= k {
        return Failure(IndexOutOfRange);
      }
      assert items == [k];
      var at: nat := if k < 0 then k + |o| else k;
      o := o[..at] + o[at + 1..];
      DeleteAgrees(obj, at);
      r := Success(o);
    } else {
      r := Success(Kept(obj, items));
    }
  }

  /** The values of the entries `lo..` whose key is not in `items`, in entry order. */
  function RemoveKeysFrom<K(==), V>(entries: seq<(K, V)>, items: seq<K>, lo: nat): (r: seq<V>)
    ensures |r| <= |entries| - lo || (lo >= |entries| && r == [])
    decreases |entries| - lo
  {
    if lo >= |entries| then []
    else (if entries[lo].0 in items then [] else [entries[lo].1]) + RemoveKeysFrom(entries, items, lo + 1)
  }

  /** The mapping branch of `itemremover`: a mapping, given as its entries in key order,
      yields the values of the keys not in `items`. */
  function RemoveKeys<K(==), V>(entries: seq<(K, V)>, items: seq<K>): (r: seq<V>)
    ensures |r| <= |entries|
  {
    RemoveKeysFrom(entries, items, 0)
  }

  function Values<K, V>(entries: seq<(K, V)>): (r: seq<V>)
    ensures |r| == |entries| && forall i :: 0 <= i < |r| ==> r[i] == entries[i].1
  {
    seq(|entries|, i requires 0 <= i < |entries| => entries[i].1)
  }

  /** The positions `lo..` of the entries whose key is in `items`. */
  function KeyPositions<K(==), V>(entries: seq<(K, V)>, items: seq<K>, lo: nat): (r: seq<int>)
    ensures forall i :: i in r <==> lo <= i < |entries| && entries[i].0 in items
    decreases |entries| - lo
  {
    if lo >= |entries| then []
    else (if entries[lo].0 in items then [lo] else []) + KeyPositions(entries, items, lo + 1)
  }

  lemma {:induction false} RemoveKeysFromIsKept<K, V>(entries: seq<(K, V)>, items: seq<K>, lo: nat)
    ensures RemoveKeysFrom(entries, items, lo) == KeptFrom(Values(entries), KeyPositions(entries, items, 0), lo)
    decreases |entries| - lo
  {
    if lo < |entries| {
      RemoveKeysFromIsKept(entries, items, lo + 1);
    }
  }

  /** Removing keys from a mapping is removing, from its list of values, the positions
      at which those keys stand. */
  lemma RemoveKeysIsKept<K, V>(entries: seq<(K, V)>, items: seq<K>)
    ensures RemoveKeys(entries, items) == Kept(Values(entries), KeyPositions(entries, items, 0))
  {
    RemoveKeysFromIsKept(entries, items, 0);
  }
}
