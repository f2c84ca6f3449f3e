/** Merging a run of records into one (`concat_morph`, my_termextract.py:70-90): the
    surface (field 0) is the concatenation of the run's surfaces; the base form, reading
    and pronunciation (fields 7, 8, 9) are the concatenation of the run's values with the
    placeholder `"*"` left out; every other field is the last record's. */
module Merge {
  import opened Morphs

  const Placeholder: string := "*"

  /** Every record of the run has the ten fields the merge reads and writes. */
  predicate Complete(ms: seq<Morph>)
  {
    forall i :: 0 <= i < |ms| ==> |ms[i]| >= 10
  }

  function Last(ms: seq<Morph>): Morph
    requires |ms| > 0
  {
    ms[|ms| - 1]
  }

  /** Field `k` of every record of the run, concatenated in order. */
  function JoinField(ms: seq<Morph>, k: nat): string
    requires forall i :: 0 <= i < |ms| ==> |ms[i]| > k
  {
    if ms == [] then "" else ms[0][k] + JoinField(ms[1..], k)
  }

  /** Field `k` of every record of the run whose value is not the placeholder,
      concatenated in order; the result is never the placeholder itself. */
  function JoinKnown(ms: seq<Morph>, k: nat): (r: string)
    requires forall i :: 0 <= i < |ms| ==> |ms[i]| > k
    ensures r != Placeholder
  {
    if ms == [] then ""
    else
      var head := if ms[0][k] != Placeholder then ms[0][k] else "";
      var rest := JoinKnown(ms[1..], k);
      assert head + rest != Placeholder by {
        if |head| == 0 {
          assert head + rest == rest;
        } else if |head| == 1 && |rest| == 0 {
          assert head + rest == head;
        }
      }
      head + rest
  }

  /** The record `concat_morph` returns for a non-empty run; it has the last record's
      length, and `MergedFields` says what each field holds. */
  function Merged(ms: seq<Morph>): (r: Morph)
    requires |ms| > 0 && Complete(ms)
    ensures |r| == |Last(ms)|
  {
    Last(ms)[0 := JoinField(ms, 0)][7 := JoinKnown(ms, 7)][8 := JoinKnown(ms, 8)][9 := JoinKnown(ms, 9)]
  }

  /** The fields of a merged run: its surface is every surface in order; fields 7 to 9
      are the known values in order and never the placeholder; every other field is the
      last record's. */
  lemma MergedFields(ms: seq<Morph>)
    requires |ms| > 0 && Complete(ms)
    ensures var r := Merged(ms);
            r[0] == JoinField(ms, 0) &&
            r[7] == JoinKnown(ms, 7) && r[8] == JoinKnown(ms, 8) && r[9] == JoinKnown(ms, 9) &&
            r[7] != Placeholder && r[8] != Placeholder && r[9] != Placeholder &&
            forall k :: 1 <= k <= 6 || 10 <= k < |r| ==> r[k] == Last(ms)[k]
  {
  }

  /** `concat_morph`: copies the last record into a list, then overwrites the surface,
      base form, reading and pronunciation with the run's concatenations. */
  method ConcatMorph(morphs: seq<Morph>) returns (r: Morph)
    requires |morphs| > 0 && Complete(morphs)
    ensures r == Merged(morphs)
  {
    var newMorph := morphs[|morphs| - 1];
    newMorph := newMorph[0 := JoinField(morphs, 0)];
    newMorph := newMorph[7 := JoinKnown(morphs, 7)];
    newMorph := newMorph[8 := JoinKnown(morphs, 8)];
    newMorph := newMorph[9 := JoinKnown(morphs, 9)];
    r := newMorph;
  }

  lemma {:induction false} JoinFieldAppend(xs: seq<Morph>, ys: seq<Morph>, k: nat)
    requires forall i :: 0 <= i < |xs| ==> |xs[i]| > k
    requires forall i :: 0 <= i < |ys| ==> |ys[i]| > k
    ensures JoinField(xs + ys, k) == JoinField(xs, k) + JoinField(ys, k)
  {
    if xs == [] {
      assert xs + ys == ys;
    } else {
      assert (xs + ys)[1..] == xs[1..] + ys;
      JoinFieldAppend(xs[1..], ys, k);
    }
  }

  lemma {:induction false} JoinKnownAppend(xs: seq<Morph>, ys: seq<Morph>, k: nat)
    requires forall i :: 0 <= i < |xs| ==> |xs[i]| > k
    requires forall i :: 0 <= i < |ys| ==> |ys[i]| > k
    ensures JoinKnown(xs + ys, k) == JoinKnown(xs, k) + JoinKnown(ys, k)
  {
    if xs == [] {
      assert xs + ys == ys;
    } else {
      assert (xs + ys)[1..] == xs[1..] + ys;
      JoinKnownAppend(xs[1..], ys, k);
    }
  }

  /** Merging a run in two steps, the front part first, gives the merge of the whole run. */
  lemma MergeFrontFirst(xs: seq<Morph>, ys: seq<Morph>)
    requires |xs| > 0 && |ys| > 0 && Complete(xs) && Complete(ys)
    ensures Complete(xs + ys) && Complete([Merged(xs)] + ys)
    ensures Merged([Merged(xs)] + ys) == Merged(xs + ys)
  {
    var m := Merged(xs);
    var lhs := Merged([m] + ys);
    var rhs := Merged(xs + ys);
    MergedFields(xs);
    MergedFields([m] + ys);
    MergedFields(xs + ys);
    assert Last([m] + ys) == Last(ys) == Last(xs + ys);
    assert ([m] + ys)[1..] == ys;
    forall k | k in {0, 7, 8, 9}
      ensures lhs[k] == rhs[k]
    {
      JoinFieldAppend(xs, ys, k);
      JoinKnownAppend(xs, ys, k);
    }
  }

  lemma JoinOfOne(m: Morph, k: nat)
    requires |m| > k
    ensures JoinField([m], k) == m[k]
    ensures m[k] != Placeholder ==> JoinKnown([m], k) == m[k]
  {
    assert [m][1..] == [];
  }

  /** Replacing a trailing run by a record holding the run's joined surface joins the
      same surface. */
  lemma {:induction false} JoinFieldFold(xs: seq<Morph>, ys: seq<Morph>, m: Morph)
    requires Complete(xs) && Complete(ys) && |m| > 0 && m[0] == JoinField(ys, 0)
    ensures JoinField(xs + [m], 0) == JoinField(xs + ys, 0)
  {
    JoinOfOne(m, 0);
    JoinFieldAppend(xs, ys, 0);
    JoinFieldAppend(xs, [m], 0);
  }

  /** Replacing a trailing run by a record holding the run's joined known values joins
      the same known values. */
  lemma {:induction false} JoinKnownFold(xs: seq<Morph>, ys: seq<Morph>, m: Morph, k: nat)
    requires Complete(xs) && Complete(ys) && 7 <= k <= 9 && |m| > k && m[k] == JoinKnown(ys, k)
    ensures JoinKnown(xs + [m], k) == JoinKnown(xs + ys, k)
  {
    JoinOfOne(m, k);
    JoinKnownAppend(xs, ys, k);
    JoinKnownAppend(xs, [m], k);
  }

  /** Merging a run in two steps, the back part first, gives the merge of the whole run. */
  lemma MergeBackFirst(xs: seq<Morph>, ys: seq<Morph>)
    requires |xs| > 0 && |ys| > 0 && Complete(xs) && Complete(ys)
    ensures Complete(xs + ys) && Complete(xs + [Merged(ys)])
    ensures Merged(xs + [Merged(ys)]) == Merged(xs + ys)
  {
    var m := Merged(ys);
    assert Complete(xs + [m]) && Complete(xs + ys);
    var lhs := Merged(xs + [m]);
    var rhs := Merged(xs + ys);
    MergedFields(ys);
    MergedFields(xs + [m]);
    MergedFields(xs + ys);
    assert Last(xs + [m]) == m;
    assert Last(xs + ys) == Last(ys);
    forall k | 0 <= k < |lhs|
      ensures lhs[k] == rhs[k]
    {
      if k == 0 {
        JoinFieldFold(xs, ys, m);
      } else if 7 <= k <= 9 {
        JoinKnownFold(xs, ys, m, k);
      }
    }
  }

  /** Associativity on three records: merging `[a, b, c]` equals merging `[merge(a, b), c]`
      and merging `[a, merge(b, c)]`. */
  lemma MergeAssociative(a: Morph, b: Morph, c: Morph)
    requires |a| >= 10 && |b| >= 10 && |c| >= 10
    ensures Complete([Merged([a, b]), c]) && Complete([a, Merged([b, c])])
    ensures Merged([Merged([a, b]), c]) == Merged([a, b, c])
    ensures Merged([a, Merged([b, c])]) == Merged([a, b, c])
  {
    MergeFrontFirst([a, b], [c]);
    assert [a, b] + [c] == [a, b, c];
    MergeBackFirst([a], [b, c]);
    assert [a] + [b, c] == [a, b, c];
  }

  /** A run of one record merges to that record exactly when none of its base form,
      reading and pronunciation is the placeholder; a placeholder there becomes the empty
      string. */
  lemma MergeSingle(a: Morph)
    requires |a| >= 10
    ensures Merged([a]) == a <==> (a[7] != Placeholder && a[8] != Placeholder && a[9] != Placeholder)
    ensures forall k :: 7 <= k <= 9 ==> Merged([a])[k] == if a[k] == Placeholder then "" else a[k]
  {
    var r := Merged([a]);
    MergedFields([a]);
    assert [a][1..] == [];
    assert JoinField([a], 0) == a[0] + JoinField([], 0);
    assert r[0] == a[0];
    forall k | 7 <= k <= 9
      ensures r[k] == if a[k] == Placeholder then "" else a[k]
    {
      assert JoinKnown([a], k) == (if a[k] != Placeholder then a[k] else "") + JoinKnown([], k);
    }
    if a[7] != Placeholder && a[8] != Placeholder && a[9] != Placeholder {
      assert forall k :: 0 <= k < |a| ==> r[k] == a[k];
    }
  }
}
