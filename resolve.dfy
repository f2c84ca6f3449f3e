/** What one ranked phrase does to the record list (the body of the loop of
    `TermExtract.get_morphs`, my_termextract.py:147-168): the phrase is split on spaces;
    every position where the surfaces of the list, as they stand before this phrase,
    spell the tokens is a match; each matched span is merged into its first record; and
    the other records of every span are removed in one batch. */
module Resolve {
  import opened Text
  import opened Morphs
  import opened Merge
  import opened Removal

  /** Field 0 of every record. */
  function Surfaces(ms: seq<Morph>): (r: seq<string>)
    requires forall i :: 0 <= i < |ms| ==> |ms[i]| > 0
    ensures |r| == |ms|
    ensures forall i :: 0 <= i < |ms| ==> r[i] == ms[i][0]
  {
    seq(|ms|, i requires 0 <= i < |ms| => ms[i][0])
  }

  /** The tokens `toks` stand at position `i` of `surfaces`. */
  predicate MatchAt(surfaces: seq<string>, toks: seq<string>, i: int)
  {
    0 <= i && i + |toks| <= |surfaces| && forall j :: i <= j < i + |toks| ==> surfaces[j] == toks[j - i]
  }

  /** The match positions from `p` on, ascending. */
  function MatchesFrom(surfaces: seq<string>, toks: seq<string>, p: nat): seq<nat>
    decreases |surfaces| - p
  {
    if p + |toks| > |surfaces| then []
    else
      var rest := MatchesFrom(surfaces, toks, p + 1);
      var head: seq<nat> := if MatchAt(surfaces, toks, p) then [p] else [];
      head + rest
  }

  /** `match_indeces`: every position, ascending, at which the tokens stand. */
  function Matches(surfaces: seq<string>, toks: seq<string>): seq<nat>
  {
    MatchesFrom(surfaces, toks, 0)
  }

  lemma {:induction false} MatchesFromMembers(surfaces: seq<string>, toks: seq<string>, p: nat)
    ensures forall i :: i in MatchesFrom(surfaces, toks, p) <==> p <= i && MatchAt(surfaces, toks, i)
    decreases |surfaces| - p
  {
    if p + |toks| <= |surfaces| {
      MatchesFromMembers(surfaces, toks, p + 1);
    }
  }

  lemma {:induction false} MatchesFromAscending(surfaces: seq<string>, toks: seq<string>, p: nat)
    ensures forall t, u :: 0 <= t < u < |MatchesFrom(surfaces, toks, p)| ==>
              MatchesFrom(surfaces, toks, p)[t] < MatchesFrom(surfaces, toks, p)[u]
    decreases |surfaces| - p
  {
    if p + |toks| <= |surfaces| {
      var rest := MatchesFrom(surfaces, toks, p + 1);
      MatchesFromAscending(surfaces, toks, p + 1);
      MatchesFromMembers(surfaces, toks, p + 1);
      forall t | 0 <= t < |rest|
        ensures p < rest[t]
      {
        assert rest[t] in rest;
      }
    }
  }

  /** The match positions are exactly the positions at which the tokens stand, in strictly
      ascending order. */
  lemma MatchesMembers(surfaces: seq<string>, toks: seq<string>)
    ensures forall i :: i in Matches(surfaces, toks) <==> MatchAt(surfaces, toks, i)
    ensures forall t, u :: 0 <= t < u < |Matches(surfaces, toks)| ==>
              Matches(surfaces, toks)[t] < Matches(surfaces, toks)[u]
  {
    MatchesFromMembers(surfaces, toks, 0);
    MatchesFromAscending(surfaces, toks, 0);
  }

  /** The list after the merge loop: the record at each match position replaced by the
      merge of the span of `n` records that starts there in `ms`. */
  function Rewrite(ms: seq<Morph>, matches: seq<nat>, n: nat): (r: seq<Morph>)
    requires Shaped(ms) && n >= 1
    requires forall i :: i in matches ==> i + n <= |ms|
    ensures |r| == |ms| && Shaped(r)
  {
    seq(|ms|, i requires 0 <= i < |ms| => if i in matches then Merged(ms[i..i + n]) else ms[i])
  }

  lemma RewriteAt(ms: seq<Morph>, matches: seq<nat>, n: nat, i: nat)
    requires Shaped(ms) && n >= 1
    requires forall i :: i in matches ==> i + n <= |ms|
    requires i < |ms|
    ensures i in matches ==> Rewrite(ms, matches, n)[i] == Merged(ms[i..i + n])
    ensures i !in matches ==> Rewrite(ms, matches, n)[i] == ms[i]
  {
  }

  /** The integers `lo` to `hi - 1`, ascending. */
  function Range(lo: int, hi: int): (r: seq<int>)
    ensures forall x :: x in r <==> lo <= x < hi
    decreases hi - lo
  {
    if hi <= lo then [] else [lo] + Range(lo + 1, hi)
  }

  /** The runs concatenated in order (`sum(runs, [])`). */
  function Flatten(runs: seq<seq<int>>): (r: seq<int>)
    ensures forall x :: x in r <==> exists t :: 0 <= t < |runs| && x in runs[t]
  {
    if runs == [] then []
    else
      var init := runs[..|runs| - 1];
      assert forall t :: 0 <= t < |init| ==> init[t] == runs[t];
      Flatten(init) + runs[|runs| - 1]
  }

  /** `drop_list` before flattening: for each match, the positions after its first. */
  function DropRuns(matches: seq<nat>, n: nat): (r: seq<seq<int>>)
    ensures |r| == |matches|
  {
    if matches == [] then []
    else
      var last := matches[|matches| - 1];
      DropRuns(matches[..|matches| - 1], n) + [Range(last + 1, last + n)]
  }

  /** The run of each match is the positions after its first, up to the end of its span. */
  lemma {:induction false} DropRunsAt(matches: seq<nat>, n: nat)
    ensures forall t :: 0 <= t < |matches| ==> DropRuns(matches, n)[t] == Range(matches[t] + 1, matches[t] + n)
  {
    if matches != [] {
      var init := matches[..|matches| - 1];
      DropRunsAt(init, n);
      assert forall t :: 0 <= t < |init| ==> init[t] == matches[t];
    }
  }

  /** The positions scheduled for removal: those strictly inside some matched span. */
  function DropIndices(matches: seq<nat>, n: nat): (r: seq<int>)
    ensures forall x :: x in r <==> exists t :: 0 <= t < |matches| && matches[t] < x < matches[t] + n
  {
    var runs := DropRuns(matches, n);
    DropRunsAt(matches, n);
    assert forall t :: 0 <= t < |runs| ==> forall x :: x in runs[t] <==> matches[t] < x < matches[t] + n;
    Flatten(runs)
  }

  /** The records after one phrase: a phrase of fewer than two tokens changes nothing;
      otherwise every matched span is merged into its first record and the rest of every
      span is removed. At least one record remains when there was one. */
  function ApplyPhrase(ms: seq<Morph>, phrase: string): (r: seq<Morph>)
    requires Shaped(ms)
    ensures Shaped(r)
    ensures |r| <= |ms|
    ensures |ms| > 0 ==> |r| > 0
  {
    var toks := Split(phrase, ' ');
    if |toks| < 2 then ms
    else
      KeptShape(Rewritten(ms, toks), Drops(ms, toks));
      Kept(Rewritten(ms, toks), Drops(ms, toks))
  }

  /** Removal keeps every record's shape, and keeps the first record when its position
      is not removed. */
  lemma KeptShape(ms: seq<Morph>, drops: seq<int>)
    requires Shaped(ms)
    requires forall x :: x in drops ==> x > 0
    ensures Shaped(Kept(ms, drops))
    ensures |ms| > 0 ==> |Kept(ms, drops)| > 0
  {
    KeptIsSurvivors(ms, drops);
    if |ms| > 0 {
      assert 0 in Survivors(|ms|, drops, 0);
    }
  }

  /** The records after every phrase, in rank order. */
  function ApplyAll(ms: seq<Morph>, phrases: seq<string>): (r: seq<Morph>)
    requires Shaped(ms)
    ensures Shaped(r)
    ensures |ms| > 0 ==> |r| > 0
  {
    if phrases == [] then ms
    else ApplyPhrase(ApplyAll(ms, phrases[..|phrases| - 1]), phrases[|phrases| - 1])
  }

  /** A phrase of fewer than two tokens, or one that never matches, leaves the records
      exactly as they were. */
  lemma UnmatchedPhraseUnchanged(ms: seq<Morph>, phrase: string)
    requires Shaped(ms)
    requires |Split(phrase, ' ') | < 2 || Matches(Surfaces(ms), Split(phrase, ' ')) == []
    ensures ApplyPhrase(ms, phrase) == ms
  {
    var toks := Split(phrase, ' ');
    if |toks| >= 2 {
      var rewritten := Rewrite(ms, [], |toks|);
      assert rewritten == ms;
      KeptNone(rewritten, DropIndices([], |toks|));
    }
  }

  /** `concat_morph` on a run, as a total function: the model only applies it to
      non-empty runs of complete records. */
  function MergeRun(run: seq<Morph>): Morph
  {
    if |run| > 0 && Complete(run) then Merged(run) else []
  }

  /** Reference definition of a phrase's effect when matches do not overlap: scanning
      left to right from `p` over the records `ms` with surfaces `surf`, a span that spells
      the tokens becomes one record, `merge` of the span, and the scan resumes after it;
      any other record is kept. */
  function CollapseWith(ms: seq<Morph>, surf: seq<string>, toks: seq<string>, p: nat,
                        merge: seq<Morph> -> Morph): seq<Morph>
    requires |surf| == |ms| && |toks| >= 1 && p <= |ms|
    decreases |ms| - p
  {
    if |ms| - p < |toks| then ms[p..]
    else if MatchAt(surf, toks, p) then [merge(ms[p..p + |toks|])] + CollapseWith(ms, surf, toks, p + |toks|, merge)
    else [ms[p]] + CollapseWith(ms, surf, toks, p + 1, merge)
  }

  /** The left-to-right collapse with every matched span merged by `concat_morph`. */
  function Collapse(ms: seq<Morph>, toks: seq<string>): seq<Morph>
    requires Shaped(ms) && |toks| >= 1
  {
    CollapseWith(ms, Surfaces(ms), toks, 0, MergeRun)
  }

  /** No two matches share a record. */
  ghost predicate NoOverlap(surfaces: seq<string>, toks: seq<string>)
  {
    forall i, j :: MatchAt(surfaces, toks, i) && MatchAt(surfaces, toks, j) && i < j ==> i + |toks| <= j
  }

  /** Position `x` lies strictly inside some matched span. */
  ghost predicate Covered(surfaces: seq<string>, toks: seq<string>, x: int)
  {
    exists i :: MatchAt(surfaces, toks, i) && i < x < i + |toks|
  }

  lemma DropIsCovered(surfaces: seq<string>, toks: seq<string>)
    ensures forall x :: x in DropIndices(Matches(surfaces, toks), |toks|) <==> Covered(surfaces, toks, x)
  {
    var m := Matches(surfaces, toks);
    MatchesMembers(surfaces, toks);
    forall x
      ensures x in DropIndices(m, |toks|) <==> Covered(surfaces, toks, x)
    {
      if Covered(surfaces, toks, x) {
        var i :| MatchAt(surfaces, toks, i) && i < x < i + |toks|;
        assert i in m;
        var t :| 0 <= t < |m| && m[t] == i;
      }
      if x in DropIndices(m, |toks|) {
        var t :| 0 <= t < |m| && m[t] < x < m[t] + |toks|;
        assert m[t] in m;
      }
    }
  }

  lemma {:induction false} MatchesSkip(surfaces: seq<string>, toks: seq<string>, a: nat, b: nat)
    requires a <= b
    requires forall i :: a <= i < b ==> !MatchAt(surfaces, toks, i)
    ensures MatchesFrom(surfaces, toks, a) == MatchesFrom(surfaces, toks, b)
    decreases b - a
  {
    if a < b && a + |toks| <= |surfaces| {
      MatchesSkip(surfaces, toks, a + 1, b);
    } else if a < b {
      assert MatchesFrom(surfaces, toks, a) == [];
      assert MatchesFrom(surfaces, toks, b) == [];
    }
  }

  /** The list after the merge loop for the phrase tokens `toks`. */
  function Rewritten(ms: seq<Morph>, toks: seq<string>): (r: seq<Morph>)
    requires Shaped(ms) && |toks| >= 1
    ensures |r| == |ms| && Shaped(r)
  {
    MatchesMembers(Surfaces(ms), toks);
    Rewrite(ms, Matches(Surfaces(ms), toks), |toks|)
  }

  /** The positions removed for the phrase tokens `toks`. */
  function Drops(ms: seq<Morph>, toks: seq<string>): seq<int>
    requires Shaped(ms)
  {
    DropIndices(Matches(Surfaces(ms), toks), |toks|)
  }

  /** `rw` holds, at each position, `merge` of the span matched there, or else the record
      itself. */
  ghost predicate MergesMatches(ms: seq<Morph>, surf: seq<string>, toks: seq<string>, rw: seq<Morph>,
                                merge: seq<Morph> -> Morph)
    requires |surf| == |ms|
  {
    |rw| == |ms| &&
    forall i {:trigger rw[i]} :: 0 <= i < |ms| ==>
      rw[i] == if MatchAt(surf, toks, i) then merge(ms[i..i + |toks|]) else ms[i]
  }

  /** `dr` lists exactly the positions strictly inside a matched span. */
  ghost predicate DropsCovered(surf: seq<string>, toks: seq<string>, dr: seq<int>)
  {
    forall x :: x in dr <==> Covered(surf, toks, x)
  }

  lemma RewrittenMerges(ms: seq<Morph>, toks: seq<string>)
    requires Shaped(ms) && |toks| >= 1
    ensures MergesMatches(ms, Surfaces(ms), toks, Rewritten(ms, toks), MergeRun)
    ensures DropsCovered(Surfaces(ms), toks, Drops(ms, toks))
  {
    forall i | 0 <= i < |ms|
      ensures Rewritten(ms, toks)[i] ==
              if MatchAt(Surfaces(ms), toks, i) then MergeRun(ms[i..i + |toks|]) else ms[i]
    {
      RewrittenAt(ms, toks, i);
    }
    DropIsCovered(Surfaces(ms), toks);
  }

  lemma {:induction false} RewrittenAt(ms: seq<Morph>, toks: seq<string>, i: nat)
    requires Shaped(ms) && |toks| >= 1 && i < |ms|
    ensures Rewritten(ms, toks)[i] ==
            if MatchAt(Surfaces(ms), toks, i) then MergeRun(ms[i..i + |toks|]) else ms[i]
  {
    var surf := Surfaces(ms);
    var m := Matches(surf, toks);
    MatchesFromMembers(surf, toks, 0);
    RewriteAt(ms, m, |toks|, i);
    if MatchAt(surf, toks, i) {
      assert i in m;
      RunComplete(ms, i, i + |toks|);
    } else {
      assert i !in m;
    }
  }

  lemma RunComplete(ms: seq<Morph>, a: nat, b: nat)
    requires Shaped(ms) && a < b <= |ms|
    ensures MergeRun(ms[a..b]) == Merged(ms[a..b])
  {
    assert forall j :: 0 <= j < b - a ==> ms[a..b][j] == ms[a + j];
  }

  /** A position after a match's span, or after an unmatched position, that is not itself
      inside a span, is not inside any span. */
  lemma {:induction false} NextUncovered(surf: seq<string>, toks: seq<string>, p: nat, q: nat)
    requires NoOverlap(surf, toks) && !Covered(surf, toks, p) && |toks| >= 1
    requires (MatchAt(surf, toks, p) && q == p + |toks|) || (!MatchAt(surf, toks, p) && q == p + 1)
    ensures !Covered(surf, toks, q)
  {
    if Covered(surf, toks, q) {
      var j :| MatchAt(surf, toks, j) && j < q < j + |toks|;
      assert false;
    }
  }

  /** Fewer than `|toks|` records from an uncovered `p` on: nothing there is touched. */
  lemma {:induction false} StepEnd(ms: seq<Morph>, surf: seq<string>, toks: seq<string>, rw: seq<Morph>,
                                   dr: seq<int>, merge: seq<Morph> -> Morph, p: nat)
    requires |surf| == |ms| && |toks| >= 2 && p <= |ms| && |ms| - p < |toks|
    requires MergesMatches(ms, surf, toks, rw, merge) && DropsCovered(surf, toks, dr)
    requires !Covered(surf, toks, p)
    ensures KeptFrom(rw, dr, p) == ms[p..]
  {
    forall i | p <= i < |ms|
      ensures i !in dr && rw[i] == ms[i]
    {
      assert !MatchAt(surf, toks, i);
    }
    KeptFromNone(rw, dr, p);
    assert rw[p..] == ms[p..];
  }

  /** A match at an uncovered `p`: its merged record is kept and the rest of its span
      removed. */
  lemma {:induction false} StepMatch(ms: seq<Morph>, surf: seq<string>, toks: seq<string>, rw: seq<Morph>,
                                     dr: seq<int>, merge: seq<Morph> -> Morph, p: nat)
    requires |surf| == |ms| && |toks| >= 2 && p + |toks| <= |ms|
    requires MergesMatches(ms, surf, toks, rw, merge) && DropsCovered(surf, toks, dr)
    requires MatchAt(surf, toks, p) && !Covered(surf, toks, p)
    ensures KeptFrom(rw, dr, p) == [merge(ms[p..p + |toks|])] + KeptFrom(rw, dr, p + |toks|)
  {
    forall x | p < x < p + |toks|
      ensures x in dr
    {
      assert Covered(surf, toks, x);
    }
    KeptFromSpan(rw, dr, p, p + |toks|);
  }

  /** No match at an uncovered `p`: its record is kept as it is. */
  lemma {:induction false} StepOther(ms: seq<Morph>, surf: seq<string>, toks: seq<string>, rw: seq<Morph>,
                                     dr: seq<int>, merge: seq<Morph> -> Morph, p: nat)
    requires |surf| == |ms| && |toks| >= 2 && p < |ms|
    requires MergesMatches(ms, surf, toks, rw, merge) && DropsCovered(surf, toks, dr)
    requires !MatchAt(surf, toks, p) && !Covered(surf, toks, p)
    ensures KeptFrom(rw, dr, p) == [ms[p]] + KeptFrom(rw, dr, p + 1)
  {
    KeptFromSpan(rw, dr, p, p + 1);
  }

  /** The match positions from a match at `p` on are `p` and those after its span. */
  lemma {:induction false} MatchesAfterMatch(surf: seq<string>, toks: seq<string>, p: nat)
    requires |toks| >= 1 && NoOverlap(surf, toks) && MatchAt(surf, toks, p)
    ensures |MatchesFrom(surf, toks, p)| == 1 + |MatchesFrom(surf, toks, p + |toks|)|
  {
    assert forall i :: p + 1 <= i < p + |toks| ==> !MatchAt(surf, toks, i);
    MatchesSkip(surf, toks, p + 1, p + |toks|);
    assert MatchesFrom(surf, toks, p) == [p] + MatchesFrom(surf, toks, p + 1);
  }

  /** `a * b`, by repeated addition, so that the length induction stays linear. */
  function Times(a: int, b: nat): int
  {
    if b == 0 then 0 else a + Times(a, b - 1)
  }

  lemma {:induction false} TimesIsProduct(a: int, b: nat)
    ensures Times(a, b) == a * b
  {
    if b > 0 {
      TimesIsProduct(a, b - 1);
    }
  }

  /** What remains from `p` on after a match at `p` is its merged record followed by
      the collapse after its span. */
  lemma {:induction false} CollapseMatch(ms: seq<Morph>, surf: seq<string>, toks: seq<string>,
                                         merge: seq<Morph> -> Morph, p: nat, here: seq<Morph>, next: seq<Morph>)
    requires |surf| == |ms| && |toks| >= 1 && p + |toks| <= |ms| && MatchAt(surf, toks, p)
    requires here == [merge(ms[p..p + |toks|])] + next
    requires next == CollapseWith(ms, surf, toks, p + |toks|, merge)
    ensures here == CollapseWith(ms, surf, toks, p, merge)
  {
  }

  /** What remains from an unmatched `p` on is its record followed by the collapse from
      `p + 1`. */
  lemma {:induction false} CollapseOther(ms: seq<Morph>, surf: seq<string>, toks: seq<string>,
                                         merge: seq<Morph> -> Morph, p: nat, here: seq<Morph>, next: seq<Morph>)
    requires |surf| == |ms| && |toks| >= 1 && p + |toks| <= |ms| && !MatchAt(surf, toks, p)
    requires here == [ms[p]] + next
    requires next == CollapseWith(ms, surf, toks, p + 1, merge)
    ensures here == CollapseWith(ms, surf, toks, p, merge)
  {
  }

  /** The induction behind `ApplyPhraseCollapses`, from a position `p` that is not inside a
      matched span: what remains from `p` on is the collapse of the records from `p` on. */
  lemma {:induction false} ApplyFrom(ms: seq<Morph>, surf: seq<string>, toks: seq<string>, rw: seq<Morph>,
                                     dr: seq<int>, merge: seq<Morph> -> Morph, p: nat)
    requires |surf| == |ms| && |toks| >= 2 && p <= |ms|
    requires MergesMatches(ms, surf, toks, rw, merge) && DropsCovered(surf, toks, dr)
    requires NoOverlap(surf, toks) && !Covered(surf, toks, p)
    ensures KeptFrom(rw, dr, p) == CollapseWith(ms, surf, toks, p, merge)
    decreases |ms| - p, 1
  {
    if |ms| - p < |toks| {
      StepEnd(ms, surf, toks, rw, dr, merge, p);
    } else if MatchAt(surf, toks, p) {
      ApplyFromMatch(ms, surf, toks, rw, dr, merge, p);
    } else {
      ApplyFromOther(ms, surf, toks, rw, dr, merge, p);
    }
  }

  lemma {:induction false} ApplyFromMatch(ms: seq<Morph>, surf: seq<string>, toks: seq<string>, rw: seq<Morph>,
                                          dr: seq<int>, merge: seq<Morph> -> Morph, p: nat)
    requires |surf| == |ms| && |toks| >= 2 && p + |toks| <= |ms| && MatchAt(surf, toks, p)
    requires MergesMatches(ms, surf, toks, rw, merge) && DropsCovered(surf, toks, dr)
    requires NoOverlap(surf, toks) && !Covered(surf, toks, p)
    ensures KeptFrom(rw, dr, p) == CollapseWith(ms, surf, toks, p, merge)
    decreases |ms| - p, 0
  {
    var n := |toks|;
    StepMatch(ms, surf, toks, rw, dr, merge, p);
    NextUncovered(surf, toks, p, p + n);
    ApplyFrom(ms, surf, toks, rw, dr, merge, p + n);
    CollapseMatch(ms, surf, toks, merge, p, KeptFrom(rw, dr, p), KeptFrom(rw, dr, p + n));
  }

  lemma {:induction false} ApplyFromOther(ms: seq<Morph>, surf: seq<string>, toks: seq<string>, rw: seq<Morph>,
                                          dr: seq<int>, merge: seq<Morph> -> Morph, p: nat)
    requires |surf| == |ms| && |toks| >= 2 && p + |toks| <= |ms| && !MatchAt(surf, toks, p)
    requires MergesMatches(ms, surf, toks, rw, merge) && DropsCovered(surf, toks, dr)
    requires NoOverlap(surf, toks) && !Covered(surf, toks, p)
    ensures KeptFrom(rw, dr, p) == CollapseWith(ms, surf, toks, p, merge)
    decreases |ms| - p, 0
  {
    StepOther(ms, surf, toks, rw, dr, merge, p);
    NextUncovered(surf, toks, p, p + 1);
    ApplyFrom(ms, surf, toks, rw, dr, merge, p + 1);
    CollapseOther(ms, surf, toks, merge, p, KeptFrom(rw, dr, p), KeptFrom(rw, dr, p + 1));
  }

  /** One step of the collapse from `p`, for its length, beside the matches from `p`. */
  lemma {:induction false} CollapseStep(ms: seq<Morph>, surf: seq<string>, toks: seq<string>,
                                        merge: seq<Morph> -> Morph, p: nat)
    requires |surf| == |ms| && |toks| >= 2 && p <= |ms| && NoOverlap(surf, toks)
    ensures |ms| - p < |toks| ==>
              |CollapseWith(ms, surf, toks, p, merge)| == |ms| - p && |MatchesFrom(surf, toks, p)| == 0
    ensures |ms| - p >= |toks| && MatchAt(surf, toks, p) ==>
              |CollapseWith(ms, surf, toks, p, merge)| == 1 + |CollapseWith(ms, surf, toks, p + |toks|, merge)| &&
              |MatchesFrom(surf, toks, p)| == 1 + |MatchesFrom(surf, toks, p + |toks|)|
    ensures |ms| - p >= |toks| && !MatchAt(surf, toks, p) ==>
              |CollapseWith(ms, surf, toks, p, merge)| == 1 + |CollapseWith(ms, surf, toks, p + 1, merge)| &&
              MatchesFrom(surf, toks, p) == MatchesFrom(surf, toks, p + 1)
  {
    if |ms| - p >= |toks| && MatchAt(surf, toks, p) {
      MatchesAfterMatch(surf, toks, p);
    }
  }

  /** The collapse from `p` has one record for each record from `p` on, less `|toks| - 1`
      for every match from `p` on. */
  lemma {:induction false} CollapseLength(ms: seq<Morph>, surf: seq<string>, toks: seq<string>,
                                          merge: seq<Morph> -> Morph, p: nat)
    requires |surf| == |ms| && |toks| >= 2 && p <= |ms| && NoOverlap(surf, toks)
    ensures |CollapseWith(ms, surf, toks, p, merge)| + Times(|toks| - 1, |MatchesFrom(surf, toks, p)|) == |ms| - p
    decreases |ms| - p
  {
    var n := |toks|;
    CollapseStep(ms, surf, toks, merge, p);
    if |ms| - p < n {
    } else if MatchAt(surf, toks, p) {
      CollapseLength(ms, surf, toks, merge, p + n);
      assert Times(n - 1, |MatchesFrom(surf, toks, p)|) == n - 1 + Times(n - 1, |MatchesFrom(surf, toks, p + n)|);
    } else {
      CollapseLength(ms, surf, toks, merge, p + 1);
    }
  }

  /** Without overlaps the collapse has (tokens - 1) records fewer per match. */
  lemma CollapseShrinks(ms: seq<Morph>, toks: seq<string>)
    requires Shaped(ms) && |toks| >= 2 && NoOverlap(Surfaces(ms), toks)
    ensures |Collapse(ms, toks)| == |ms| - (|toks| - 1) * |Matches(Surfaces(ms), toks)|
  {
    var surf := Surfaces(ms);
    CollapseLength(ms, surf, toks, MergeRun, 0);
    TimesIsProduct(|toks| - 1, |Matches(surf, toks)|);
  }

  /** When no two matches of the phrase overlap, its effect is the left-to-right collapse
      of every matched span into its merged record, everything else keeping its order. */
  lemma ApplyPhraseCollapses(ms: seq<Morph>, phrase: string)
    requires Shaped(ms)
    requires |Split(phrase, ' ')| >= 2
    requires NoOverlap(Surfaces(ms), Split(phrase, ' '))
    ensures ApplyPhrase(ms, phrase) == Collapse(ms, Split(phrase, ' '))
  {
    RemovalIsCollapse(ms, Split(phrase, ' '));
  }

  /** Without overlaps a phrase shrinks the list by (tokens - 1) records per match. */
  lemma ApplyPhraseShrinks(ms: seq<Morph>, phrase: string)
    requires Shaped(ms)
    requires |Split(phrase, ' ')| >= 2
    requires NoOverlap(Surfaces(ms), Split(phrase, ' '))
    ensures |ApplyPhrase(ms, phrase)| ==
            |ms| - (|Split(phrase, ' ')| - 1) * |Matches(Surfaces(ms), Split(phrase, ' '))|
  {
    ApplyPhraseCollapses(ms, phrase);
    CollapseShrinks(ms, Split(phrase, ' '));
  }

  lemma {:induction false} RemovalIsCollapse(ms: seq<Morph>, toks: seq<string>)
    requires Shaped(ms) && |toks| >= 2 && NoOverlap(Surfaces(ms), toks)
    ensures Kept(Rewritten(ms, toks), Drops(ms, toks)) == Collapse(ms, toks)
  {
    RewrittenMerges(ms, toks);
    KeptIsCollapse(ms, Surfaces(ms), toks, Rewritten(ms, toks), Drops(ms, toks), MergeRun);
  }

  lemma {:induction false} KeptIsCollapse(ms: seq<Morph>, surf: seq<string>, toks: seq<string>, rw: seq<Morph>,
                                          dr: seq<int>, merge: seq<Morph> -> Morph)
    requires |surf| == |ms| && |toks| >= 2 && NoOverlap(surf, toks)
    requires MergesMatches(ms, surf, toks, rw, merge) && DropsCovered(surf, toks, dr)
    ensures Kept(rw, dr) == CollapseWith(ms, surf, toks, 0, merge)
  {
    assert !Covered(surf, toks, 0);
    ApplyFrom(ms, surf, toks, rw, dr, merge, 0);
  }

  /** Overlapping matches: three records with the same surface `x` and the phrase
      `x x` match at 0 and 1; both spans are merged from the original records and
      positions 1 and 2 are removed, leaving only the merge of the first two records. */
  lemma OverlapKeepsFirstSpan(a: Morph, b: Morph, c: Morph, x: string)
    requires |a| == 10 && |b| == 10 && |c| == 10
    requires a[0] == x && b[0] == x && c[0] == x && ' ' !in x
    ensures ApplyPhrase([a, b, c], x + " " + x) == [Merged([a, b])]
  {
    var ms := [a, b, c];
    SplitJoin([x, x], ' ');
    assert Split(x + " " + x, ' ') == [x, x];
    assert Surfaces(ms) == [x, x, x];
    OverlapMatches(Surfaces(ms), x);
    OverlapResult(a, b, c);
  }

  /** The tokens `x x` stand at positions 0 and 1 of three equal surfaces. */
  lemma OverlapMatches(surf: seq<string>, x: string)
    requires surf == [x, x, x]
    ensures Matches(surf, [x, x]) == [0, 1]
  {
    var toks := [x, x];
    assert MatchAt(surf, toks, 0) && MatchAt(surf, toks, 1);
    assert MatchesFrom(surf, toks, 2) == [];
    assert MatchesFrom(surf, toks, 1) == [1];
  }

  /** Merging at 0 and 1 with spans of two, then removing 1 and 2, leaves the first merge. */
  lemma OverlapResult(a: Morph, b: Morph, c: Morph)
    requires |a| == 10 && |b| == 10 && |c| == 10
    ensures Kept(Rewrite([a, b, c], [0, 1], 2), DropIndices([0, 1], 2)) == [Merged([a, b])]
  {
    var rw := Rewrite([a, b, c], [0, 1], 2);
    assert rw[0] == Merged([a, b]) by {
      assert [a, b, c][0..2] == [a, b];
    }
    OverlapDrops();
    KeptFromSpan(rw, DropIndices([0, 1], 2), 0, 3);
  }

  lemma OverlapDrops()
    ensures 0 !in DropIndices([0, 1], 2) && 1 in DropIndices([0, 1], 2) && 2 in DropIndices([0, 1], 2)
  {
    var m: seq<nat> := [0, 1];
    assert m[0] < 1 < m[0] + 2 && m[1] < 2 < m[1] + 2;
  }
}
