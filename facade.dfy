/** The `TermExtract` class (my_termextract.py:92-186): it holds the repaired analyser
    text, the ranked compound phrases and the current records, and rewrites the records
    phrase by phrase. The ranking itself comes from an external library and enters here
    as the parameter `ranker`, the function from the repaired text to the ranked phrases
    (best first) that `get_extracted_words` would compute. */
module Facade {
  import opened Text
  import opened Faults
  import opened LineRepair
  import opened Morphs
  import opened Merge
  import opened Removal
  import opened Resolve
  import opened Render

  /** What `get_morphs` produces from the repaired text and the phrases it applies: the
      parsed records with every phrase applied in rank order; the unpacking of the
      surfaces fails when there is a phrase to apply but no record. */
  function Resolved(text: string, words: seq<string>): (r: Result<seq<Morph>>)
    requires WellFormed(text)
    ensures r.Failure? <==> MorphFromMecab(text) == [] && words != []
    ensures r.Failure? ==> r.error == NoRecords
    ensures r.Success? ==> Shaped(r.value) && |r.value| <= |MorphFromMecab(text)|
    ensures r.Success? && MorphFromMecab(text) != [] ==> r.value != []
  {
    var ms := MorphFromMecab(text);
    if ms == [] && words != [] then Failure(NoRecords)
    else
      ApplyAllShrinks(ms, words);
      Success(ApplyAll(ms, words))
  }

  /** No phrase makes the list longer. */
  lemma {:induction false} ApplyAllShrinks(ms: seq<Morph>, phrases: seq<string>)
    requires Shaped(ms)
    ensures |ApplyAll(ms, phrases)| <= |ms|
  {
    if phrases != [] {
      ApplyAllShrinks(ms, phrases[..|phrases| - 1]);
    }
  }

  /** The phrases `get_morphs` applies: those already set, or the ranker's when none are. */
  function WordsFor(words: seq<string>, ranker: string -> seq<string>, text: string): seq<string>
  {
    if words == [] then ranker(text) else words
  }

  /** The text the class starts from when it is given neither text nor a path holds no
      record. */
  lemma NoTextNoRecords()
    ensures Formatted("None") == "None"
    ensures WellFormed(Formatted("None")) && MorphFromMecab(Formatted("None")) == []
  {
    SplitNoSeparator("None", '\n');
    assert Count("None", ',') == 0;
    assert "None" + "" == "None";
    assert RepairLine("None") == "None";
    assert RepairAll(["None"]) == ["None"];
    SplitJoin(["None"], '\n');
    assert !Tabbed("None");
    assert Split("None", '\n')[1..] == [];
  }

  class TermExtract {
    /** The analyser text, repaired by `format_mecab`. */
    var mecabText: string
    /** The compound phrases, best first. */
    var extractedWords: seq<string>
    /** The current records. */
    var morphs: seq<Morph>

    /** The records always have the parser's ten fields. */
    predicate Valid()
      reads this
    {
      Shaped(morphs)
    }

    /** `__init__` without a path: the given text, or the text `"None"` when there is
        none, repaired; no phrases and no records yet. */
    constructor (text: Option<string>)
      ensures mecabText == Formatted(if text.Some? then text.value else "None")
      ensures extractedWords == [] && morphs == []
      ensures Valid()
    {
      var raw := if text.Some? then text.value else "None";
      var formatted := FormatMecab(raw);
      mecabText := formatted;
      extractedWords := [];
      morphs := [];
    }

    /** `set_extracted_words`: replaces the phrases and nothing else. */
    method SetExtractedWords(words: seq<string>)
      modifies this
      ensures extractedWords == words
      ensures mecabText == old(mecabText) && morphs == old(morphs)
    {
      extractedWords := words;
    }

    /** `get_raw_morphs`: the records of the repaired text, before any phrase; the state
        is left as it is. */
    method GetRawMorphs() returns (r: seq<Morph>)
      requires WellFormed(mecabText)
      ensures r == MorphFromMecab(mecabText) && Shaped(r)
    {
      r := MorphFromMecab(mecabText);
    }

    /** `get_morphs`: when no phrase is set yet, asks the ranker for them; parses the
        repaired text afresh and applies every phrase in rank order. Taking the surfaces
        apart fails, for every phrase, when there is no record. */
    method GetMorphs(ranker: string -> seq<string>) returns (r: Result<seq<Morph>>)
      requires WellFormed(mecabText)
      modifies this
      ensures mecabText == old(mecabText)
      ensures extractedWords == WordsFor(old(extractedWords), ranker, mecabText)
      ensures r == Resolved(mecabText, extractedWords)
      ensures r.Success? ==> morphs == r.value
      ensures r.Failure? ==> morphs == []
      ensures Valid()
    {
      if |extractedWords| == 0 {
        extractedWords := ranker(mecabText);
      }
      morphs := MorphFromMecab(mecabText);
      ghost var parsed := morphs;
      ghost var words := extractedWords;
      var i := 0;
      while i < |extractedWords|
        invariant 0 <= i <= |words| && Shaped(parsed)
        invariant mecabText == old(mecabText) && extractedWords == words
        invariant morphs == ApplyAll(parsed, words[..i])
        invariant i > 0 ==> parsed != []
      {
        if morphs == [] {
          assert parsed == [] && words != [];
          return Failure(NoRecords);
        }
        ApplyAllStep(parsed, words, i);
        ResolvePhrase(extractedWords[i]);
        i := i + 1;
      }
      assert words[..i] == words;
      r := Success(morphs);
    }

    /** `get_wakati`: the records are resolved first when there are none yet; the
        surfaces of the records, separated by single spaces. */
    method GetWakati(ranker: string -> seq<string>) returns (r: Result<string>)
      requires WellFormed(mecabText) && Valid()
      modifies this
      ensures mecabText == old(mecabText) && Valid()
      ensures old(morphs) != [] ==>
                r == Success(Wakati(morphs)) && morphs == old(morphs) && extractedWords == old(extractedWords)
      ensures old(morphs) == [] ==>
                var res := Resolved(mecabText, WordsFor(old(extractedWords), ranker, mecabText));
                extractedWords == WordsFor(old(extractedWords), ranker, mecabText) &&
                (res.Success? ==> morphs == res.value && r == Success(Wakati(res.value))) &&
                (res.Failure? ==> morphs == [] && r == Failure(res.error))
    {
      if |morphs| == 0 {
        var res := GetMorphs(ranker);
        if res.Failure? {
          return Failure(res.error);
        }
      }
      r := Success(Wakati(morphs));
    }

    /** `get_modified_mecab_text`: the records are resolved first when there are none
        yet; the records written back in the analyser's line format. */
    method GetModifiedMecabText(ranker: string -> seq<string>) returns (r: Result<string>)
      requires WellFormed(mecabText) && Valid()
      modifies this
      ensures mecabText == old(mecabText) && Valid()
      ensures old(morphs) != [] ==>
                r == Success(Serialize(morphs)) && morphs == old(morphs) && extractedWords == old(extractedWords)
      ensures old(morphs) == [] ==>
                var res := Resolved(mecabText, WordsFor(old(extractedWords), ranker, mecabText));
                extractedWords == WordsFor(old(extractedWords), ranker, mecabText) &&
                (res.Success? ==> morphs == res.value && r == Success(Serialize(res.value))) &&
                (res.Failure? ==> morphs == [] && r == Failure(res.error))
    {
      if |morphs| == 0 {
        var res := GetMorphs(ranker);
        if res.Failure? {
          return Failure(res.error);
        }
      }
      r := Success(Serialize(morphs));
    }

    /** The body of the loop of `get_morphs` for one phrase: merges every matched span
        of the records as they stand into its first record, reading the records from
        before the loop, then removes the rest of every span in one batch. */
    method ResolvePhrase(phrase: string)
      requires Valid() && morphs != []
      modifies this
      ensures morphs == ApplyPhrase(old(morphs), phrase)
      ensures Valid() && morphs != []
      ensures mecabText == old(mecabText) && extractedWords == old(extractedWords)
    {
      var surfaces := Surfaces(morphs);
      var cmpList := Split(phrase, ' ');
      var lenCmp := |cmpList|;
      if lenCmp < 2 {
        return;
      }
      var matchIndices := Matches(surfaces, cmpList);
      MatchesMembers(surfaces, cmpList);
      ghost var original := morphs;
      SortedAscending(matchIndices);
      var dropList := MergeSpans(matchIndices, lenCmp);
      MergingIsRewrite(original, matchIndices, |matchIndices|, lenCmp);
      assert matchIndices[..|matchIndices|] == matchIndices;
      var drops := Flatten(dropList);
      DropsInRange(matchIndices, lenCmp, |morphs|);
      var removed := ItemRemover(morphs, drops);
      PhraseOutcome(original, phrase, cmpList, matchIndices, morphs, drops);
      morphs := removed.value;
    }

    /** The merge loop of `get_morphs` for one phrase of `n` tokens matched at the
        ascending positions `m`: each matched span, read from the records as they stand,
        is merged into its first record; the positions after the first of every span are
        collected, one run per match. */
    method MergeSpans(m: seq<nat>, n: nat) returns (dropList: seq<seq<int>>)
      requires Valid() && n >= 1 && Fits(m, n, |morphs|)
      modifies this
      ensures morphs == Merging(old(morphs), m, |m|, n)
      ensures dropList == DropRuns(m, n)
      ensures mecabText == old(mecabText) && extractedWords == old(extractedWords)
    {
      ghost var original := morphs;
      dropList := [];
      var i := 0;
      while i < |m|
        invariant 0 <= i <= |m|
        invariant morphs == Merging(original, m, i, n)
        invariant dropList == DropRuns(m[..i], n)
        invariant mecabText == old(mecabText) && extractedWords == old(extractedWords)
      {
        var idx := m[i];
        assert idx in m;
        var merged := ConcatMorph(morphs[idx..idx + n]);
        MergingNext(original, m, i, i + 1, n, morphs);
        morphs := morphs[idx := merged];
        dropList := dropList + [Range(idx + 1, idx + n)];
        NextPrefix(m, i, n, dropList);
        i := i + 1;
      }
      assert m[..i] == m;
    }
  }

  /** Every position is larger than all the positions before it. */
  predicate Ascending(m: seq<nat>)
  {
    forall j :: 0 <= j < |m| ==> StartsAfter(m[..j], m[j])
  }

  predicate StartsAfter(pre: seq<nat>, x: nat)
  {
    forall y :: y in pre ==> y < x
  }

  /** Strictly increasing positions are ascending. */
  lemma SortedAscending(m: seq<nat>)
    requires forall t, u :: 0 <= t < u < |m| ==> m[t] < m[u]
    ensures Ascending(m)
  {
    forall j | 0 <= j < |m|
      ensures StartsAfter(m[..j], m[j])
    {
      forall t | 0 <= t < j
        ensures m[..j][t] < m[j]
      {
      }
    }
  }

  /** A span of `n` records fits at every position. */
  predicate Fits(m: seq<nat>, n: nat, len: nat)
  {
    forall x :: x in m ==> x + n <= len
  }

  /** The records once the spans at the first `i` matches are merged one after the
      other, each read from the records as they stand at that point. */
  function Merging(ms: seq<Morph>, m: seq<nat>, i: nat, n: nat): (r: seq<Morph>)
    requires Shaped(ms) && n >= 1 && Fits(m, n, |ms|) && i <= |m|
    ensures |r| == |ms| && Shaped(r)
  {
    if i == 0 then ms
    else
      var x := m[i - 1];
      assert x in m;
      MergeSpanAt(Merging(ms, m, i - 1, n), x, n)
  }

  /** The records with the span of `n` records at `x` merged into its first record. */
  function MergeSpanAt(cur: seq<Morph>, x: nat, n: nat): (r: seq<Morph>)
    requires Shaped(cur) && n >= 1 && x + n <= |cur|
    ensures |r| == |cur| && Shaped(r)
  {
    cur[x := Merged(cur[x..x + n])]
  }


  /** One more merge, at the next match. */
  lemma MergingNext(ms: seq<Morph>, m: seq<nat>, i: nat, k: nat, n: nat, cur: seq<Morph>)
    requires Shaped(ms) && n >= 1 && Fits(m, n, |ms|) && i < |m| && k == i + 1
    requires cur == Merging(ms, m, i, n)
    ensures m[i] + n <= |cur|
    ensures Merging(ms, m, k, n) == MergeSpanAt(cur, m[i], n)
  {
    assert m[i] in m;
    assert k - 1 == i;
  }

  /** Merging the spans one after the other is merging every span of the original
      records: each merge reads a span that the earlier ones, all at smaller
      positions, have not touched. */
  lemma {:induction false} MergingIsRewrite(ms: seq<Morph>, m: seq<nat>, i: nat, n: nat)
    requires Shaped(ms) && n >= 1 && Ascending(m) && Fits(m, n, |ms|) && i <= |m|
    ensures Fits(m[..i], n, |ms|)
    ensures Merging(ms, m, i, n) == Rewrite(ms, m[..i], n)
  {
    if i == 0 {
      RewriteNone(ms, m, n);
    } else {
      MergingIsRewrite(ms, m, i - 1, n);
      MergingStepIsRewrite(ms, m, i - 1, i, n);
    }
  }

  /** Before the first match nothing is merged. */
  lemma RewriteNone(ms: seq<Morph>, m: seq<nat>, n: nat)
    requires Shaped(ms) && n >= 1
    ensures m[..0] == [] && Fits(m[..0], n, |ms|)
    ensures Rewrite(ms, m[..0], n) == ms
  {
    assert m[..0] == [];
    var r := Rewrite(ms, [], n);
    forall j | 0 <= j < |ms|
      ensures r[j] == ms[j]
    {
      RewriteAt(ms, [], n, j);
    }
  }

  lemma MergingStepIsRewrite(ms: seq<Morph>, m: seq<nat>, j: nat, k: nat, n: nat)
    requires Shaped(ms) && n >= 1 && Ascending(m) && Fits(m, n, |ms|) && j < |m| && k == j + 1
    requires Fits(m[..j], n, |ms|) && Merging(ms, m, j, n) == Rewrite(ms, m[..j], n)
    ensures Fits(m[..k], n, |ms|) && Merging(ms, m, k, n) == Rewrite(ms, m[..k], n)
  {
    var prev := Merging(ms, m, j, n);
    MergingNext(ms, m, j, k, n, prev);
    assert StartsAfter(m[..j], m[j]);
    SnocPrefix(m, j, k);
    PrefixInRange(m, k, n, |ms|);
    RewriteNext(ms, m[..j], m[j], n, prev, m[..k]);
  }

  lemma SnocPrefix<T>(s: seq<T>, i: nat, k: nat)
    requires i < |s| && k == i + 1
    ensures s[..k] == s[..i] + [s[i]]
  {
  }

  /** Merging at `x`, reading the records as they stand, after the merges at `pre`. */
  lemma RewriteNext(ms: seq<Morph>, pre: seq<nat>, x: nat, n: nat, prev: seq<Morph>, next: seq<nat>)
    requires Shaped(ms) && n >= 1 && Fits(pre, n, |ms|) && x + n <= |ms|
    requires next == pre + [x] && Fits(next, n, |ms|)
    requires StartsAfter(pre, x)
    requires prev == Rewrite(ms, pre, n)
    ensures MergeSpanAt(prev, x, n) == Rewrite(ms, next, n)
  {
    RewriteBelow(ms, pre, x, n);
    RewriteExtend(ms, pre, x, n);
  }

  /** Merging at `x` once the merges at `pre` are done. */
  lemma RewriteExtend(ms: seq<Morph>, pre: seq<nat>, x: nat, n: nat)
    requires Shaped(ms) && n >= 1 && Fits(pre, n, |ms|) && Fits(pre + [x], n, |ms|) && x + n <= |ms|
    ensures Rewrite(ms, pre + [x], n) == Rewrite(ms, pre, n)[x := Merged(ms[x..x + n])]
  {
    var a := Rewrite(ms, pre + [x], n);
    var b := Rewrite(ms, pre, n)[x := Merged(ms[x..x + n])];
    forall j | 0 <= j < |ms|
      ensures a[j] == b[j]
    {
      RewriteAt(ms, pre + [x], n, j);
      RewriteAt(ms, pre, n, j);
    }
  }

  /** Merges at positions before `x` leave the records from `x` on as they were. */
  lemma RewriteBelow(ms: seq<Morph>, pre: seq<nat>, x: nat, n: nat)
    requires Shaped(ms) && n >= 1 && Fits(pre, n, |ms|) && x + n <= |ms|
    requires StartsAfter(pre, x)
    ensures Rewrite(ms, pre, n)[x..x + n] == ms[x..x + n]
  {
    var cur := Rewrite(ms, pre, n);
    forall j | x <= j < x + n
      ensures cur[j] == ms[j]
    {
      RewriteAt(ms, pre, n, j);
    }
  }

  /** One more phrase is one more application. */
  lemma ApplyAllStep(ms: seq<Morph>, words: seq<string>, i: nat)
    requires Shaped(ms) && i < |words|
    ensures ApplyAll(ms, words[..i + 1]) == ApplyPhrase(ApplyAll(ms, words[..i]), words[i])
  {
    assert words[..i + 1][..i] == words[..i];
  }


  /** Every prefix of in-range matches is in range. */
  lemma PrefixInRange(m: seq<nat>, k: nat, n: nat, len: nat)
    requires k <= |m| && Fits(m, n, len)
    ensures Fits(m[..k], n, len)
  {
    forall x | x in m[..k]
      ensures x + n <= len
    {
      var t :| 0 <= t < k && m[..k][t] == x;
      assert m[t] in m;
    }
  }

  /** What the loop and the batch removal compute is the phrase applied to the records. */
  lemma PhraseOutcome(ms: seq<Morph>, phrase: string, toks: seq<string>, m: seq<nat>,
                      rw: seq<Morph>, drops: seq<int>)
    requires Shaped(ms) && toks == Split(phrase, ' ') && |toks| >= 2
    requires m == Matches(Surfaces(ms), toks)
    requires forall x :: x in m ==> x + |toks| <= |ms|
    requires rw == Rewrite(ms, m, |toks|) && drops == DropIndices(m, |toks|)
    ensures ApplyPhrase(ms, phrase) == Kept(rw, drops)
  {
  }

  /** Extending the prefix of matches by one adds one run of drop positions. */
  lemma NextPrefix(m: seq<nat>, i: nat, n: nat, runs: seq<seq<int>>)
    requires i < |m|
    requires runs == DropRuns(m[..i], n) + [Range(m[i] + 1, m[i] + n)]
    ensures runs == DropRuns(m[..i + 1], n)
  {
    assert m[..i + 1][..i] == m[..i];
    assert m[..i + 1][i] == m[i];
  }

  /** Every position scheduled for removal lies inside the list. */
  lemma DropsInRange(m: seq<nat>, n: nat, len: nat)
    requires forall x :: x in m ==> x + n <= len
    ensures forall t :: 0 <= t < |DropIndices(m, n)| ==> 0 <= DropIndices(m, n)[t] < len
  {
    forall t | 0 <= t < |DropIndices(m, n)|
      ensures 0 <= DropIndices(m, n)[t] < len
    {
      var x := DropIndices(m, n)[t];
      assert x in DropIndices(m, n);
      var k :| 0 <= k < |m| && m[k] < x < m[k] + n;
      assert m[k] in m;
    }
  }
}
