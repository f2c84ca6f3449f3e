# A verified model of `my_termextract.py`

`my_termextract.py` post-processes the text written by the MeCab morphological analyser
and folds ranked compound terms back into it. Its pipeline has these stages:

- `format_mecab` pads every line of the analyser text with `*` columns, according to how
  many commas the line holds.
- `morph_from_mecab` reads each line of the form `surface<TAB>f1,…,f9` as a record of
  ten fields.
- `concat_morph` merges a run of records into one.
- `itemremover` deletes positions from a sequence.
- The `TermExtract` class holds the repaired text, the ranked phrases and the current
  records. For each phrase, best first, it finds every span of records whose surfaces
  spell the phrase's space-separated tokens. It merges each span into its first record
  and deletes the rest of the span. It then hands out the surfaces joined with spaces
  (`get_wakati`), or the records written back in the analyser's format
  (`get_modified_mecab_text`).

The Dafny modules follow that structure:

| module | file | models |
|---|---|---|
| `Text` | text.dfy | Python's `str.count`, `str.split(c)` and `c.join` |
| `Faults` | faults.dfy | the raised errors, as `Result` values |
| `Removal` | removal.dfy | `itemremover` |
| `LineRepair` | line_repair.dfy | `format_mecab` |
| `Morphs` | morphs.dfy | `morph_from_mecab` |
| `Merge` | merge.dfy | `concat_morph` |
| `Resolve` | resolve.dfy | what one phrase does to the records, as a specification |
| `Render` | render.dfy | the two views handed out by the class |
| `Facade` | facade.dfy | the `TermExtract` class and its methods |

The imperative code keeps its form:

- the loop of `format_mecab`;
- the copy-and-assign of `concat_morph`;
- the `del` branch of `itemremover`;
- the class with its three fields, whose `get_morphs` overwrites records in a loop and
  then rebinds the list.

Each loop is proved against a specification function, and the properties the program
relies on are proved about those functions.

Where the program's own documentation and its code disagree, the model follows the code:

- A record has ten fields, not nine. The pattern has ten groups, so a complete analyser
  line has eight commas after the tab.
- A line with more than eight commas also gains `,*`, the same as a line with one to five
  or seven commas.
- Merging a single record is not the identity: a placeholder `"*"` in fields 7 to 9
  becomes `""`.

## Model

| member | source | states |
|---|---|---|
| Text.Count | my_termextract.py:34 | `str.count` of one character: at most the text's length, and zero exactly when the character does not occur. |
| Text.Split | my_termextract.py:32 | A split has one more piece than the text has separators. |
| Text.SplitPieces | my_termextract.py:32 | No piece of a split holds the separator. |
| Text.JoinSplit | my_termextract.py:32-41 | Joining the pieces of a split with the same separator gives the text back. |
| Text.SplitJoin | my_termextract.py:32-41 | Splitting a join of separator-free parts gives the parts back. |
| Text.Join | my_termextract.py:41 | `c.join(parts)`: the parts with one separator between each two neighbours (no contract of its own; `JoinSplit` and `SplitJoin` prove it inverse to `Split`). |
| Text.JoinInjective | my_termextract.py:186 | Two joins of the same number of parts, all but the last free of the separator, are equal only when the parts are. |
| Removal.Kept | my_termextract.py:18-21 | The comprehension branch keeps the elements whose index is not listed, and is never longer than its input. |
| Removal.KeptIsSurvivors | my_termextract.py:18-21 | The kept elements are exactly the elements at the indices in `0..len-1` that are not listed, in ascending order of index. `Survivors` is the independent reference definition of those indices. |
| Removal.KeptNone | my_termextract.py:18-21 | Listing no index of the sequence, in particular listing none at all, returns the sequence unchanged. |
| Removal.KeptAll | my_termextract.py:18-21 | Listing every index returns the empty sequence. |
| Removal.KeptSameMembers | my_termextract.py:18-21 | Only which indices are listed matters. A duplicate counts once, and the order is irrelevant. |
| Removal.DeleteAgrees | my_termextract.py:9-17 | For a non-negative in-range index, the single-index `del` branch gives what the comprehension branch gives. |
| Removal.ItemRemover | my_termextract.py:6-22 | With exactly one index, the result is an `IndexError` when the index is outside `-len..len-1`, and only then. A negative index counts from the end. When every index is non-negative and in range, the result is `Kept`. |
| Removal.RemoveKeysIsKept | my_termextract.py:7-8 | The mapping branch yields the values, in key order, of the keys not listed. This is removing the listed keys' positions from the list of values. |
| Removal.RemoveKeys | my_termextract.py:7-8 | The mapping branch: the values, in `keys()` order, of the keys not listed, never more than there are entries; `RemoveKeysIsKept` relates it to `Kept`. |
| LineRepair.RepairLine | my_termextract.py:34-40 | A line with 0 or 8 commas comes back unchanged. A line with 6 commas gains exactly `,*,*` and ends with 8. Any other line, including one with more than 8, gains exactly `,*` and one comma. No newline is added. |
| LineRepair.Formatted | my_termextract.py:32-41 | The repaired text has as many lines as the input, in the same order, and each is the repair of the input line at the same position. |
| LineRepair.FormatMecab | my_termextract.py:24-41 | The loop that overwrites each line in place produces `Formatted(text)`. |
| LineRepair.SecondRepairStable | my_termextract.py:35-40 | A line with 0, 6, 7 or 8 commas has 0 or 8 commas after one repair, so a second repair leaves it unchanged. |
| LineRepair.SecondRepairGrows | my_termextract.py:35-40 | A line with 1 to 5 commas changes again on a second repair. |
| LineRepair.FormattedTwice | my_termextract.py:32-41 | Formatting twice equals formatting once, for text whose lines each hold 0, 6, 7 or 8 commas. |
| Morphs.ParseLine | my_termextract.py:53-63 | A record line gives ten fields. Field 0 is the absorbed text followed by the part before the tab. Fields 1 to 8 hold no comma. Fields 1 to 9 joined with commas give back the part after the tab. |
| Morphs.MorphFromMecab | my_termextract.py:43-68 | Every record the parser finds on well-formed text has ten fields. |
| Morphs.RecordCount | my_termextract.py:52-67 | The parser yields exactly one record per tabbed line. |
| Morphs.TabFreeYieldsNothing | my_termextract.py:52-67 | Lines without a tab yield no record. |
| Morphs.ParseAnalyserText | my_termextract.py:52-67 | Take text made of record lines followed only by tab-free lines such as `EOS` or a blank line. The parser reads each record line on its own, in line order, and the tab-free lines yield nothing. |
| Morphs.SentinelAbsorbed | my_termextract.py:53-54 | A tab-free line between two record lines is not skipped. It becomes, with its newline, the head of the next record's surface. |
| Merge.JoinKnown | my_termextract.py:85-89 | The concatenation of the non-placeholder values is never the placeholder `"*"`. |
| Merge.MergedFields | my_termextract.py:80-89 | Field 0 of the merged record is every surface of the run, in order. Fields 7 to 9 are the run's non-`"*"` values, in order, and never `"*"`. Every other field, including any past 9, is the last record's. |
| Merge.ConcatMorph | my_termextract.py:70-90 | Copying the last record and overwriting fields 0, 7, 8 and 9 gives the merged record `Merged(morphs)`. |
| Merge.MergeFrontFirst | my_termextract.py:83-89 | Merging the front part of a run first, then the whole, gives the merge of the whole run. |
| Merge.MergeBackFirst | my_termextract.py:83-89 | Merging the back part of a run first, then the whole, gives the merge of the whole run. |
| Merge.MergeAssociative | my_termextract.py:83-89 | Merging `[A, B, C]` equals merging `[merge(A, B), C]` and equals merging `[A, merge(B, C)]`. |
| Merge.MergeSingle | my_termextract.py:85-89 | A single record merges to itself exactly when none of fields 7 to 9 is `"*"`. A `"*"` there becomes `""`. |
| Resolve.Matches | my_termextract.py:159 | `match_indeces`: the positions from which the phrase's tokens stand in the surfaces, in ascending order (no contract of its own; `MatchesMembers` states membership and order). |
| Resolve.MatchesMembers | my_termextract.py:159 | The match indices are exactly the positions at which the phrase's tokens stand in the surfaces, in strictly ascending order. |
| Resolve.Rewrite | my_termextract.py:163-164 | After the merge loop, the list has its original length and every record still has ten fields. |
| Resolve.Range | my_termextract.py:165 | `range(lo, hi)` holds exactly the integers from `lo` up to `hi - 1`. |
| Resolve.Flatten | my_termextract.py:167 | A position is in the flattened list exactly when it is in one of the runs. |
| Resolve.DropRunsAt | my_termextract.py:162-165 | The `t`-th run of the drop list is the positions after the `t`-th match, up to the end of its span. |
| Resolve.DropIndices | my_termextract.py:162-167 | The deleted positions are exactly those strictly inside some matched span. |
| Resolve.DropIsCovered | my_termextract.py:159-167 | A position is deleted exactly when it lies strictly inside a span at which the tokens stand. |
| Resolve.ApplyPhrase | my_termextract.py:150-168 | One phrase keeps every record at ten fields and never lengthens the list. A non-empty list stays non-empty. |
| Resolve.ApplyAll | my_termextract.py:147-168 | Applying the phrases in rank order keeps every record at ten fields, and a non-empty list stays non-empty. |
| Resolve.UnmatchedPhraseUnchanged | my_termextract.py:155-168 | A phrase of fewer than two tokens, or one with no match, leaves the records unchanged. |
| Resolve.ApplyPhraseCollapses | my_termextract.py:159-168 | Suppose no two matches overlap. Then each matched span becomes one merged record at its start, and every other record keeps its place. This equals the left-to-right collapse `Collapse`, an independent reference definition. |
| Resolve.CollapseShrinks | my_termextract.py:159-168 | Without overlaps, the collapse has `len(tokens) - 1` records fewer per match. |
| Resolve.ApplyPhraseShrinks | my_termextract.py:159-168 | Without overlaps, a phrase shortens the list by `len(tokens) - 1` records per match. |
| Resolve.OverlapKeepsFirstSpan | my_termextract.py:159-168 | Take three records with the same surface `x` and the phrase `x x`. The matches are at 0 and 1, and only `concat_morph` of the first two records is left. |
| Render.Wakati | my_termextract.py:176 | The surfaces joined with single spaces (no contract of its own; `WakatiSplits` proves splitting it returns the surfaces). |
| Render.WakatiSplits | my_termextract.py:176 | Take at least one record, with no surface holding a space. Splitting the `get_wakati` text on spaces gives back the surfaces. |
| Render.RecordText | my_termextract.py:186 | One record written as its surface, a tab, and the other fields joined with commas (no contract of its own; `RecordTextParses` proves the parser reads it back). |
| Render.Serialize | my_termextract.py:186 | The record lines joined with newlines, then a newline, `EOS` and a final newline (no contract of its own; `SerializeRoundTrip` proves the parser reads it back). |
| Render.RecordTextParses | my_termextract.py:186 | The line written for a printable record is a record line, and the parser reads it back as the record. |
| Render.RecordTextsParse | my_termextract.py:186 | The lines written for printable records read back, one by one, as those records. |
| Render.SerializedLines | my_termextract.py:186 | The written text's lines are the record lines, then `EOS`, then an empty line. With no record, an empty line comes first. |
| Render.SerializeRoundTrip | my_termextract.py:178-186 | The text written for printable records is well formed, and `morph_from_mecab` reads it back as exactly those records. A record is printable when its surface is non-empty, no field holds a tab or newline, and fields 1 to 8 hold no comma. |
| Facade.Resolved | my_termextract.py:142-170 | The outcome of `get_morphs` fails exactly when there is a phrase to apply but no parsed record, and then with the unpacking error. A success has ten-field records, is no longer than the parse, and is non-empty when the parse is. |
| Facade.ApplyAllShrinks | my_termextract.py:147-168 | No sequence of phrases lengthens the record list. |
| Facade.NoTextNoRecords | my_termextract.py:106-109 | The placeholder text `"None"` is left alone by the repair and yields no record. |
| Facade.Merging | my_termextract.py:163-164 | The merge loop as a fold over the first `i` match positions, each step merging the span at that position of the records as they stand; it keeps the length and the ten fields of every record. |
| Facade.MergingIsRewrite | my_termextract.py:163-164 | The in-place merge loop writes only to ascending positions. So each span it merges reads the records as they were before the loop, and the loop's effect is `Rewrite`. |
| Facade.WordsFor | my_termextract.py:143-144 | The phrases `get_morphs` applies: those already set, or the ranker's when none are set (no contract of its own; `GetMorphs` stores it). |
| Facade.TermExtract.constructor | my_termextract.py:100-112 | The object holds the repaired given text, or the repaired `"None"` when none is given. It has no phrases and no records yet. |
| Facade.TermExtract.SetExtractedWords | my_termextract.py:136-137 | Replaces the phrases and nothing else. |
| Facade.TermExtract.GetRawMorphs | my_termextract.py:139-140 | Returns the parse of the repaired text and changes nothing. |
| Facade.TermExtract.GetMorphs | my_termextract.py:142-170 | When no phrase is set, the ranker's phrases are stored. The records become the parse with every phrase applied in order, and the result is `Resolved`. On the unpacking error, the records are left empty. The text is unchanged. |
| Facade.TermExtract.ResolvePhrase | my_termextract.py:149-168 | One pass of the loop body sets the records to `ApplyPhrase` of the old records, which stay non-empty. The text and the phrases are unchanged. |
| Facade.TermExtract.MergeSpans | my_termextract.py:162-165 | The merge loop leaves the records as the fold `Merging` over the match positions, and its drop list is one run per match. |
| Facade.TermExtract.GetWakati | my_termextract.py:172-176 | With records already held, it returns the surfaces joined with single spaces and changes nothing else. Otherwise it resolves first, as `get_morphs` does: the phrases (the ranker's when none were set) and the resolved records stay in the object. A failure is passed on and leaves the records empty. |
| Facade.TermExtract.GetModifiedMecabText | my_termextract.py:178-186 | With records already held, it returns them written in the analyser's line format, followed by `EOS`, and changes nothing else. Otherwise it resolves first, as `get_morphs` does: the phrases (the ranker's when none were set) and the resolved records stay in the object. A failure is passed on and leaves the records empty. |

## Left out

- `get_extracted_words` (my_termextract.py:118-134) is not modelled. It scores compound
  nouns with the external `termextract` library, using floating-point importance and
  `Counter.most_common`. Its result enters as the parameter `ranker` of `GetMorphs`,
  `GetWakati` and `GetModifiedMecabText`: the function from the repaired text to the
  phrases, best first.
- `read` and the `mecab_path` branch of `__init__` (my_termextract.py:104-105, 114-116)
  read a file, so they are not modelled. The constructor takes the text or nothing.
- The `__main__` demonstration (my_termextract.py:188-203) calls the analyser itself and
  is not modelled.
- The missing `import re` and `from pathlib import Path` are not modelled. The model
  treats `re.compile` and `Path` as available.
- Morphs.MorphFromMecab: defined only on well-formed text, in which every line holding a
  tab has a non-empty surface, one tab and at least eight commas after it. The regular
  expression's behaviour on other tabbed lines, where part of a malformed line can run
  into the next record, is not modelled. Tab-free lines are modelled in full, including
  their absorption into the next surface.
- Facade.TermExtract.GetRawMorphs: requires well-formed repaired text, for the same
  reason.
- Facade.TermExtract.GetMorphs: requires well-formed repaired text, for the same reason.
- Facade.TermExtract.GetWakati: requires well-formed repaired text, for the same reason.
- Facade.TermExtract.GetModifiedMecabText: requires well-formed repaired text, for the
  same reason.
- Removal.ItemRemover: the result is not typed by its input. The source rebuilds a
  string with `''.join` and anything else as a tuple; the model returns a sequence of the
  same element type in both cases.
- Removal.RemoveKeys: takes the mapping as its list of entries in the order `keys()`
  yields them, rather than as a dictionary.
- Resolve.ApplyPhrase: is exact for overlapping matches as well, but the general effect
  of overlaps is not characterised. Only the three-record example
  (`OverlapKeepsFirstSpan`) is proved.
- Python exceptions are results, not control flow. The `IndexError` of `del` is
  `Failure(IndexOutOfRange)`, and the `ValueError` of unpacking an empty `zip` is
  `Failure(NoRecords)`. What the object holds after that error is stated: the phrases as
  set and an empty record list.
- `copy.deepcopy` in `concat_morph` is implicit, because records are values.
