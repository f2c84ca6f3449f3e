/** Morpheme records and the parser of analyser text (`morph_from_mecab`,
    my_termextract.py:43-68).

    The source matches the pattern `\n?([^\t]+?)\t` followed by eight comma-terminated
    lazy field groups of `[^\n\t]` and a last group running to the end of the line, with
    `findall`. This module models that match on texts whose tabbed lines are well formed
    (a non-empty surface, one tab, at least eight commas after it). On such text the
    pattern behaves as follows, and so does `MorphFromMecab`:
    - each tabbed line yields one record of ten fields: the surface, the eight pieces
      before the first eight commas, and the rest of the line;
    - a tab-free line yields no record of its own; since `[^\t]` also matches a newline,
      tab-free lines standing before a tabbed line are carried into that line's surface
      (each followed by its newline), and tab-free lines after the last tabbed line are
      dropped;
    - the leading `\n?` swallows the newline of an empty first line. */
module Morphs {
  import opened Text

  /** One analysed token: surface, part of speech, three part-of-speech subcategories,
      conjugation type, conjugation form, base form, reading, pronunciation. */
  type Morph = seq<string>

  /** Every record has the ten fields the parser produces. */
  predicate Shaped(ms: seq<Morph>)
  {
    forall i :: 0 <= i < |ms| ==> |ms[i]| == 10
  }

  predicate Tabbed(line: string)
  {
    '\t' in line
  }

  /** A line the pattern reads as one record: a non-empty surface, one tab, then at least
      eight commas. */
  predicate RecordLine(line: string)
  {
    var parts := Split(line, '\t');
    |parts| == 2 && parts[0] != "" && Count(parts[1], ',') >= 8
  }

  /** Every tabbed line is a record line; tab-free lines are arbitrary. */
  predicate WellFormedLines(lines: seq<string>)
  {
    forall i :: 0 <= i < |lines| ==> !Tabbed(lines[i]) || RecordLine(lines[i])
  }

  predicate WellFormed(text: string)
  {
    WellFormedLines(Split(text, '\n'))
  }

  /** The record read from a record line, whose surface is preceded by the text `carry`
      the pattern absorbed before it. Fields 1 to 8 are comma-free, and fields 1 to 9
      joined with commas give back the part of the line after the tab. */
  function ParseLine(carry: string, line: string): (m: Morph)
    requires RecordLine(line)
    ensures |m| == 10
    ensures m[0] == carry + Split(line, '\t')[0]
    ensures forall k :: 1 <= k <= 8 ==> ',' !in m[k]
    ensures Join(m[1..], ',') == Split(line, '\t')[1]
  {
    var parts := Split(line, '\t');
    var fields := Split(parts[1], ',');
    SplitPieces(parts[1], ',');
    var m := [carry + parts[0]] + fields[..8] + [Join(fields[8..], ',')];
    assert m[1..] == fields[..8] + [Join(fields[8..], ',')];
    JoinNested(fields[..8], fields[8..], ',');
    assert fields[..8] + fields[8..] == fields;
    JoinSplit(parts[1], ',');
    m
  }

  /** The records the pattern finds in `lines`, given the text `carry` absorbed from the
      tab-free lines before them. */
  function MorphsFrom(lines: seq<string>, carry: string): (ms: seq<Morph>)
    requires WellFormedLines(lines)
    ensures Shaped(ms)
  {
    if lines == [] then []
    else if !Tabbed(lines[0]) then MorphsFrom(lines[1..], carry + lines[0] + "\n")
    else [ParseLine(carry, lines[0])] + MorphsFrom(lines[1..], "")
  }

  /** `morph_from_mecab` on well-formed text. */
  function MorphFromMecab(text: string): (ms: seq<Morph>)
    requires WellFormed(text)
    ensures Shaped(ms)
  {
    var lines := Split(text, '\n');
    if lines[0] == "" then MorphsFrom(lines[1..], "") else MorphsFrom(lines, "")
  }

  /** Number of tabbed lines. */
  function TabbedCount(lines: seq<string>): nat
  {
    if lines == [] then 0 else (if Tabbed(lines[0]) then 1 else 0) + TabbedCount(lines[1..])
  }

  lemma {:induction false} MorphsFromCount(lines: seq<string>, carry: string)
    requires WellFormedLines(lines)
    ensures |MorphsFrom(lines, carry)| == TabbedCount(lines)
  {
    if lines != [] {
      if !Tabbed(lines[0]) {
        MorphsFromCount(lines[1..], carry + lines[0] + "\n");
      } else {
        MorphsFromCount(lines[1..], "");
      }
    }
  }

  /** The parser yields exactly one record per tabbed line. */
  lemma RecordCount(text: string)
    requires WellFormed(text)
    ensures |MorphFromMecab(text)| == TabbedCount(Split(text, '\n'))
  {
    var lines := Split(text, '\n');
    if lines[0] == "" {
      MorphsFromCount(lines[1..], "");
      assert lines == [lines[0]] + lines[1..];
    } else {
      MorphsFromCount(lines, "");
    }
  }

  /** The first `k` lines are record lines and the rest are tab-free: the shape of the
      analyser's output, which ends with its `EOS` sentinel and an empty last line. */
  predicate TrailSplit(lines: seq<string>, k: nat)
    requires k <= |lines|
  {
    (forall i :: 0 <= i < k ==> RecordLine(lines[i])) &&
    (forall i :: k <= i < |lines| ==> !Tabbed(lines[i]))
  }

  /** Each record line read on its own, with nothing carried into its surface. */
  function LineRecords(lines: seq<string>): (ms: seq<Morph>)
    requires forall i :: 0 <= i < |lines| ==> RecordLine(lines[i])
    ensures |ms| == |lines|
  {
    if lines == [] then [] else [ParseLine("", lines[0])] + LineRecords(lines[1..])
  }

  lemma {:induction false} TabFreeYieldsNothing(lines: seq<string>, carry: string)
    requires forall i :: 0 <= i < |lines| ==> !Tabbed(lines[i])
    ensures MorphsFrom(lines, carry) == []
  {
    if lines != [] {
      TabFreeYieldsNothing(lines[1..], carry + lines[0] + "\n");
    }
  }

  lemma {:induction false} RecordsThenSentinels(lines: seq<string>, k: nat)
    requires k <= |lines| && TrailSplit(lines, k)
    ensures WellFormedLines(lines)
    ensures MorphsFrom(lines, "") == LineRecords(lines[..k])
  {
    if k == 0 {
      TabFreeYieldsNothing(lines, "");
    } else {
      RecordIsTabbed(lines[0]);
      RecordsThenSentinels(lines[1..], k - 1);
      LineRecordsCons(lines, k);
    }
  }

  lemma RecordIsTabbed(line: string)
    requires RecordLine(line)
    ensures Tabbed(line)
  {
    assert |Split(line, '\t')| == 2;
  }

  lemma {:induction false} LineRecordsCons(lines: seq<string>, k: nat)
    requires 0 < k <= |lines|
    requires forall i :: 0 <= i < k ==> RecordLine(lines[i])
    ensures LineRecords(lines[..k]) == [ParseLine("", lines[0])] + LineRecords(lines[1..][..k - 1])
  {
    assert lines[..k][0] == lines[0];
    assert lines[..k][1..] == lines[1..][..k - 1];
  }

  /** On analyser-shaped text (record lines, then tab-free lines only) the parser reads
      every record line on its own: one ten-field record per tabbed line, in line order,
      field 0 the text before the tab, fields 1 to 8 the pieces before the first eight
      commas, field 9 the rest of the line (see `ParseLine`); the sentinel lines yield
      nothing. */
  lemma ParseAnalyserText(text: string, k: nat)
    requires k <= |Split(text, '\n')| && TrailSplit(Split(text, '\n'), k)
    ensures WellFormed(text)
    ensures MorphFromMecab(text) == LineRecords(Split(text, '\n')[..k])
  {
    var lines := Split(text, '\n');
    RecordsThenSentinels(lines, k);
    if lines[0] == "" {
      assert Split(lines[0], '\t') == [""];
      assert !RecordLine(lines[0]);
      assert k == 0;
      TabFreeYieldsNothing(lines[1..], "");
    }
  }

  /** The quirk of the pattern: a tab-free line `e` between two record lines is not
      skipped but becomes the head of the next record's surface. */
  lemma SentinelAbsorbed(text: string, a: string, e: string, b: string)
    requires Split(text, '\n') == [a, e, b]
    requires RecordLine(a) && !Tabbed(e) && RecordLine(b)
    ensures WellFormed(text)
    ensures |MorphFromMecab(text)| == 2
    ensures MorphFromMecab(text)[1][0] == e + "\n" + Split(b, '\t')[0]
  {
    RecordIsTabbed(a);
    RecordIsTabbed(b);
    assert a != "";
    var lines := [a, e, b];
    assert WellFormedLines(lines);
    var tail := AbsorbedTail(e, b);
    assert lines[1..] == [e, b];
    assert MorphFromMecab(text) == [ParseLine("", a)] + MorphsFrom([e, b], "");
  }

  /** A tab-free line followed by a record line yields one record, whose surface starts
      with the tab-free line and a newline. */
  lemma AbsorbedTail(e: string, b: string) returns (tail: seq<Morph>)
    requires !Tabbed(e) && RecordLine(b) && Tabbed(b)
    ensures WellFormedLines([e, b]) && WellFormedLines([b])
    ensures tail == MorphsFrom([e, b], "") && tail == [ParseLine(e + "\n", b)]
  {
    assert [e, b][1..] == [b] && [b][1..] == [];
    assert "" + e + "\n" == e + "\n";
    tail := MorphsFrom([e, b], "");
    assert tail == MorphsFrom([b], e + "\n");
  }

}
