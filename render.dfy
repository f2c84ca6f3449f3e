/** The two views of the records that `TermExtract` hands out: the space-separated surfaces
    (`get_wakati`, my_termextract.py:172-176) and the records written back in the
    analyser's own line format (`get_modified_mecab_text`, my_termextract.py:178-186). */
module Render {
  import opened Text
  import opened Morphs
  import opened Resolve

  /** The surfaces joined with single spaces. */
  function Wakati(ms: seq<Morph>): string
    requires forall i :: 0 <= i < |ms| ==> |ms[i]| > 0
  {
    Join(Surfaces(ms), ' ')
  }

  /** Splitting the space-joined surfaces on spaces gives the surfaces back, when there is
      at least one record and no surface holds a space. */
  lemma WakatiSplits(ms: seq<Morph>)
    requires |ms| >= 1
    requires forall i :: 0 <= i < |ms| ==> |ms[i]| > 0 && ' ' !in ms[i][0]
    ensures Split(Wakati(ms), ' ') == Surfaces(ms)
  {
    SplitJoin(Surfaces(ms), ' ');
  }

  /** One record as a line: the surface, a tab, then the other fields joined with
      commas. */
  function RecordText(m: Morph): string
    requires |m| > 0
  {
    m[0] + "\t" + Join(m[1..], ',')
  }

  /** Every record as a line, in order. */
  function RecordTexts(ms: seq<Morph>): (r: seq<string>)
    requires forall i :: 0 <= i < |ms| ==> |ms[i]| > 0
    ensures |r| == |ms|
  {
    if ms == [] then [] else [RecordText(ms[0])] + RecordTexts(ms[1..])
  }

  /** The record lines joined with newlines, then a newline, the `EOS` sentinel and a
      final newline. */
  function Serialize(ms: seq<Morph>): string
    requires forall i :: 0 <= i < |ms| ==> |ms[i]| > 0
  {
    Join(RecordTexts(ms), '\n') + "\nEOS\n"
  }

  /** A record that survives being written out and read back: ten fields, a non-empty
      surface, no tab or newline in any field and no comma in fields 1 to 8. */
  predicate Printable(m: Morph)
  {
    |m| == 10 && m[0] != "" &&
    (forall k :: 0 <= k < 10 ==> '\t' !in m[k] && '\n' !in m[k]) &&
    (forall k :: 1 <= k <= 8 ==> ',' !in m[k])
  }

  /** The line of a printable record splits at its one tab into the surface and the
      comma-joined other fields, and holds no newline. */
  lemma RecordTextSplits(m: Morph)
    requires Printable(m)
    ensures Split(RecordText(m), '\t') == [m[0], Join(m[1..], ',')]
    ensures RecordLine(RecordText(m))
    ensures '\n' !in RecordText(m)
  {
    var rest := Join(m[1..], ',');
    JoinExcludes(m[1..], ',', '\t');
    JoinExcludes(m[1..], ',', '\n');
    SplitPrefix(m[0], rest, '\t');
    SplitNoSeparator(rest, '\t');
    CountJoin(m[1..], ',');
  }

  /** The parser reads the line of a printable record back as the record itself. */
  lemma RecordTextParses(m: Morph)
    requires Printable(m)
    ensures RecordLine(RecordText(m))
    ensures ParseLine("", RecordText(m)) == m
    ensures '\n' !in RecordText(m)
  {
    RecordTextSplits(m);
    var r := ParseLine("", RecordText(m));
    SameTail(r, m);
  }

  lemma SameTail(r: Morph, m: Morph)
    requires Printable(m) && |r| == 10 && r[0] == "" + m[0]
    requires forall k :: 1 <= k <= 8 ==> ',' !in r[k]
    requires Join(r[1..], ',') == Join(m[1..], ',')
    ensures r == m
  {
    JoinInjective(r[1..], m[1..], ',');
    assert "" + m[0] == m[0];
    assert r == [r[0]] + r[1..] && m == [m[0]] + m[1..];
  }

  /** Reading back the lines of printable records gives the records. */
  lemma {:induction false} RecordTextsParse(ms: seq<Morph>)
    requires Shaped(ms) && forall i :: 0 <= i < |ms| ==> Printable(ms[i])
    ensures forall i :: 0 <= i < |ms| ==> RecordLine(RecordTexts(ms)[i]) && '\n' !in RecordTexts(ms)[i]
    ensures LineRecords(RecordTexts(ms)) == ms
  {
    if ms != [] {
      RecordTextParses(ms[0]);
      RecordTextsParse(ms[1..]);
    }
  }

  /** `get_modified_mecab_text` inverts `morph_from_mecab` on printable records: the text
      it writes is well formed and parses back to exactly the records written. */
  lemma SerializeRoundTrip(ms: seq<Morph>)
    requires Shaped(ms) && forall i :: 0 <= i < |ms| ==> Printable(ms[i])
    ensures WellFormed(Serialize(ms))
    ensures MorphFromMecab(Serialize(ms)) == ms
  {
    SerializedLines(ms);
    RecordTextsParse(ms);
    if ms == [] {
      ParseAnalyserText(Serialize(ms), 0);
    } else {
      var recs := RecordTexts(ms);
      RecordsThenTrailer(recs);
      ParseAnalyserText(Serialize(ms), |recs|);
    }
  }

  /** Record lines followed by the two trailer lines have the analyser's shape. */
  lemma RecordsThenTrailer(recs: seq<string>)
    requires forall i :: 0 <= i < |recs| ==> RecordLine(recs[i])
    ensures TrailSplit(recs + ["EOS", ""], |recs|)
    ensures (recs + ["EOS", ""])[..|recs|] == recs
  {
    assert !Tabbed("EOS") && !Tabbed("");
  }

  /** The lines of the written text: the record lines, then `EOS`, then an empty line;
      with no record, an empty line comes first. */
  lemma SerializedLines(ms: seq<Morph>)
    requires Shaped(ms) && forall i :: 0 <= i < |ms| ==> Printable(ms[i])
    ensures Split(Serialize(ms), '\n') ==
            if ms == [] then ["", "EOS", ""] else RecordTexts(ms) + ["EOS", ""]
  {
    RecordTextsParse(ms);
    if ms == [] {
      TrailerLines();
    } else {
      RecordLinesThenTrailer(RecordTexts(ms));
    }
  }

  lemma TrailerLines()
    ensures Split("" + "\nEOS\n", '\n') == ["", "EOS", ""]
  {
    var parts := ["", "EOS", ""];
    assert parts[1..] == ["EOS", ""] && parts[1..][1..] == [""];
    assert Join(parts, '\n') == "" + "\nEOS\n";
    SplitJoin(parts, '\n');
  }

  lemma RecordLinesThenTrailer(recs: seq<string>)
    requires |recs| >= 1 && forall i :: 0 <= i < |recs| ==> '\n' !in recs[i]
    ensures Split(Join(recs, '\n') + "\nEOS\n", '\n') == recs + ["EOS", ""]
  {
    JoinTrailer(recs);
    TrailerFree(recs);
    SplitJoin(recs + ["EOS", ""], '\n');
  }

  lemma JoinTrailer(recs: seq<string>)
    requires |recs| >= 1
    ensures Join(recs + ["EOS", ""], '\n') == Join(recs, '\n') + "\nEOS\n"
  {
    JoinSnoc(recs, "EOS", '\n');
    JoinSnoc(recs + ["EOS"], "", '\n');
    TwoSnoc(recs, "EOS", "");
    TrailerText(Join(recs, '\n'));
  }

  lemma TwoSnoc<T>(s: seq<T>, x: T, y: T)
    ensures s + [x] + [y] == s + [x, y]
  {
  }

  lemma TrailerText(x: string)
    ensures x + ['\n'] + "EOS" + ['\n'] + "" == x + "\nEOS\n"
  {
  }

  lemma TrailerFree(recs: seq<string>)
    requires forall i :: 0 <= i < |recs| ==> '\n' !in recs[i]
    ensures forall i :: 0 <= i < |recs + ["EOS", ""]| ==> '\n' !in (recs + ["EOS", ""])[i]
  {
  }
}
