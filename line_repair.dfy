/** Column repair of analyser output (`format_mecab`, my_termextract.py:24-41): each
    newline-separated line gets placeholder columns appended according to the number of
    commas it holds, so that a morpheme line ends up with eight commas. */
module LineRepair {
  import opened Text

  /** The columns appended to a line holding `commas` commas: nothing to a sentinel line
      (no comma) or a complete line (eight), two placeholders to a line that lacks its
      reading and pronunciation (six), one placeholder otherwise. */
  function Padding(commas: nat): string
  {
    if commas == 0 || commas == 8 then ""
    else if commas == 6 then ",*,*"
    else ",*"
  }

  /** One line after repair: a line with no comma or with eight is returned as it is, a
      line with six gains `,*,*` and ends with eight, and any other line gains `,*`. */
  function RepairLine(line: string): (r: string)
    ensures |r| >= |line| && r[..|line|] == line
    ensures var c := Count(line, ',');
            Count(r, ',') == if c == 0 || c == 8 then c else if c == 6 then 8 else c + 1
    ensures '\n' !in line ==> '\n' !in r
    ensures var c := Count(line, ',');
            r == if c == 0 || c == 8 then line else if c == 6 then line + ",*,*" else line + ",*"
  {
    var pad := Padding(Count(line, ','));
    CountAppend(line, pad, ',');
    assert Count(",*", ',') == 1;
    assert Count(",*,*", ',') == 2;
    line + pad
  }

  /** Every line of a list, repaired in place. */
  function RepairAll(lines: seq<string>): (r: seq<string>)
    ensures |r| == |lines|
    ensures forall i :: 0 <= i < |r| ==> r[i] == RepairLine(lines[i])
  {
    seq(|lines|, i requires 0 <= i < |lines| => RepairLine(lines[i]))
  }

  /** The repaired text: it has as many lines as the input, in the same order, each one
      the repair of the input line at the same position. */
  function Formatted(text: string): (r: string)
    ensures Split(r, '\n') == RepairAll(Split(text, '\n'))
  {
    var lines := RepairAll(Split(text, '\n'));
    SplitPieces(text, '\n');
    SplitJoin(lines, '\n');
    Join(lines, '\n')
  }

  /** `format_mecab`: splits the text into lines, overwrites each line that needs padding,
      and joins the lines back with newlines. */
  method FormatMecab(text: string) returns (r: string)
    ensures r == Formatted(text)
  {
    var lines := Split(text, '\n');
    ghost var original := lines;
    for i := 0 to |lines|
      invariant |lines| == |original|
      invariant forall k :: 0 <= k < i ==> lines[k] == original[k] + Padding(Count(original[k], ','))
      invariant forall k :: i <= k < |lines| ==> lines[k] == original[k]
    {
      var commas := Count(lines[i], ',');
      if commas == 0 || commas == 8 {
        continue;
      } else if commas == 6 {
        lines := lines[i := lines[i] + ",*,*"];
      } else {
        lines := lines[i := lines[i] + ",*"];
      }
    }
    assert forall k :: 0 <= k < |lines| ==> lines[k] == RepairLine(original[k]);
    assert lines == RepairAll(original);
    r := Join(lines, '\n');
  }

  /** A line with 0, 6, 7 or 8 commas has 0 or 8 after one repair, so a second repair
      leaves it alone. */
  lemma SecondRepairStable(line: string)
    requires Count(line, ',') in {0, 6, 7, 8}
    ensures Count(RepairLine(line), ',') in {0, 8}
    ensures RepairLine(RepairLine(line)) == RepairLine(line)
  {
    assert Padding(Count(RepairLine(line), ',')) == "";
  }

  /** A line with 1 to 5 commas gains one column per pass only, so a second repair
      changes it again. */
  lemma SecondRepairGrows(line: string)
    requires 1 <= Count(line, ',') <= 5
    ensures RepairLine(RepairLine(line)) != RepairLine(line)
  {
    var once := RepairLine(line);
    assert Count(RepairLine(once), ',') > Count(once, ',');
  }

  /** Formatting twice is formatting once, for every text whose lines each hold 0, 6, 7
      or 8 commas (every line the analyser emits for a morpheme or a sentinel). */
  lemma FormattedTwice(text: string)
    requires forall line :: line in Split(text, '\n') ==> Count(line, ',') in {0, 6, 7, 8}
    ensures Formatted(Formatted(text)) == Formatted(text)
  {
    var once := Formatted(text);
    var lines := Split(once, '\n');
    forall i | 0 <= i < |lines|
      ensures RepairLine(lines[i]) == lines[i]
    {
      SecondRepairStable(Split(text, '\n')[i]);
    }
    assert RepairAll(lines) == lines;
    JoinSplit(once, '\n');
  }
}
