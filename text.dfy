/** Strings as the analyser's text uses them: counting a character, splitting on a
    one-character separator and joining with one, with the meaning of Python's
    `str.count`, `str.split(sep)` and `sep.join(parts)` for a separator of length one. */
module Text {

  /** Number of occurrences of `c` in `s`. */
  function Count(s: string, c: char): (n: nat)
    ensures n <= |s|
    ensures n == 0 <==> c !in s
  {
    if s == [] then 0 else (if s[0] == c then 1 else 0) + Count(s[1..], c)
  }

  lemma {:induction false} CountAppend(a: string, b: string, c: char)
    ensures Count(a + b, c) == Count(a, c) + Count(b, c)
  {
    if a == [] {
      assert a + b == b;
    } else {
      assert (a + b)[1..] == a[1..] + b;
      CountAppend(a[1..], b, c);
    }
  }

  /** The pieces of `s` between occurrences of `c`; there is always at least one piece,
      and `Split("", c) == [""]`, as in Python. */
  function Split(s: string, c: char): (parts: seq<string>)
    ensures |parts| == Count(s, c) + 1
  {
    if s == [] then [""]
    else
      var rest := Split(s[1..], c);
      if s[0] == c then [""] + rest
      else [[s[0]] + rest[0]] + rest[1..]
  }

  /** No piece holds the separator. */
  lemma {:induction false} SplitPieces(s: string, c: char)
    ensures forall i :: 0 <= i < |Split(s, c)| ==> c !in Split(s, c)[i]
  {
    if s != [] {
      SplitPieces(s[1..], c);
      var rest := Split(s[1..], c);
      if s[0] != c {
        assert c !in [s[0]] + rest[0];
      }
    }
  }

  /** The parts with one `c` between each two neighbours. */
  function Join(parts: seq<string>, c: char): string
  {
    if parts == [] then ""
    else if |parts| == 1 then parts[0]
    else parts[0] + [c] + Join(parts[1..], c)
  }

  /** Joining what was split gives the text back. */
  lemma {:induction false} JoinSplit(s: string, c: char)
    ensures Join(Split(s, c), c) == s
  {
    if s != [] {
      var rest := Split(s[1..], c);
      JoinSplit(s[1..], c);
      if s[0] == c {
        JoinSeparatorFirst(rest, c);
      } else {
        JoinCharFirst(s[0], rest, c);
      }
      assert s == [s[0]] + s[1..];
    }
  }

  lemma {:induction false} JoinSeparatorFirst(rest: seq<string>, c: char)
    requires |rest| >= 1
    ensures Join([""] + rest, c) == [c] + Join(rest, c)
  {
    assert ([""] + rest)[1..] == rest;
  }

  lemma {:induction false} JoinCharFirst(x: char, rest: seq<string>, c: char)
    requires |rest| >= 1
    ensures Join([[x] + rest[0]] + rest[1..], c) == [x] + Join(rest, c)
  {
    var parts := [[x] + rest[0]] + rest[1..];
    if |rest| > 1 {
      assert parts[1..] == rest[1..];
      assert [x] + rest[0] + [c] + Join(rest[1..], c) == [x] + (rest[0] + [c] + Join(rest[1..], c));
    }
  }

  /** A text without the separator is one piece. */
  lemma {:induction false} SplitNoSeparator(p: string, c: char)
    requires c !in p
    ensures Split(p, c) == [p]
  {
    if p != [] {
      SplitNoSeparator(p[1..], c);
      assert [p[0]] + p[1..] == p;
    }
  }

  /** A piece free of the separator, then the separator, splits off as the first piece. */
  lemma {:induction false} SplitPrefix(p: string, t: string, c: char)
    requires c !in p
    ensures Split(p + [c] + t, c) == [p] + Split(t, c)
  {
    if p == [] {
      assert (p + [c] + t)[1..] == t;
    } else {
      var s := p + [c] + t;
      assert s == p + ([c] + t);
      HeadSlices(p, [c] + t);
      assert s[1..] == p[1..] + [c] + t;
      SplitPrefix(p[1..], t, c);
      SplitGlue(s, c, p[1..], Split(t, c));
    }
  }

  lemma HeadSlices(p: string, u: string)
    requires p != []
    ensures (p + u)[0] == p[0] && (p + u)[1..] == p[1..] + u && [p[0]] + p[1..] == p
  {
  }

  /** A leading character other than the separator joins the first piece of the rest. */
  lemma SplitGlue(s: string, c: char, first: string, others: seq<string>)
    requires |s| > 0 && s[0] != c && Split(s[1..], c) == [first] + others
    ensures Split(s, c) == [[s[0]] + first] + others
  {
  }

  /** Splitting what was joined gives the parts back, when no part holds the separator. */
  lemma {:induction false} SplitJoin(parts: seq<string>, c: char)
    requires |parts| >= 1
    requires forall i :: 0 <= i < |parts| ==> c !in parts[i]
    ensures Split(Join(parts, c), c) == parts
  {
    if |parts| == 1 {
      SplitNoSeparator(parts[0], c);
    } else {
      SplitJoin(parts[1..], c);
      SplitPrefix(parts[0], Join(parts[1..], c), c);
      assert [parts[0]] + parts[1..] == parts;
    }
  }

  /** Joining after appending one part adds the separator and that part. */
  lemma {:induction false} JoinSnoc(parts: seq<string>, x: string, c: char)
    requires |parts| >= 1
    ensures Join(parts + [x], c) == Join(parts, c) + [c] + x
  {
    if |parts| == 1 {
      assert (parts + [x])[1..] == [x];
    } else {
      assert (parts + [x])[1..] == parts[1..] + [x];
      JoinSnoc(parts[1..], x, c);
    }
  }

  /** A trailing group of parts may be joined first. */
  lemma {:induction false} JoinNested(a: seq<string>, b: seq<string>, c: char)
    requires |b| >= 1
    ensures Join(a + [Join(b, c)], c) == Join(a + b, c)
  {
    if a == [] {
      assert a + [Join(b, c)] == [Join(b, c)];
      assert a + b == b;
    } else {
      assert (a + [Join(b, c)])[1..] == a[1..] + [Join(b, c)];
      assert (a + b)[1..] == a[1..] + b;
      JoinNested(a[1..], b, c);
      if |a| == 1 {
        assert a[1..] == [];
        assert a[1..] + b == b;
        assert a[1..] + [Join(b, c)] == [Join(b, c)];
      }
    }
  }

  /** A join of `n` parts holds at least `n - 1` separators. */
  lemma {:induction false} CountJoin(parts: seq<string>, c: char)
    requires |parts| >= 1
    ensures Count(Join(parts, c), c) >= |parts| - 1
  {
    if |parts| > 1 {
      CountJoin(parts[1..], c);
      CountAppend(parts[0], [c], c);
      CountAppend(parts[0] + [c], Join(parts[1..], c), c);
      assert Count([c], c) == 1 + Count([], c);
    }
  }

  /** Splitting a join whose parts, except perhaps the last, are free of the separator
      gives those parts back, followed by the pieces of the last part. */
  lemma {:induction false} SplitJoinLast(parts: seq<string>, c: char)
    requires |parts| >= 1
    requires forall i :: 0 <= i < |parts| - 1 ==> c !in parts[i]
    ensures Split(Join(parts, c), c) == parts[..|parts| - 1] + Split(parts[|parts| - 1], c)
  {
    if |parts| > 1 {
      SplitJoinCons(parts, c);
      SplitJoinLast(parts[1..], c);
      InitCons(parts, Split(parts[|parts| - 1], c));
    }
  }

  lemma SplitJoinCons(parts: seq<string>, c: char)
    requires |parts| > 1 && c !in parts[0]
    ensures Split(Join(parts, c), c) == [parts[0]] + Split(Join(parts[1..], c), c)
  {
    assert Join(parts, c) == parts[0] + [c] + Join(parts[1..], c);
    SplitPrefix(parts[0], Join(parts[1..], c), c);
  }

  lemma InitCons<T>(s: seq<T>, tail: seq<T>)
    requires |s| > 1
    ensures [s[0]] + (s[1..][..|s| - 2] + tail) == s[..|s| - 1] + tail
  {
    assert s[..|s| - 1] == [s[0]] + s[1..][..|s| - 2];
  }

  /** Two joins of the same number of parts, all but the last free of the separator, are
      equal only when the parts are. */
  lemma JoinInjective(a: seq<string>, b: seq<string>, c: char)
    requires |a| == |b| >= 1
    requires forall i :: 0 <= i < |a| - 1 ==> c !in a[i] && c !in b[i]
    requires Join(a, c) == Join(b, c)
    ensures a == b
  {
    JoinSameParts(a, b, c);
    SnocLast(a);
    SnocLast(b);
  }

  lemma {:induction false} JoinSameParts(a: seq<string>, b: seq<string>, c: char)
    requires |a| == |b| >= 1
    requires forall i :: 0 <= i < |a| - 1 ==> c !in a[i] && c !in b[i]
    requires Join(a, c) == Join(b, c)
    ensures a[..|a| - 1] == b[..|b| - 1] && a[|a| - 1] == b[|b| - 1]
  {
    var n := |a|;
    SplitJoinLast(a, c);
    SplitJoinLast(b, c);
    AppendCancel(a[..n - 1], Split(a[n - 1], c), b[..n - 1], Split(b[n - 1], c));
    JoinSplit(a[n - 1], c);
    JoinSplit(b[n - 1], c);
  }

  lemma AppendCancel<T>(x1: seq<T>, x2: seq<T>, y1: seq<T>, y2: seq<T>)
    requires |x1| == |y1| && x1 + x2 == y1 + y2
    ensures x1 == y1 && x2 == y2
  {
    assert x1 == (x1 + x2)[..|x1|] && y1 == (y1 + y2)[..|y1|];
    assert x2 == (x1 + x2)[|x1|..] && y2 == (y1 + y2)[|y1|..];
  }

  lemma SnocLast<T>(s: seq<T>)
    requires |s| >= 1
    ensures s == s[..|s| - 1] + [s[|s| - 1]]
  {
  }

  /** A character other than the separator is absent from the join when absent from
      every part. */
  lemma {:induction false} JoinExcludes(parts: seq<string>, c: char, x: char)
    requires x != c
    requires forall i :: 0 <= i < |parts| ==> x !in parts[i]
    ensures x !in Join(parts, c)
  {
    if |parts| > 1 {
      JoinExcludes(parts[1..], c, x);
    }
  }
}
