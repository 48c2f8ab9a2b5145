/** analysis/too_high.py: collect the consensus ranges of the benchmark
    hits in one alignment file, count for every consensus position how many
    ranges cover it, and add up the counts of the ten matrices position by
    position.

    Both line patterns are anchored only at the end (`search` with `$`).
    Their leftmost match is found here by reading the line backwards: the
    reversed pattern is matched greedily from the start of the reversed
    line, and the first group, read backwards, ends at the start of a
    maximal digit run, which is where the leftmost match starts. */
module TooHigh {
  import opened Common
  import opened Text
  import opened Pattern

  /** The length of the DF0000187 consensus: one count per position. */
  const CONSENSUS_SIZE: nat := 5102

  /** `(\d+)\s+(\d+)\s+\(\d+\)\s*$`, reversed: `a b (c)` at the end of the
      line. Group 1 is span 7 and group 2 is span 5 of the reversed match. */
  const FORWARD_REV: seq<Tok> :=
    [Spaces(false), Lit(')'), Digits, Lit('('), Spaces(true), Digits, Spaces(true), Digits]

  /** `\(\d+\)\s+(\d+)\s+(\d+)\s*$`, reversed: `(c) a b` at the end of the
      line. Group 1 is span 3 and group 2 is span 1 of the reversed match. */
  const REVERSE_REV: seq<Tok> :=
    [Spaces(false), Digits, Spaces(true), Digits, Spaces(true), Lit(')'), Digits, Lit('(')]

  /** The value of the digits matched by span `sp` of the reversed line. */
  function GroupValue(rev: string, sp: Span): nat
  {
    DigitsValue(Reverse(SpanText(rev, sp)))
  }

  /** `regex1.search(line)`: the range `(group 1, group 2)`. */
  function Forward(line: string): (r: Option<(nat, nat)>)
    ensures r.Some? ==>
              exists sps :: Parses(Reverse(line), 0, FORWARD_REV, PySpace, sps)
                            && r.value == (GroupValue(Reverse(line), sps[7]), GroupValue(Reverse(line), sps[5]))
  {
    var rev := Reverse(line);
    match MatchAt(rev, 0, FORWARD_REV, PySpace)
    case None => None
    case Some(sps) => Some((GroupValue(rev, sps[7]), GroupValue(rev, sps[5])))
  }

  /** `regex2.search(line)`: the range `(group 2, group 1)`. */
  function Backward(line: string): (r: Option<(nat, nat)>)
    ensures r.Some? ==>
              exists sps :: Parses(Reverse(line), 0, REVERSE_REV, PySpace, sps)
                            && r.value == (GroupValue(Reverse(line), sps[1]), GroupValue(Reverse(line), sps[3]))
  {
    var rev := Reverse(line);
    match MatchAt(rev, 0, REVERSE_REV, PySpace)
    case None => None
    case Some(sps) => Some((GroupValue(rev, sps[1]), GroupValue(rev, sps[3])))
  }

  /** Completeness of both readings: any parse of the reversed line yields
      the range read from it. */
  lemma RangesComplete(line: string, sps: seq<Span>)
    ensures Parses(Reverse(line), 0, FORWARD_REV, PySpace, sps) ==>
              Forward(line) == Some((GroupValue(Reverse(line), sps[7]), GroupValue(Reverse(line), sps[5])))
    ensures Parses(Reverse(line), 0, REVERSE_REV, PySpace, sps) ==>
              Backward(line) == Some((GroupValue(Reverse(line), sps[1]), GroupValue(Reverse(line), sps[3])))
  {
    if Parses(Reverse(line), 0, FORWARD_REV, PySpace, sps) {
      MatchAtComplete(Reverse(line), 0, FORWARD_REV, PySpace, sps);
    }
    if Parses(Reverse(line), 0, REVERSE_REV, PySpace, sps) {
      MatchAtComplete(Reverse(line), 0, REVERSE_REV, PySpace, sps);
    }
  }

  /** The first character after the trailing whitespace, counted from the
      end of the line. */
  function LastMark(line: string): (r: Option<char>)
  {
    var rev := Reverse(line);
    var j := SkipWhile(rev, 0, PySpace);
    if j < |rev| then Some(rev[j]) else None
  }

  /** After the trailing whitespace, the second token of a reversed
      pattern must match. */
  lemma SecondToken(line: string, pat: seq<Tok>)
    requires |pat| >= 2 && pat[0] == Spaces(false)
    ensures var rev := Reverse(line);
            MatchAt(rev, 0, pat, PySpace).Some? ==> TokEnd(rev, SkipWhile(rev, 0, PySpace), pat[1], PySpace).Some?
  {
    var rev := Reverse(line);
    assert TokEnd(rev, 0, Spaces(false), PySpace) == Some(SkipWhile(rev, 0, PySpace));
    assert pat[1..][0] == pat[1];
  }

  /** A forward match ends with `)`, before any trailing whitespace. */
  lemma ForwardEndsWithParen(line: string)
    ensures Forward(line).Some? ==> LastMark(line) == Some(')')
  {
    SecondToken(line, FORWARD_REV);
  }

  /** A backward match ends with a digit, before any trailing whitespace. */
  lemma BackwardEndsWithDigit(line: string)
    ensures Backward(line).Some? ==> LastMark(line).Some? && IsDigit(LastMark(line).value)
  {
    SecondToken(line, REVERSE_REV);
  }

  /** The two `if`s are independent, but no line matches both patterns, so
      a line contributes at most one range. */
  lemma AtMostOneRange(line: string)
    ensures Forward(line).None? || Backward(line).None?
  {
    ForwardEndsWithParen(line);
    BackwardEndsWithDigit(line);
  }

  /** The ranges one line contributes: the forward match, then the backward
      one. */
  function LineRanges(line: string): (r: seq<(nat, nat)>)
    ensures |r| <= 1
  {
    AtMostOneRange(line);
    (match Forward(line) case None => [] case Some(p) => [p])
    + (match Backward(line) case None => [] case Some(p) => [p])
  }

  /** The ranges of a run of lines, in line order. */
  function Ranges(ls: seq<string>): seq<(nat, nat)>
  {
    if |ls| == 0 then [] else Ranges(ls[..|ls| - 1]) + LineRanges(ls[|ls| - 1])
  }

  /** Lines are read independently: the ranges of two runs of lines are
      those of the first followed by those of the second. */
  lemma {:induction false} RangesAppend(a: seq<string>, b: seq<string>)
    ensures Ranges(a + b) == Ranges(a) + Ranges(b)
    decreases |b|
  {
    if |b| > 0 {
      var b' := b[..|b| - 1];
      assert (a + b)[..|a + b| - 1] == a + b';
      assert (a + b)[|a + b| - 1] == b[|b| - 1];
      RangesAppend(a, b');
    } else {
      assert a + b == a;
    }
  }

  /* ---------------------------------------------------------------------
     Coverage counts.
     --------------------------------------------------------------------- */

  /** The number of ranges with `start <= x < end`. */
  function CoverCount(rs: seq<(nat, nat)>, x: int): nat
  {
    if |rs| == 0 then 0
    else CoverCount(rs[..|rs| - 1], x) + (if rs[|rs| - 1].0 <= x < rs[|rs| - 1].1 then 1 else 0)
  }

  /** Counts add up over concatenated range lists. */
  lemma {:induction false} CoverCountAppend(a: seq<(nat, nat)>, b: seq<(nat, nat)>, x: int)
    ensures CoverCount(a + b, x) == CoverCount(a, x) + CoverCount(b, x)
    decreases |b|
  {
    if |b| > 0 {
      var b' := b[..|b| - 1];
      assert (a + b)[..|a + b| - 1] == a + b';
      assert (a + b)[|a + b| - 1] == b[|b| - 1];
      CoverCountAppend(a, b', x);
    } else {
      assert a + b == a;
    }
  }

  lemma CoverCountSnoc(rs: seq<(nat, nat)>, i: nat, x: int)
    requires i < |rs|
    ensures CoverCount(rs[..i + 1], x) == CoverCount(rs[..i], x) + (if rs[i].0 <= x < rs[i].1 then 1 else 0)
  {
    assert rs[..i + 1][..i] == rs[..i];
  }

  /** A range that would write at or past `size`. */
  predicate Overruns(r: (nat, nat), size: nat)
  {
    r.0 < r.1 && r.1 > size
  }

  /** `for r in ranges: for x in range(r[0], r[1]): counts[x] += 1` on a
      list of `size` zeros: IndexError as soon as a range reaches past the
      list, and otherwise for every position the number of ranges covering
      it. */
  method CountCoverage(rs: seq<(nat, nat)>, size: nat) returns (r: Result<seq<nat>>)
    ensures r.Err? <==> exists k :: 0 <= k < |rs| && Overruns(rs[k], size)
    ensures r.Err? ==> r.error == IndexError
    ensures r.Ok? ==> |r.value| == size && forall x :: 0 <= x < size ==> r.value[x] == CoverCount(rs, x)
  {
    var counts: seq<nat> := seq(size, _ => 0);
    var i := 0;
    while i < |rs|
      invariant i <= |rs| && |counts| == size
      invariant forall k :: 0 <= k < i ==> !Overruns(rs[k], size)
      invariant forall x :: 0 <= x < size ==> counts[x] == CoverCount(rs[..i], x)
    {
      var start := rs[i].0;
      var end := rs[i].1;
      var x := start;
      while x < end
        invariant |counts| == size && (x == start || start < x <= end)
        invariant x == start || x <= size
        invariant forall y :: 0 <= y < size ==>
                    counts[y] == CoverCount(rs[..i], y) + (if start <= y < x then 1 else 0)
      {
        if x >= size {
          assert Overruns(rs[i], size);
          return Err(IndexError);
        }
        counts := counts[x := counts[x] + 1];
        x := x + 1;
      }
      assert !Overruns(rs[i], size);
      forall y | 0 <= y < size ensures counts[y] == CoverCount(rs[..i + 1], y) {
        CoverCountSnoc(rs, i, y);
      }
      i := i + 1;
    }
    assert rs[..i] == rs;
    return Ok(counts);
  }

  /** The readline loop of `main(fpath)`: the ranges of the lines before
      the end of the file, line by line and in order. */
  method ReadRanges(lines: seq<string>) returns (ranges: seq<(nat, nat)>)
    ensures ranges == Ranges(UntilEof(lines))
  {
    var ls := UntilEof(lines);
    ranges := [];
    var i := 0;
    while i < |ls|
      invariant i <= |ls| && ranges == Ranges(ls[..i])
    {
      RangesSnoc(ls, i);
      ranges := ranges + LineRanges(ls[i]);
      i := i + 1;
    }
    assert ls[..i] == ls;
  }

  /** `main(fpath)` on the lines of one alignment file: the ranges read
      before the end of the file are counted into a list of CONSENSUS_SIZE
      zeros. IndexError exactly when one of those ranges reaches past the
      list; otherwise each position counts the ranges covering it. */
  method FileCounts(lines: seq<string>) returns (r: Result<seq<nat>>)
    ensures var rs := Ranges(UntilEof(lines));
            (r.Err? <==> exists k :: 0 <= k < |rs| && Overruns(rs[k], CONSENSUS_SIZE))
            && (r.Err? ==> r.error == IndexError)
            && (r.Ok? ==> |r.value| == CONSENSUS_SIZE
                          && forall x :: 0 <= x < CONSENSUS_SIZE ==> r.value[x] == CoverCount(rs, x))
  {
    var ranges := ReadRanges(lines);
    r := CountCoverage(ranges, CONSENSUS_SIZE);
  }

  lemma RangesSnoc(ls: seq<string>, i: nat)
    requires i < |ls|
    ensures Ranges(ls[..i + 1]) == Ranges(ls[..i]) + LineRanges(ls[i])
  {
    assert ls[..i + 1][..i] == ls[..i];
  }

  /* ---------------------------------------------------------------------
     The ten matrices.
     --------------------------------------------------------------------- */

  /** The sum of the counts of all lists at position `x`. */
  function Column(counts: seq<seq<nat>>, x: nat): nat
    requires forall k :: 0 <= k < |counts| ==> x < |counts[k]|
  {
    if |counts| == 0 then 0 else Column(counts[..|counts| - 1], x) + counts[|counts| - 1][x]
  }

  /** `final[x]`, written out over the ten per-matrix lists, is the column
      sum at `x`. */
  function Final(counts: seq<seq<nat>>): (r: seq<nat>)
    requires |counts| == 10 && forall k :: 0 <= k < 10 ==> |counts[k]| == CONSENSUS_SIZE
    ensures |r| == CONSENSUS_SIZE && forall x :: 0 <= x < CONSENSUS_SIZE ==> r[x] == Column(counts, x)
  {
    var r := seq(CONSENSUS_SIZE, x requires 0 <= x < CONSENSUS_SIZE =>
      counts[0][x] + counts[1][x] + counts[2][x] + counts[3][x] + counts[4][x]
      + counts[5][x] + counts[6][x] + counts[7][x] + counts[8][x] + counts[9][x]);
    assert forall x :: 0 <= x < CONSENSUS_SIZE ==> r[x] == Column(counts, x) by {
      forall x | 0 <= x < CONSENSUS_SIZE ensures r[x] == Column(counts, x) {
        ColumnTen(counts, x);
      }
    }
    r
  }

  lemma ColumnTen(counts: seq<seq<nat>>, x: nat)
    requires |counts| == 10 && forall k :: 0 <= k < 10 ==> x < |counts[k]|
    ensures Column(counts, x) == counts[0][x] + counts[1][x] + counts[2][x] + counts[3][x] + counts[4][x]
                                 + counts[5][x] + counts[6][x] + counts[7][x] + counts[8][x] + counts[9][x]
  {
    ColumnFirstFive(counts, x);
    ColumnLastFive(counts, x);
    assert counts[..10] == counts;
  }

  lemma ColumnLastFive(counts: seq<seq<nat>>, x: nat)
    requires |counts| == 10 && forall k :: 0 <= k < 10 ==> x < |counts[k]|
    ensures Column(counts[..10], x)
         == Column(counts[..5], x) + counts[5][x] + counts[6][x] + counts[7][x] + counts[8][x] + counts[9][x]
  {
    ColumnSnoc(counts, 5, x);
    ColumnSnoc(counts, 6, x);
    ColumnSnoc(counts, 7, x);
    ColumnSnoc(counts, 8, x);
    ColumnSnoc(counts, 9, x);
  }

  lemma ColumnFirstFive(counts: seq<seq<nat>>, x: nat)
    requires |counts| == 10 && forall k :: 0 <= k < 10 ==> x < |counts[k]|
    ensures Column(counts[..5], x) == counts[0][x] + counts[1][x] + counts[2][x] + counts[3][x] + counts[4][x]
  {
    assert counts[..0] == [];
    ColumnSnoc(counts, 0, x);
    ColumnSnoc(counts, 1, x);
    ColumnSnoc(counts, 2, x);
    ColumnSnoc(counts, 3, x);
    ColumnSnoc(counts, 4, x);
  }

  lemma ColumnSnoc(counts: seq<seq<nat>>, n: nat, x: nat)
    requires n < |counts| && forall k :: 0 <= k < |counts| ==> x < |counts[k]|
    ensures Column(counts[..n + 1], x) == Column(counts[..n], x) + counts[n][x]
  {
    assert counts[..n + 1][..n] == counts[..n];
  }

  /** When each list counts the ranges of one file, the column sum counts
      the ranges of all the files together. */
  lemma {:induction false} ColumnCovers(counts: seq<seq<nat>>, rss: seq<seq<(nat, nat)>>, x: nat)
    requires |counts| == |rss|
    requires forall k :: 0 <= k < |counts| ==> x < |counts[k]| && counts[k][x] == CoverCount(rss[k], x)
    ensures Column(counts, x) == CoverCount(Flatten(rss), x)
    decreases |counts|
  {
    if |counts| > 0 {
      var n := |counts| - 1;
      ColumnCovers(counts[..n], rss[..n], x);
      assert Flatten(rss) == Flatten(rss[..n]) + rss[n];
      CoverCountAppend(Flatten(rss[..n]), rss[n], x);
    }
  }
}
