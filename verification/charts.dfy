/** charts/scripts.js: the data behind the threshold chart. `countHits`
    turns a search output into cumulative hit counts by score, and
    `drawChart` pairs the genomic and benchmark counts row by row and drops
    rows that repeat the previous one. */
module Charts {
  import opened Common
  import opened Text
  import opened Pattern
  import ScoreThresholds

  /** The highest score the histogram has a slot for. */
  const MAX_SCORE: nat := 10000

  /** The scores charted: 60 to 200. */
  const FIRST_SCORE: nat := 60
  const CHART_ROWS: nat := 141

  /** `lines[i].match(regex)` with `/^\s*(\d+)\s+\d+\.\d+\s+\d+\.\d+/`:
      the same tokens as the threshold script's pattern, with the
      JavaScript whitespace class, and `parseInt` of the first group. */
  function LineScore(line: string): Option<nat>
  {
    var m := MatchAt(line, 0, ScoreThresholds.SCORE_PAT, JsSpace);
    if m.None? then None
    else
      MatchLength(line, 0, ScoreThresholds.SCORE_PAT, JsSpace);
      Some(DigitsValue(SpanText(line, m.value[1])))
  }

  /** Completeness: a line the pattern matches yields its first digit run. */
  lemma LineScoreComplete(line: string, sps: seq<Span>)
    requires Parses(line, 0, ScoreThresholds.SCORE_PAT, JsSpace, sps)
    ensures LineScore(line) == Some(DigitsValue(SpanText(line, sps[1])))
  {
    MatchAtComplete(line, 0, ScoreThresholds.SCORE_PAT, JsSpace, sps);
  }

  /** The chart reads a line as the threshold script does, unless the line
      holds one of the separators 0x1c..0x1f, which only Python counts as
      whitespace. */
  lemma SameScoreAsThresholds(line: string)
    requires forall k :: 0 <= k < |line| ==> !(0x1c <= line[k] as int <= 0x1f)
    ensures LineScore(line) == ScoreThresholds.LineScore(line)
  {
    MatchAtSameClass(line, 0, ScoreThresholds.SCORE_PAT, JsSpace, PySpace);
  }

  /** The values `read` finds in the lines, in order: with LineScore, the
      scores of the matching lines. */
  function Scores(ls: seq<string>, read: string -> Option<nat>): seq<nat>
  {
    if |ls| == 0 then []
    else Scores(ls[..|ls| - 1], read) + AsList(read(ls[|ls| - 1]))
  }

  /** The value, if there is one, as a list of zero or one element. */
  function AsList(m: Option<nat>): seq<nat>
  {
    match m case None => [] case Some(v) => [v]
  }

  /** How many scores equal `v`. */
  function CountEq(xs: seq<nat>, v: int): nat
  {
    if |xs| == 0 then 0 else CountEq(xs[..|xs| - 1], v) + (if xs[|xs| - 1] == v then 1 else 0)
  }

  /** How many scores the histogram keeps (at most MAX_SCORE) are at least
      `k`. */
  function CountAtLeast(xs: seq<nat>, k: int): nat
  {
    if |xs| == 0 then 0
    else CountAtLeast(xs[..|xs| - 1], k) + (if k <= xs[|xs| - 1] <= MAX_SCORE then 1 else 0)
  }

  /** The cumulative count at `k` is the count at `k` plus the cumulative
      count above it; at the top slot it is the count there. */
  lemma {:induction false} CountAtLeastStep(xs: seq<nat>, k: int)
    requires k <= MAX_SCORE
    ensures CountAtLeast(xs, k) == CountEq(xs, k) + (if k < MAX_SCORE then CountAtLeast(xs, k + 1) else 0)
    decreases |xs|
  {
    if |xs| > 0 {
      CountAtLeastStep(xs[..|xs| - 1], k);
    }
  }

  /** Cumulative counts never grow with the score. */
  lemma {:induction false} CountAtLeastMonotone(xs: seq<nat>, k1: int, k2: int)
    requires k1 <= k2
    ensures CountAtLeast(xs, k2) <= CountAtLeast(xs, k1)
    decreases |xs|
  {
    if |xs| > 0 {
      CountAtLeastMonotone(xs[..|xs| - 1], k1, k2);
    }
  }

  /** `countHits(resp)`: a histogram of the scores of the matching lines in
      10001 slots (scores above 10000 are dropped), summed from the top so
      that slot `k` counts the kept scores `>= k`, and the pairs
      `[k, count]` for k from 60 to 200. */
  method CountHits(resp: string) returns (r: seq<(int, nat)>)
    ensures |r| == CHART_ROWS
    ensures forall j :: 0 <= j < CHART_ROWS ==>
              r[j] == (FIRST_SCORE + j, CountAtLeast(Scores(SplitOn(resp, '\n'), LineScore), FIRST_SCORE + j))
  {
    var lines := SplitOn(resp, '\n');
    var hits := Histogram(lines, LineScore);
    hits := SumFromTop(hits, Scores(lines, LineScore));
    r := Window(hits, Scores(lines, LineScore));
  }

  /** `hits.map((count, index) => [index, count]).slice(60, 201)`. */
  method Window(hits: seq<nat>, ghost scores: seq<nat>) returns (r: seq<(int, nat)>)
    requires |hits| == MAX_SCORE + 1
    requires forall v :: 0 <= v <= MAX_SCORE ==> hits[v] == CountAtLeast(scores, v)
    ensures |r| == CHART_ROWS
    ensures forall j :: 0 <= j < CHART_ROWS ==> r[j] == (FIRST_SCORE + j, CountAtLeast(scores, FIRST_SCORE + j))
  {
    r := seq(CHART_ROWS, k requires 0 <= k < CHART_ROWS => (FIRST_SCORE + k, hits[FIRST_SCORE + k]));
  }

  /** The first loop: slot `v` counts the scores equal to `v`. */
  method Histogram(lines: seq<string>, read: string -> Option<nat>) returns (hits: seq<nat>)
    ensures |hits| == MAX_SCORE + 1
    ensures forall v :: 0 <= v <= MAX_SCORE ==> hits[v] == CountEq(Scores(lines, read), v)
  {
    hits := seq(MAX_SCORE + 1, _ => 0);
    var i := 0;
    assert Scores(lines[..0], read) == [];
    while i < |lines|
      invariant i <= |lines| && |hits| == MAX_SCORE + 1
      invariant forall v :: 0 <= v <= MAX_SCORE ==> hits[v] == CountEq(Scores(lines[..i], read), v)
    {
      var m := read(lines[i]);
      ScoresSnoc(lines, i, read);
      ghost var before := hits;
      if m.Some? && m.value <= MAX_SCORE {
        hits := hits[m.value := hits[m.value] + 1];
      }
      HistogramStep(before, hits, Scores(lines[..i], read), m, Scores(lines[..i + 1], read));
      i := i + 1;
    }
    assert lines[..i] == lines;
  }

  /** Counting one more score into the histogram. */
  lemma HistogramStep(before: seq<nat>, after: seq<nat>, xs: seq<nat>, m: Option<nat>, ys: seq<nat>)
    requires ys == xs + AsList(m)
    requires |before| == MAX_SCORE + 1
    requires forall v :: 0 <= v <= MAX_SCORE ==> before[v] == CountEq(xs, v)
    requires after == if m.Some? && m.value <= MAX_SCORE then before[m.value := before[m.value] + 1] else before
    ensures |after| == MAX_SCORE + 1
    ensures forall v :: 0 <= v <= MAX_SCORE ==> after[v] == CountEq(ys, v)
  {
    forall v | 0 <= v <= MAX_SCORE ensures after[v] == CountEq(ys, v) {
      CountEqSnoc(xs, m, v);
    }
  }

  lemma ScoresSnoc(ls: seq<string>, i: nat, read: string -> Option<nat>)
    requires i < |ls|
    ensures Scores(ls[..i + 1], read) == Scores(ls[..i], read) + AsList(read(ls[i]))
  {
    assert ls[..i + 1][..i] == ls[..i];
  }

  lemma CountEqSnoc(xs: seq<nat>, m: Option<nat>, v: int)
    ensures CountEq(xs + AsList(m), v)
         == CountEq(xs, v) + (if m.Some? && m.value == v then 1 else 0)
  {
    if m.Some? {
      assert (xs + [m.value])[..|xs|] == xs;
    } else {
      assert xs + [] == xs;
    }
  }

  /** The second loop, from slot 9999 down to 0: each slot adds the one
      above it, so slot `k` ends up counting the scores `>= k`. */
  method SumFromTop(counts: seq<nat>, ghost scores: seq<nat>) returns (hits: seq<nat>)
    requires |counts| == MAX_SCORE + 1
    requires forall v :: 0 <= v <= MAX_SCORE ==> counts[v] == CountEq(scores, v)
    ensures |hits| == MAX_SCORE + 1
    ensures forall v :: 0 <= v <= MAX_SCORE ==> hits[v] == CountAtLeast(scores, v)
  {
    hits := counts;
    var j := MAX_SCORE - 1;
    CountAtLeastStep(scores, MAX_SCORE);
    while j >= 0
      invariant -1 <= j < MAX_SCORE && |hits| == MAX_SCORE + 1
      invariant forall v :: j < v <= MAX_SCORE ==> hits[v] == CountAtLeast(scores, v)
      invariant forall v :: 0 <= v <= j ==> hits[v] == CountEq(scores, v)
    {
      CountAtLeastStep(scores, j);
      hits := hits[j := hits[j] + hits[j + 1]];
      j := j - 1;
    }
  }

  /* ---------------------------------------------------------------------
     The chart rows.
     --------------------------------------------------------------------- */

  /** `[score, tp, fp, tp - fp]`. */
  datatype Row = Row(score: int, tp: int, fp: int, gain: int)

  /** `prehits`: the genomic and benchmark pairs side by side, by index;
      a benchmark list shorter than the genomic one reads `[1]` of
      undefined, a TypeError. */
  function Prehits(genomic: seq<(int, int)>, benchmark: seq<(int, int)>): (r: Result<seq<Row>>)
    ensures r.Err? <==> |benchmark| < |genomic|
    ensures r.Ok? ==> |r.value| == |genomic|
    ensures r.Ok? ==> forall i :: 0 <= i < |genomic| ==>
              r.value[i].score == genomic[i].0 && r.value[i].tp == genomic[i].1
              && r.value[i].fp == benchmark[i].1 && r.value[i].gain == r.value[i].tp - r.value[i].fp
  {
    if |benchmark| < |genomic| then Err(TypeError)
    else Ok(seq(|genomic|, i requires 0 <= i < |genomic| => Row(genomic[i].0, genomic[i].1, benchmark[i].1, genomic[i].1 - benchmark[i].1)))
  }

  /** Two rows differ in their TP or FP count. */
  predicate Changed(a: Row, b: Row)
  {
    a.tp != b.tp || a.fp != b.fp
  }

  /** The rows the loop keeps among `pre[..n]`: the first, and every row
      that differs from the row just before it in `pre`. */
  function KeptRows(pre: seq<Row>, n: nat): (r: seq<Row>)
    requires 1 <= n <= |pre|
    ensures |r| >= 1
  {
    if n == 1 then [pre[0]]
    else KeptRows(pre, n - 1) + (if Changed(pre[n - 2], pre[n - 1]) then [pre[n - 1]] else [])
  }

  /** The chart's rows: `hits.push(prehits[0])` pushes undefined (None)
      for an empty list, and then the loop adds the changed rows. */
  function Dedupe(pre: seq<Row>): (r: seq<Option<Row>>)
  {
    if |pre| == 0 then [None]
    else var kept := KeptRows(pre, |pre|); seq(|kept|, k requires 0 <= k < |kept| => Some(kept[k]))
  }

  /** The same filter written against the last row kept rather than the
      row before in `pre`. */
  function LastKeptRows(pre: seq<Row>, n: nat): (r: seq<Row>)
    requires 1 <= n <= |pre|
    ensures |r| >= 1
  {
    if n == 1 then [pre[0]]
    else
      var acc := LastKeptRows(pre, n - 1);
      if Changed(acc[|acc| - 1], pre[n - 1]) then acc + [pre[n - 1]] else acc
  }

  /** Comparing with the previous row of `pre` or with the last row kept
      gives the same rows: a row is dropped only when it repeats the row
      before it, and then the last row kept has its counts too. */
  lemma {:induction false} KeptAgainstLast(pre: seq<Row>, n: nat)
    requires 1 <= n <= |pre|
    ensures KeptRows(pre, n) == LastKeptRows(pre, n)
    ensures var k := KeptRows(pre, n); !Changed(k[|k| - 1], pre[n - 1])
    decreases n
  {
    if n > 1 {
      KeptAgainstLast(pre, n - 1);
    }
  }

  /** No two consecutive rows of the chart have the same counts. */
  lemma {:induction false} KeptDistinct(pre: seq<Row>, n: nat)
    requires 1 <= n <= |pre|
    ensures var k := KeptRows(pre, n); forall j :: 0 < j < |k| ==> Changed(k[j - 1], k[j])
    decreases n
  {
    if n > 1 {
      KeptDistinct(pre, n - 1);
      KeptAgainstLast(pre, n - 1);
      var k := KeptRows(pre, n - 1);
      var k' := KeptRows(pre, n);
      assert forall j :: 0 <= j < |k| ==> k'[j] == k[j];
    }
  }

  /** Every row of the chart is a row of `prehits`. */
  lemma {:induction false} KeptFromPre(pre: seq<Row>, n: nat)
    requires 1 <= n <= |pre|
    ensures forall j :: 0 <= j < |KeptRows(pre, n)| ==> KeptRows(pre, n)[j] in pre[..n]
    decreases n
  {
    if n > 1 {
      KeptFromPre(pre, n - 1);
      var k := KeptRows(pre, n - 1);
      var k' := KeptRows(pre, n);
      assert forall j :: 0 <= j < |k| ==> k'[j] == k[j];
      assert forall x :: x in pre[..n - 1] ==> x in pre[..n];
      assert pre[n - 1] in pre[..n];
    }
  }
}
