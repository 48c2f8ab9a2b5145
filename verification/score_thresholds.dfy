/** score_thresholds.py: reading the scores of an RMBlast alignment file,
    the empirical threshold (walk the genomic and benchmark hits from the
    best score down until the false discoveries reach 0.2% of the genomic
    hits), the clamped E-value target of the theoretical threshold, and the
    consensus and matrix names carried in the file paths. */
module ScoreThresholds {
  import opened Common
  import opened Text
  import opened Pattern

  const FDR_THRESHOLD: real := 0.002
  const FDR_THEORY_TARGET: real := 0.01
  const MAX_E_TARGET: real := 1000.0

  /* ---------------------------------------------------------------------
     Reading scores.
     --------------------------------------------------------------------- */

  /** `^\s*(\d+)\s+\d+\.\d+\s+\d+\.\d+`: the score, then the two
      percentages of an alignment summary line. */
  const SCORE_PAT: seq<Tok> :=
    [Spaces(false), Digits, Spaces(true), Digits, Lit('.'), Digits, Spaces(true), Digits, Lit('.'), Digits]

  /** `int(mo.group(1))` of a line the pattern matches from its start, and
      None for any other line. */
  function LineScore(line: string): (r: Option<nat>)
    ensures r.Some? ==>
              exists sps :: Parses(line, 0, SCORE_PAT, PySpace, sps)
                            && r.value == DigitsValue(SpanText(line, sps[1]))
  {
    match MatchAt(line, 0, SCORE_PAT, PySpace)
    case None => None
    case Some(sps) => Some(DigitsValue(SpanText(line, sps[1])))
  }

  /** Completeness: every line the pattern matches yields the value of its
      first digit run. */
  lemma LineScoreComplete(line: string, sps: seq<Span>)
    requires Parses(line, 0, SCORE_PAT, PySpace, sps)
    ensures LineScore(line) == Some(DigitsValue(SpanText(line, sps[1])))
  {
    MatchAtComplete(line, 0, SCORE_PAT, PySpace, sps);
  }

  /** The scores of the matching lines, in file order. */
  function Scores(ls: seq<string>): seq<nat>
  {
    if |ls| == 0 then []
    else
      Scores(ls[..|ls| - 1]) +
      (match LineScore(ls[|ls| - 1]) case None => [] case Some(v) => [v])
  }

  /** The number of lines the pattern matches. */
  function MatchCount(ls: seq<string>): nat
  {
    if |ls| == 0 then 0 else MatchCount(ls[..|ls| - 1]) + (if LineScore(ls[|ls| - 1]).Some? then 1 else 0)
  }

  /** One score per matching line. */
  lemma {:induction false} ScoresCount(ls: seq<string>)
    ensures |Scores(ls)| == MatchCount(ls)
    decreases |ls|
  {
    if |ls| > 0 {
      ScoresCount(ls[..|ls| - 1]);
    }
  }

  /** Lines are read independently and in order: the scores of two runs of
      lines are the scores of the first followed by those of the second. */
  lemma {:induction false} ScoresAppend(a: seq<string>, b: seq<string>)
    ensures Scores(a + b) == Scores(a) + Scores(b)
    decreases |b|
  {
    if |b| > 0 {
      var b' := b[..|b| - 1];
      assert (a + b)[..|a + b| - 1] == a + b';
      assert (a + b)[|a + b| - 1] == b[|b| - 1];
      ScoresAppend(a, b');
    } else {
      assert a + b == a;
    }
  }

  /** A single line contributes its score exactly when it matches. */
  lemma ScoresOne(line: string)
    ensures LineScore(line).None? ==> Scores([line]) == []
    ensures LineScore(line).Some? ==> Scores([line]) == [LineScore(line).value]
  {
    assert [line][..0] == [];
  }

  /* ---------------------------------------------------------------------
     Sorting, `hits.sort(reverse=True)`.
     --------------------------------------------------------------------- */

  predicate NonIncreasing(s: seq<int>)
  {
    forall i, j :: 0 <= i < j < |s| ==> s[i] >= s[j]
  }

  /** Every element is at most `m`. */
  predicate AtMost(s: seq<int>, m: int)
  {
    forall k :: 0 <= k < |s| ==> s[k] <= m
  }

  lemma AtMostIn(s: seq<int>, m: int, y: int)
    requires AtMost(s, m) && y in s
    ensures y <= m
  {
  }

  /** Insert into a list. */
  function Insert(x: int, s: seq<int>): (r: seq<int>)
    ensures multiset(r) == multiset(s) + multiset{x}
    decreases |s|
  {
    if |s| == 0 then [x]
    else if x >= s[0] then [x] + s
    else
      assert s == [s[0]] + s[1..];
      [s[0]] + Insert(x, s[1..])
  }

  /** Inserting into a non-increasing list keeps it non-increasing. */
  lemma {:induction false} InsertSorted(x: int, s: seq<int>)
    requires NonIncreasing(s)
    ensures NonIncreasing(Insert(x, s))
    decreases |s|
  {
    if |s| > 0 && x < s[0] {
      var t := Insert(x, s[1..]);
      InsertSorted(x, s[1..]);
      assert AtMost(s[1..], s[0]);
      forall k | 0 <= k < |t| ensures t[k] <= s[0] {
        assert t[k] in multiset(s[1..]) + multiset{x};
        if t[k] != x {
          AtMostIn(s[1..], s[0], t[k]);
        }
      }
      SortedCons(s[0], t);
    }
  }

  lemma SortedCons(h: int, t: seq<int>)
    requires NonIncreasing(t) && AtMost(t, h)
    ensures NonIncreasing([h] + t)
  {
    var r := [h] + t;
    forall i, j | 0 <= i < j < |r| ensures r[i] >= r[j] {
      assert r[j] == t[j - 1];
      if i > 0 {
        assert r[i] == t[i - 1];
      }
    }
  }

  /** The scores sorted best first. */
  function SortDesc(s: seq<int>): (r: seq<int>)
    ensures NonIncreasing(r)
    ensures multiset(r) == multiset(s)
    decreases |s|
  {
    if |s| == 0 then []
    else
      assert s == [s[0]] + s[1..];
      InsertSorted(s[0], SortDesc(s[1..]));
      Insert(s[0], SortDesc(s[1..]))
  }

  /** The head of a non-increasing list is its largest element. */
  lemma HeadIsMax(a: seq<int>, y: int)
    requires NonIncreasing(a) && y in multiset(a)
    ensures |a| > 0 && y <= a[0]
  {
    var k :| 0 <= k < |a| && a[k] == y;
    assert k > 0 ==> a[0] >= a[k];
  }

  /** A list has one non-increasing arrangement: whatever sort produced
      it, the sorted list is determined by the multiset of scores. */
  lemma {:induction false} SortedUnique(a: seq<int>, b: seq<int>)
    requires NonIncreasing(a) && NonIncreasing(b) && multiset(a) == multiset(b)
    ensures a == b
    decreases |a|
  {
    if |a| > 0 {
      SameHead(a, b);
      TailSorted(a);
      TailSorted(b);
      MultisetTail(a);
      MultisetTail(b);
      SortedUnique(a[1..], b[1..]);
      HeadTailEq(a, b);
    } else {
      assert |b| == |multiset(b)| == 0;
    }
  }

  lemma SameHead(a: seq<int>, b: seq<int>)
    requires NonIncreasing(a) && NonIncreasing(b) && multiset(a) == multiset(b) && |a| > 0
    ensures |b| > 0 && a[0] == b[0]
  {
    assert a[0] in multiset(a);
    HeadIsMax(b, a[0]);
    HeadIsMax(a, b[0]);
  }

  lemma HeadTailEq(a: seq<int>, b: seq<int>)
    requires |a| > 0 && |b| > 0 && a[0] == b[0] && a[1..] == b[1..]
    ensures a == b
  {
    assert a == [a[0]] + a[1..] && b == [b[0]] + b[1..];
  }

  lemma MultisetTail(a: seq<int>)
    requires |a| > 0
    ensures multiset(a[1..]) == multiset(a) - multiset{a[0]}
  {
    assert a == [a[0]] + a[1..];
  }

  lemma TailSorted(a: seq<int>)
    requires NonIncreasing(a) && |a| > 0
    ensures NonIncreasing(a[1..])
  {
    forall i, j | 0 <= i < j < |a| - 1 ensures a[1..][i] >= a[1..][j] {
      assert a[1..][i] == a[i + 1] && a[1..][j] == a[j + 1];
    }
  }

  /** `readScoresFromFile(sc_file)`: the scores of the lines up to end of
      file that match the summary pattern, best first. */
  function ReadScores(lines: seq<string>): (r: seq<int>)
    ensures NonIncreasing(r)
    ensures multiset(r) == multiset(Scores(UntilEof(lines)))
  {
    SortDesc(Scores(UntilEof(lines)))
  }

  /* ---------------------------------------------------------------------
     The empirical threshold.
     --------------------------------------------------------------------- */

  /** `fp_hits / hits < FDR_THRESHOLD`, for `hits > 0`, in integers. */
  lemma RatioBelow(fp: nat, hits: nat)
    requires hits > 0
    ensures fp as real / hits as real < FDR_THRESHOLD <==> 500 * fp < hits
  {
    var q := fp as real / hits as real;
    assert q * hits as real == fp as real;
  }

  /** The walk from genomic index `i` and benchmark index `j` with `i`
      genomic and `j` false hits counted: the indices where the ratio of
      false hits first reaches 0.2%, or IndexError when either list runs
      out first. A benchmark hit is passed when it scores strictly above
      the current genomic hit, a genomic hit otherwise. Where the walk
      stops, the false-hit ratio is at least 0.2% and the genomic index is
      in range, and neither index went back. */
  function Walk(g: seq<int>, b: seq<int>, i: nat, j: nat): (r: Result<(nat, nat)>)
    ensures r.Ok? ==> i <= r.value.0 < |g| && j <= r.value.1 && 500 * r.value.1 >= r.value.0
    ensures r.Ok? && j <= |b| ==> r.value.1 <= |b|
    decreases |g| + |b| - i - j
  {
    if 500 * j >= i then (if i < |g| then Ok((i, j)) else Err(IndexError))
    else if i >= |g| || j >= |b| then Err(IndexError)
    else if g[i] < b[j] then Walk(g, b, i, j + 1)
    else Walk(g, b, i + 1, j)
  }

  /** On a genomic list sorted best first, every benchmark hit the walk
      passed scores strictly above the genomic hit it stops at. */
  lemma {:induction false} WalkOutranks(g: seq<int>, b: seq<int>, i: nat, j: nat)
    requires NonIncreasing(g)
    requires j <= |b| && (i < |g| ==> forall k :: 0 <= k < j ==> b[k] > g[i])
    ensures Walk(g, b, i, j).Ok? ==>
              forall k :: 0 <= k < Walk(g, b, i, j).value.1 ==> b[k] > g[Walk(g, b, i, j).value.0]
    decreases |g| + |b| - i - j
  {
    if 500 * j < i && i < |g| && j < |b| {
      if g[i] < b[j] {
        WalkOutranks(g, b, i, j + 1);
      } else {
        if i + 1 < |g| {
          assert g[i] >= g[i + 1];
        }
        WalkOutranks(g, b, i + 1, j);
      }
    }
  }

  /** `empiricalFDRCalculation(genomic_hits, benchmark_hits)`: IndexError
      on an empty list; the best genomic score plus 0.05 when it is beaten
      by the best benchmark score; otherwise the walk from one genomic hit
      and no false hit, and the score where it stops plus 0.05. */
  method EmpiricalFDR(g: seq<int>, b: seq<int>) returns (r: Result<real>)
    ensures |g| == 0 || |b| == 0 ==> r == Err(IndexError)
    ensures |g| > 0 && |b| > 0 && g[0] < b[0] ==> r == Ok(g[0] as real + 0.05)
    ensures |g| > 0 && |b| > 0 && g[0] >= b[0] ==>
              (r.Err? <==> Walk(g, b, 1, 0).Err?)
              && (Walk(g, b, 1, 0).Ok? ==> r == Ok(g[Walk(g, b, 1, 0).value.0] as real + 0.05))
    ensures r.Err? ==> r.error == IndexError
  {
    if |g| == 0 || |b| == 0 {
      return Err(IndexError);
    }
    var fpHits := 0;
    var hits := 0;
    var i := 0;
    var j := 0;
    if g[i] < b[j] {
      return Ok(g[i] as real + 0.05);
    }
    i := i + 1;
    hits := hits + 1;
    RatioBelow(fpHits, hits);
    while fpHits as real / hits as real < FDR_THRESHOLD
      invariant hits == i && fpHits == j && 1 <= i
      invariant Walk(g, b, i, j) == Walk(g, b, 1, 0)
      decreases |g| + |b| - i - j
    {
      RatioBelow(fpHits, hits);
      if i >= |g| || j >= |b| {
        return Err(IndexError);
      }
      if g[i] < b[j] {
        fpHits := fpHits + 1;
        j := j + 1;
      } else {
        hits := hits + 1;
        i := i + 1;
      }
      RatioBelow(fpHits, hits);
    }
    RatioBelow(fpHits, hits);
    if i >= |g| {
      return Err(IndexError);
    }
    return Ok(g[i] as real + 0.05);
  }

  /** With both lists sorted best first (as readScoresFromFile returns
      them), an empirical threshold always lies below the best benchmark
      score, and at the genomic hit it is taken from at least one false hit
      in 500 genomic hits has been counted. */
  lemma EmpiricalBelowBest(g: seq<int>, b: seq<int>)
    requires NonIncreasing(g) && NonIncreasing(b) && |g| > 0 && |b| > 0 && g[0] >= b[0]
    requires Walk(g, b, 1, 0).Ok?
    ensures var (i, j) := Walk(g, b, 1, 0).value;
            1 <= i < |g| && 1 <= j <= |b| && 500 * j >= i && g[i] < b[0]
  {
    WalkOutranks(g, b, 1, 0);
    var (i, j) := Walk(g, b, 1, 0).value;
    assert b[j - 1] > g[i];
    assert j - 1 > 0 ==> b[0] >= b[j - 1];
  }

  /** The walk does not keep false hits below 0.2%: on genomic scores
      10, 5 and benchmark score 7 it stops at 5, so above the threshold 5.05
      lie one genomic and one benchmark hit. */
  lemma WalkExample()
    ensures Walk([10, 5], [7], 1, 0) == Ok((1, 1))
  {
    assert Walk([10, 5], [7], 1, 0) == Walk([10, 5], [7], 1, 1);
  }

  /* ---------------------------------------------------------------------
     The theoretical E-value target.
     --------------------------------------------------------------------- */

  /** The E-value target of `theoreticalFDRCalculation`: 1% of the
      estimated true hits (genomic minus benchmark count, at least 0),
      replaced by MAX_E_TARGET when that is 0 or above it. */
  function TheoreticalTarget(genomic: nat, benchmark: nat): (r: real)
    ensures 0.0 < r <= MAX_E_TARGET
    ensures r == MAX_E_TARGET <==> genomic <= benchmark || genomic - benchmark >= 100000
    ensures 0 < genomic - benchmark < 100000 ==> r * 100.0 == (genomic - benchmark) as real
  {
    var tp := if genomic - benchmark < 0 then 0 else genomic - benchmark;
    var target := tp as real * FDR_THEORY_TARGET;
    if target == 0.0 || target > MAX_E_TARGET then MAX_E_TARGET else target
  }

  /** The target never decreases as the estimate of true hits grows, until
      the estimate is 0 or the cap is hit. */
  lemma TargetMonotone(g1: nat, g2: nat, benchmark: nat)
    requires benchmark < g1 <= g2
    ensures TheoreticalTarget(g1, benchmark) <= TheoreticalTarget(g2, benchmark)
  {
  }

  /** The target is not monotone across the point where genomic and
      benchmark hits are equal: an estimate of 0 is replaced by the cap, and
      one more genomic hit gives the smallest target. */
  lemma TargetDrop(benchmark: nat)
    ensures TheoreticalTarget(benchmark, benchmark) == MAX_E_TARGET
    ensures TheoreticalTarget(benchmark + 1, benchmark) == 0.01
  {
  }

  /** `max(empirical, theoretical)`: the more conservative threshold. */
  function FinalThreshold(empirical: real, theoretical: real): (r: real)
    ensures r >= empirical && r >= theoretical
    ensures r == empirical || r == theoretical
  {
    if empirical >= theoretical then empirical else theoretical
  }

  /* ---------------------------------------------------------------------
     Names from paths.
     --------------------------------------------------------------------- */

  /** `name[-9:-3]`: the six characters before a three-character
      extension such as `.sc`. */
  function MatrixName(path: string): (r: string)
    ensures |path| >= 9 ==> r == path[|path| - 9..|path| - 3]
  {
    PySlice(path, -9, -3)
  }

  /** `path.split("/")[-1].split("_")[0]`. */
  function ConsensusName(path: string): string
  {
    var parts := SplitOn(path, '/');
    SplitOn(parts[|parts| - 1], '_')[0]
  }

  /** `<dir>/<consensus>_<matrix>.sc` names its consensus and matrix. */
  lemma AlignmentFileNames(dir: string, consensus: string, matrix: string)
    requires '/' !in consensus && '_' !in consensus && '/' !in matrix && |matrix| == 6
    ensures var path := dir + "/" + consensus + "_" + matrix + ".sc";
            ConsensusName(path) == consensus && MatrixName(path) == matrix
  {
    var base := consensus + "_" + matrix + ".sc";
    var path := dir + "/" + base;
    assert path == dir + "/" + consensus + "_" + matrix + ".sc";
    assert '/' !in base by {
      NotInAppend('/', consensus + "_" + matrix, ".sc");
      NotInAppend('/', consensus + "_", matrix);
    }
    SplitOnLast(dir, '/', base);
    assert base == consensus + ['_'] + (matrix + ".sc");
    SplitOnFirst(consensus, '_', matrix + ".sc");
    assert path[|path| - 9..|path| - 3] == matrix;
  }

  /** `genome_dir[:-1].split("/")[-1].split("_")[0]`: the consensus of a
      directory path written with a trailing `/`. */
  function DirConsensus(dir: string): string
  {
    ConsensusName(PyTo(dir, -1))
  }

  lemma DirConsensusName(parent: string, consensus: string)
    requires '/' !in consensus && '_' !in consensus
    ensures DirConsensus(parent + "/" + consensus + "/") == consensus
  {
    var dir := parent + "/" + consensus + "/";
    assert PyTo(dir, -1) == parent + ['/'] + consensus;
    SplitOnLast(parent, '/', consensus);
    SplitOnNone(consensus, '_');
  }
}
