/** The helpers of split_genome.py: base counting, the GC-background
    rounding, batch names, and the rendering of one batch into a bin file. */
module SplitGenome {
  import opened Common
  import opened Text

  /** Default window length and overlap of the batching loop. */
  const BATCH_LENGTH: nat := 60000
  const BATCH_OVERLAP: nat := 2000

  /** A base counted as G/C or as A/T after `lower()`. */
  predicate IsGC(c: char) { ToLower(c) == 'g' || ToLower(c) == 'c' }
  predicate IsAT(c: char) { ToLower(c) == 'a' || ToLower(c) == 't' }

  /** `countGCAT(seq)`: the pair (number of G/C bases, number of A/T bases),
      in either case; every other symbol is ignored. */
  function CountGCAT(s: string): (r: (nat, nat))
    ensures r.0 + r.1 <= |s|
    decreases |s|
  {
    if |s| == 0 then (0, 0)
    else
      var c := s[|s| - 1];
      var p := CountGCAT(s[..|s| - 1]);
      (p.0 + (if IsGC(c) then 1 else 0), p.1 + (if IsAT(c) then 1 else 0))
  }

  lemma GCLetters(c: char)
    ensures IsGC(c) <==> c in "gGcC"
    ensures IsAT(c) <==> c in "aAtT"
  {
  }

  /** The counts are the number of occurrences of the eight letters. */
  lemma {:induction false} CountGCATLetters(s: string)
    ensures var m := multiset(s);
            CountGCAT(s).0 == m['g'] + m['G'] + m['c'] + m['C']
            && CountGCAT(s).1 == m['a'] + m['A'] + m['t'] + m['T']
    decreases |s|
  {
    if |s| > 0 {
      var init := s[..|s| - 1];
      var c := s[|s| - 1];
      CountGCATLetters(init);
      assert s == init + [c];
      assert multiset(s) == multiset(init) + multiset{c};
      GCLetters(c);
    }
  }

  /** Counting is additive over concatenation. */
  lemma {:induction false} CountGCATAppend(a: string, b: string)
    ensures CountGCAT(a + b).0 == CountGCAT(a).0 + CountGCAT(b).0
    ensures CountGCAT(a + b).1 == CountGCAT(a).1 + CountGCAT(b).1
    decreases |b|
  {
    if |b| > 0 {
      var init := b[..|b| - 1];
      CountGCATAppend(a, init);
      assert (a + b)[..|a + b| - 1] == a + init;
      assert (a + b)[|a + b| - 1] == b[|b| - 1];
    } else {
      assert a + b == a;
    }
  }

  /** A text with no A, C, G or T in either case counts (0, 0), and only such
      a text does. */
  lemma {:induction false} CountGCATZero(s: string)
    ensures CountGCAT(s) == (0, 0) <==>
            forall k :: 0 <= k < |s| ==> !IsGC(s[k]) && !IsAT(s[k])
    decreases |s|
  {
    if |s| > 0 {
      var init := s[..|s| - 1];
      CountGCATZero(init);
      assert forall k :: 0 <= k < |init| ==> init[k] == s[k];
    }
  }

  /** `r` is `n / d` rounded to the nearest integer, exact halves going to
      the even neighbour (Python 3 `round`). */
  predicate RoundsHalfEven(n: int, d: int, r: int)
    requires d > 0
  {
    var e := 2 * (n - r * d);
    -d <= e <= d && (e == d || e == -d ==> r % 2 == 0)
  }

  /** Small multiples of a positive `d`, for the uniqueness of rounding. */
  lemma MulSmall(x: int, d: int)
    requires d > 0
    ensures x >= 2 ==> x * d >= 2 * d
    ensures x <= -2 ==> x * d <= -2 * d
    ensures x == 1 ==> x * d == d
    ensures x == -1 ==> x * d == -d
    ensures x == 0 ==> x * d == 0
  {
  }

  lemma MulDistrib(a: int, b: int, d: int)
    ensures a * d - b * d == (a - b) * d
  {
  }

  /** There is only one such integer. */
  lemma RoundsHalfEvenUnique(n: int, d: int, r1: int, r2: int)
    requires d > 0 && RoundsHalfEven(n, d, r1) && RoundsHalfEven(n, d, r2)
    ensures r1 == r2
  {
    MulDistrib(r1, r2, d);
    MulSmall(r1 - r2, d);
  }

  /** Quotient and remainder of a natural division, and the bound that
      keeps a percentage at most 100. */
  lemma QuotientFacts(n: nat, d: nat)
    requires d > 0
    ensures n == (n / d) * d + n % d && 0 <= n % d < d
    ensures (n / d + 1) * d == (n / d) * d + d
    ensures n <= 100 * d ==> n / d <= 100 && (n / d == 100 ==> n % d == 0)
  {
    var q := n / d;
    if n <= 100 * d && q >= 100 {
      MulSmall(q - 100, d);
      MulDistrib(q, 100, d);
    }
  }

  /** Python `round(n / d)` for `d > 0`. */
  function RoundHalfEven(n: nat, d: nat): (r: nat)
    requires d > 0
    ensures RoundsHalfEven(n, d, r)
    ensures n <= 100 * d ==> r <= 100
  {
    var q := n / d;
    var rem := n % d;
    QuotientFacts(n, d);
    if 2 * rem < d then q
    else if 2 * rem > d then q + 1
    else if q % 2 == 0 then q
    else q + 1
  }

  /** `gcBackground(gc, at)`: -1 when nothing was counted, otherwise the
      GC percentage rounded to an integer bin. */
  function GcBackground(gc: nat, at: nat): (r: int)
    ensures gc + at == 0 <==> r == -1
    ensures gc + at > 0 ==> 0 <= r <= 100 && RoundsHalfEven(100 * gc, gc + at, r)
  {
    if gc + at == 0 then -1
    else RoundHalfEven(100 * gc, gc + at)
  }

  /** Exact halves go to the even bin. */
  lemma GcBackgroundExamples()
    ensures GcBackground(1, 7) == 12
    ensures GcBackground(3, 5) == 38
    ensures GcBackground(0, 9) == 0 && GcBackground(4, 0) == 100
  {
  }

  /** `batchName(seq_name, start, end)`: the name of the 0-based half-open
      range `[start, end)` as the 1-based closed range `start+1 .. end`. */
  function BatchName(seqName: string, start: int, end: int): (r: string)
  {
    seqName + ": " + IntToString(start + 1) + "-" + IntToString(end)
  }

  /** Reads a batch name back, from the right: the trailing digits are the
      end, the digits before the `-` the 1-based start, and everything
      before the `": "` is the sequence name (which may itself hold colons,
      spaces and dashes). */
  function ParseBatchName(s: string): (r: Option<(string, nat, nat)>)
  {
    var i2 := SkipBackWhile(s, |s|, IsDigit);
    if i2 == |s| || i2 == 0 || s[i2 - 1] != '-' then None
    else ParseNameStart(s[..i2 - 1], DigitsValue(s[i2..]))
  }

  /** The `name: start` part of a batch name, with the end already read. */
  function ParseNameStart(h: string, end: nat): (r: Option<(string, nat, nat)>)
  {
    var i1 := SkipBackWhile(h, |h|, IsDigit);
    if i1 == |h| || i1 < 2 || h[i1 - 2..i1] != ": " then None
    else
      var first := DigitsValue(h[i1..]);
      if first == 0 then None else Some((h[..i1 - 2], first - 1, end))
  }

  lemma ParseNameStartLayout(pre: string, a: string, end: nat)
    requires |pre| >= 2 && pre[|pre| - 2..] == ": "
    requires AllDigits(a) && |a| > 0 && DigitsValue(a) > 0
    ensures ParseNameStart(pre + a, end) == Some((pre[..|pre| - 2], DigitsValue(a) - 1, end))
  {
    var h := pre + a;
    var i1 := |pre|;
    assert pre[i1 - 1] == pre[i1 - 2..][1];
    SkipBackDigits(pre, a);
    AppendSplit(pre, a);
    assert h[i1 - 2..i1] == pre[i1 - 2..];
    assert h[..i1 - 2] == pre[..i1 - 2];
  }

  /** The trailing `-end` of a batch name is read off first. */
  lemma ParseBatchNameEnd(h: string, b: string)
    requires AllDigits(b) && |b| > 0
    ensures ParseBatchName(h + "-" + b) == ParseNameStart(h, DigitsValue(b))
  {
    var p1 := h + "-";
    var s := p1 + b;
    SkipBackDigits(p1, b);
    AppendSplit(p1, b);
    AppendSplit(h, "-");
    var i2 := |p1|;
    assert s[i2 - 1] == p1[i2 - 1] == '-';
    assert s[..i2 - 1] == h;
  }

  lemma ParseBatchNameLayout(pre: string, a: string, b: string)
    requires |pre| >= 2 && pre[|pre| - 2..] == ": "
    requires AllDigits(a) && AllDigits(b) && |a| > 0 && |b| > 0 && DigitsValue(a) > 0
    ensures ParseBatchName(pre + a + "-" + b) == Some((pre[..|pre| - 2], DigitsValue(a) - 1, DigitsValue(b)))
  {
    ParseBatchNameEnd(pre + a, b);
    ParseNameStartLayout(pre, a, DigitsValue(b));
  }

  /** Every name of a range within a sequence reads back as that range. */
  lemma BatchNameRoundTrip(seqName: string, start: nat, end: nat)
    ensures ParseBatchName(BatchName(seqName, start, end)) == Some((seqName, start, end))
  {
    var a := NatToString(start + 1);
    var b := NatToString(end);
    var pre := seqName + ": ";
    AppendSplit(seqName, ": ");
    NatToStringRoundTrip(start + 1);
    NatToStringRoundTrip(end);
    ParseBatchNameLayout(pre, a, b);
  }

  lemma BatchNameExample()
    ensures BatchName("chr1", 0, 60000) == "chr1: 1-60000"
  {
  }

  /** Python's `int(a / b)` for `b > 0`: true division truncated toward
      zero, which differs from Dafny's division for negative `a`. */
  function TruncDiv(a: int, b: int): (r: int)
    requires b > 0
    ensures a >= 0 ==> r == a / b
    ensures a < 0 ==> r == -((-a) / b)
  {
    if a >= 0 then a / b else -((-a) / b)
  }

  /** `rowLength * i` written as repeated addition, so that the proofs
      about rows stay in linear arithmetic; OffsetIsProduct ties it to the
      product. */
  function Offset(rowLength: nat, i: nat): nat
  {
    if i == 0 then 0 else Offset(rowLength, i - 1) + rowLength
  }

  lemma {:induction false} OffsetIsProduct(rowLength: nat, i: nat)
    ensures Offset(rowLength, i) == rowLength * i
    decreases i
  {
    if i > 0 {
      OffsetIsProduct(rowLength, i - 1);
      assert rowLength * i == rowLength * (i - 1) + rowLength;
    }
  }

  lemma {:induction false} OffsetMono(rowLength: nat, i: nat, j: nat)
    requires i <= j
    ensures Offset(rowLength, i) <= Offset(rowLength, j)
    decreases j - i
  {
    if i < j {
      OffsetMono(rowLength, i, j - 1);
    }
  }

  lemma OneOver(d: nat)
    requires d > 0
    ensures 1 / d == if d == 1 then 1 else 0
  {
  }

  lemma RowCountBounds(n: nat, rowLength: nat)
    requires n > 0 && rowLength > 0
    ensures var q := (n - 1) / rowLength;
            Offset(rowLength, q) < n <= Offset(rowLength, q) + rowLength
  {
    var q := (n - 1) / rowLength;
    QuotientFacts(n - 1, rowLength);
    OffsetIsProduct(rowLength, q);
    assert rowLength * q == q * rowLength;
  }

  /** The number of rows `writeBatchToBin` writes for `n` bases at
      `rowLength` bases per row: `int((n - 1) / rowLength) + 1`. Every base
      falls in one of them and the last one starts before the end. */
  function RowCount(n: nat, rowLength: nat): (r: nat)
    requires rowLength > 0
    ensures n > 0 ==> r > 0 && Offset(rowLength, r - 1) < n <= Offset(rowLength, r)
    ensures n == 0 ==> (r == 0 <==> rowLength == 1)
  {
    if n == 0 then
      OneOver(rowLength);
      TruncDiv(-1, rowLength) + 1
    else
      RowCountBounds(n, rowLength);
      TruncDiv(n - 1, rowLength) + 1
  }

  /** The rows a batch is written as: `rowLength`-base slices, or the whole
      batch on one row when `rowLength <= 0`. */
  function Rows(batch: string, rowLength: int): (rows: seq<string>)
  {
    if rowLength <= 0 then [batch]
    else seq(RowCount(|batch|, rowLength), i => Row(batch, rowLength, i))
  }

  /** Row `i`: Python `batch[rowLength * i:rowLength * (i + 1)]`. */
  function Row(batch: string, rowLength: int, i: int): string
  {
    PySlice(batch, rowLength * i, rowLength * (i + 1))
  }

  function Min(a: int, b: int): int { if a <= b then a else b }

  /** Row `i` is the slice of the batch from `Offset(rowLength, i)`. */
  lemma RowAt(batch: string, rowLength: nat, i: nat)
    requires rowLength > 0 && i < RowCount(|batch|, rowLength)
    ensures var lo := Offset(rowLength, i);
            Rows(batch, rowLength)[i] == batch[Min(lo, |batch|)..Min(lo + rowLength, |batch|)]
  {
    assert Rows(batch, rowLength)[i] == Row(batch, rowLength, i);
    OffsetIsProduct(rowLength, i);
    OffsetIsProduct(rowLength, i + 1);
    SliceFrom(batch, rowLength * i, rowLength * (i + 1));
  }

  /** A Python slice with non-negative bounds. */
  lemma SliceFrom(s: string, lo: nat, hi: nat)
    requires lo <= hi
    ensures PySlice(s, lo, hi) == s[Min(lo, |s|)..Min(hi, |s|)]
  {
  }

  /** Rows start inside a non-empty batch. */
  lemma RowStarts(batch: string, rowLength: nat, i: nat)
    requires rowLength > 0 && i < RowCount(|batch|, rowLength) && |batch| > 0
    ensures Offset(rowLength, i) < |batch|
  {
    OffsetMono(rowLength, i, RowCount(|batch|, rowLength) - 1);
  }

  /** `rows` cuts `batch` into consecutive `rowLength`-base slices. */
  ghost predicate Chunks(batch: string, rowLength: nat, rows: seq<string>)
  {
    rowLength > 0 && |rows| == RowCount(|batch|, rowLength)
    && forall i :: 0 <= i < |rows| ==>
         rows[i] == batch[Min(Offset(rowLength, i), |batch|)..Min(Offset(rowLength, i) + rowLength, |batch|)]
  }

  lemma RowsChunks(batch: string, rowLength: nat)
    requires rowLength > 0
    ensures Chunks(batch, rowLength, Rows(batch, rowLength))
  {
    forall i | 0 <= i < RowCount(|batch|, rowLength) {
      RowAt(batch, rowLength, i);
    }
  }

  /** The first `k` chunks spell the first `Offset(rowLength, k)` bases. */
  lemma {:induction false} ChunksPrefix(batch: string, rowLength: nat, rows: seq<string>, k: nat)
    requires Chunks(batch, rowLength, rows) && k <= |rows|
    ensures Concat(rows[..k]) == batch[..Min(Offset(rowLength, k), |batch|)]
    decreases k
  {
    if k > 0 {
      ChunksPrefix(batch, rowLength, rows, k - 1);
      ConcatSnoc(rows, k);
      var lo := Offset(rowLength, k - 1);
      var n := |batch|;
      var a := Min(lo, n);
      var b := Min(lo + rowLength, n);
      assert rows[k - 1] == batch[a..b];
      assert Offset(rowLength, k) == lo + rowLength;
      SliceJoin(batch, a, b);
    } else {
      ConcatNone(rows);
    }
  }

  /** The rows of a batch spell the batch. */
  lemma RowsSpellBatch(batch: string, rowLength: int)
    ensures Concat(Rows(batch, rowLength)) == batch
  {
    var rows := Rows(batch, rowLength);
    if rowLength <= 0 {
      ConcatSingle(batch);
    } else {
      var c := RowCount(|batch|, rowLength);
      RowsChunks(batch, rowLength);
      ChunksPrefix(batch, rowLength, rows, c);
      assert rows[..c] == rows;
    }
  }

  /** Every row but the last is full, and the last is not empty. */
  lemma RowsShape(batch: string, rowLength: int)
    requires rowLength > 0 && |batch| > 0
    ensures var rows := Rows(batch, rowLength);
            |rows| > 0
            && (forall k :: 0 <= k < |rows| - 1 ==> |rows[k]| == rowLength)
            && 0 < |rows[|rows| - 1]| <= rowLength
  {
    var rows := Rows(batch, rowLength);
    RowsChunks(batch, rowLength);
    ChunksShape(batch, rowLength, rows);
  }

  lemma ChunksShape(batch: string, rowLength: nat, rows: seq<string>)
    requires Chunks(batch, rowLength, rows) && |batch| > 0
    ensures |rows| > 0
    ensures forall k :: 0 <= k < |rows| - 1 ==> |rows[k]| == rowLength
    ensures 0 < |rows[|rows| - 1]| <= rowLength
  {
    var c := |rows|;
    forall k | 0 <= k < c - 1 ensures |rows[k]| == rowLength {
      RowStarts(batch, rowLength, k + 1);
      assert Offset(rowLength, k + 1) == Offset(rowLength, k) + rowLength;
    }
  }

  /** What one call of `writeBatchToBin` appends to the file of bin `bin`:
      the header row, then the rows of the batch, each ending in a newline. */
  datatype BinRecord = BinRecord(bin: nat, header: string, rows: seq<string>)
  {
    function Lines(): seq<string>
    {
      [header + "\n"] + seq(|rows|, k requires 0 <= k < |rows| => rows[k] + "\n")
    }
  }

  /** `writeBatchToBin(batch_name, batch, bin_num, row_length)`: nothing for
      a negative bin, otherwise the record written to that bin, whose rows
      spell the batch. */
  function WriteBatchToBin(batchName: string, batch: string, bin: int, rowLength: int): (r: Option<BinRecord>)
    ensures r.None? <==> bin < 0
    ensures r.Some? ==>
              r.value.bin == bin && r.value.header == ">" + batchName
              && Concat(r.value.rows) == batch
              && (rowLength <= 0 ==> r.value.rows == [batch])
              && (rowLength > 0 && |batch| > 0 ==>
                    |r.value.rows| > 0
                    && (forall k :: 0 <= k < |r.value.rows| - 1 ==> |r.value.rows[k]| == rowLength)
                    && 0 < |r.value.rows[|r.value.rows| - 1]| <= rowLength)
  {
    if bin < 0 then None
    else
      var rows := Rows(batch, rowLength);
      RowsSpellBatch(batch, rowLength);
      if rowLength > 0 && |batch| > 0 then
        RowsShape(batch, rowLength);
        Some(BinRecord(bin, ">" + batchName, rows))
      else
        Some(BinRecord(bin, ">" + batchName, rows))
  }
}
