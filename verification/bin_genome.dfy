/** bin_genome.py: the unfinished object-style rewrite of the batching
    engine. A `GenomeBatch` holds a sequence name, a 0-based start, the
    bases and two counters (`gc`, the G/C bases, and `gcat`, all A/C/G/T
    bases). Several methods refer to names that do not exist; each such
    method is modelled as written (`Spelling.AsWritten`) and as evidently
    intended (`Spelling.Intended`). */
module BinGenome {
  import opened Common
  import opened Text
  import opened Nearest
  import SplitGenome

  const BATCH_LENGTH: nat := 60000
  const BATCH_OVERLAP: nat := 2000

  /** The bins `gcBackground` snaps to; the module leaves the list empty. */
  const GC_BINS: seq<int> := []

  datatype GenomeBatch = GenomeBatch(seqName: string, start: int, bases: string, gc: nat, gcat: nat)

  /** The two readings of a defective line: the code as it stands, and the
      evident intent. */
  datatype Spelling = AsWritten | Intended

  /* ---------------------------------------------------------------------
     Names: what Python finds when the methods look names up.
     --------------------------------------------------------------------- */

  /** The names bound at module level in bin_genome.py (its imports,
      constants, class and functions). */
  const MODULE_NAMES: set<string> :=
    {"argparse", "io", "BATCH_LENGTH", "BATCH_OVERLAP", "MIN_BATCH_LENGTH", "GC_BINS",
     "GenomeBatch", "writeBatchToBin", "splitGenome"}

  /** The attributes the class GenomeBatch defines. */
  const METHODS: set<string> :=
    {"__init__", "batchName", "gcBackground", "addToBatch", "writeToBin", "combineBatch", "__countGCAT__"}

  /** Private-name mangling inside the class body: a name that starts with
      two underscores and does not end with two is renamed to
      `_GenomeBatch<name>`. */
  function Mangle(name: string): string
  {
    if |name| >= 2 && name[..2] == "__" && name[|name| - 2..] != "__" then "_GenomeBatch" + name else name
  }

  /** The first of the bare `names` a method body reads that is neither one
      of its locals nor a module-level name (none of the names involved is a
      builtin either): evaluating it raises NameError. */
  function FirstUnbound(locals: set<string>, names: seq<string>): (r: Option<string>)
    ensures r.Some? ==> r.value in names && r.value !in locals && r.value !in MODULE_NAMES
    ensures r.None? ==> forall k :: 0 <= k < |names| ==> names[k] in locals || names[k] in MODULE_NAMES
  {
    if |names| == 0 then None
    else if names[0] !in locals && names[0] !in MODULE_NAMES then Some(names[0])
    else FirstUnbound(locals, names[1..])
  }

  /* ---------------------------------------------------------------------
     Counting.
     --------------------------------------------------------------------- */

  /** `__countGCAT__(seq)`: for every character of `seq.lower()` in
      "gcat", count it in `gcat`, and in `gc` too when it is in "gc". */
  function CountInto(b: GenomeBatch, s: string): (r: GenomeBatch)
    ensures r.seqName == b.seqName && r.start == b.start && r.bases == b.bases
    decreases |s|
  {
    if |s| == 0 then b else CountInto(CountChar(b, s[0]), s[1..])
  }

  /** One pass of the counting loop. */
  function CountChar(b: GenomeBatch, c: char): (r: GenomeBatch)
    ensures r.seqName == b.seqName && r.start == b.start && r.bases == b.bases
  {
    var ch := ToLower(c);
    if ch in "gcat" then b.(gc := b.gc + (if ch in "gc" then 1 else 0), gcat := b.gcat + 1) else b
  }

  /** One character counted both ways. */
  lemma CountCharCounts(b: GenomeBatch, c: char)
    ensures var n := SplitGenome.CountGCAT([c]);
            CountChar(b, c) == b.(gc := b.gc + n.0, gcat := b.gcat + n.0 + n.1)
  {
    assert [c][..0] == [];
  }

  /** The method's counters agree with split_genome's `countGCAT`: `gc`
      grows by the G/C count and `gcat` by the G/C and A/T counts together. */
  lemma {:induction false} CountIntoCounts(b: GenomeBatch, s: string)
    ensures var n := SplitGenome.CountGCAT(s);
            CountInto(b, s) == b.(gc := b.gc + n.0, gcat := b.gcat + n.0 + n.1)
    decreases |s|
  {
    if |s| > 0 {
      CountIntoCounts(CountChar(b, s[0]), s[1..]);
      CountCharCounts(b, s[0]);
      assert s == [s[0]] + s[1..];
      SplitGenome.CountGCATAppend([s[0]], s[1..]);
    }
  }

  /** The counters hold the counts of the batch's own bases. */
  predicate Tallied(b: GenomeBatch)
  {
    var n := SplitGenome.CountGCAT(b.bases);
    b.gc == n.0 && b.gcat == n.0 + n.1
  }

  /** Counting text and appending it to the bases keeps the counters exact. */
  lemma TalliedAppend(b: GenomeBatch, s: string)
    ensures Tallied(b) ==> Tallied(CountInto(b, s).(bases := b.bases + s))
  {
    CountIntoCounts(b, s);
    SplitGenome.CountGCATAppend(b.bases, s);
  }

  /** The attribute a method uses to call the counter: `self.__countGCAT`
      as written, `self.__countGCAT__` as defined. */
  function CountAttr(sp: Spelling): string
  {
    if sp == AsWritten then "__countGCAT" else "__countGCAT__"
  }

  /** `self.<CountAttr(sp)>(s)`: the attribute is looked up after mangling,
      and a missing one raises AttributeError. */
  function CallCount(b: GenomeBatch, sp: Spelling, s: string): Result<GenomeBatch>
  {
    if Mangle(CountAttr(sp)) in METHODS then Ok(CountInto(b, s)) else Err(AttributeError)
  }

  /** `self.__countGCAT` is mangled to `_GenomeBatch__countGCAT`, which the
      class does not define; `self.__countGCAT__` is not mangled and found. */
  lemma CountCallResolves(b: GenomeBatch, s: string)
    ensures Mangle(CountAttr(AsWritten)) == "_GenomeBatch__countGCAT"
    ensures CallCount(b, AsWritten, s) == Err(AttributeError)
    ensures CallCount(b, Intended, s) == Ok(CountInto(b, s))
  {
    var w := "__countGCAT";
    assert w[..2] == "__" && w[|w| - 2..] == "AT";
    var d := "__countGCAT__";
    assert d[|d| - 2..] == "__";
    assert "_GenomeBatch" + w == "_GenomeBatch__countGCAT";
  }

  /* ---------------------------------------------------------------------
     The methods.
     --------------------------------------------------------------------- */

  /** `GenomeBatch(seq_name, start, seq)`: the batch with counters zeroed,
      then its bases counted once. */
  function Init(seqName: string, start: int, bases: string, sp: Spelling): (r: Result<GenomeBatch>)
    ensures sp == Intended ==>
              r.Ok? && r.value.seqName == seqName && r.value.start == start && r.value.bases == bases
              && Tallied(r.value)
  {
    var b := GenomeBatch(seqName, start, bases, 0, 0);
    CountCallResolves(b, bases);
    CountIntoCounts(b, bases);
    CallCount(b, sp, bases)
  }

  /** Constructing any batch as written fails with AttributeError. */
  lemma InitMangled(seqName: string, start: int, bases: string)
    ensures Init(seqName, start, bases, AsWritten) == Err(AttributeError)
    ensures Init(seqName, start, bases, Intended).Ok?
  {
    CountCallResolves(GenomeBatch(seqName, start, bases, 0, 0), bases);
  }

  /** `addToBatch(seq)`: append as much of `seq` as fits below BATCH_LENGTH
      and count it; once the batch is full, return its last BATCH_OVERLAP
      bases followed by the part of `seq` that was not appended. `sp` spells
      the counter call; `slice` is the start of that part: line 118 as
      written computes it from the length after appending. */
  function AddToBatchAs(b: GenomeBatch, s: string, sp: Spelling, slice: Spelling): (r: Result<(GenomeBatch, string)>)
  {
    var append := PyTo(s, BATCH_LENGTH - |b.bases|);
    var counted :- CallCount(b, sp, append);
    var b1 := counted.(bases := counted.bases + append);
    if |b1.bases| == BATCH_LENGTH then
      var from := if slice == AsWritten then BATCH_LENGTH - |b1.bases| else BATCH_LENGTH - |b.bases|;
      Ok((b1, PyFrom(b1.bases, -(BATCH_OVERLAP as int)) + PyFrom(s, from)))
    else
      Ok((b1, ""))
  }

  /** `addToBatch` as intended. A batch not past BATCH_LENGTH grows by the
      part of `seq` that fits and never past BATCH_LENGTH; nothing is
      returned below BATCH_LENGTH, and a full batch returns its overlap
      followed by the unappended rest. A batch already past BATCH_LENGTH
      (which `combineBatch` can make) gets `seq` without its last
      `len(self.seq) - BATCH_LENGTH` characters, since the slice bound is
      negative, and nothing is returned. The counters stay exact. */
  function AddToBatch(b: GenomeBatch, s: string): (r: (GenomeBatch, string))
    ensures r.0.seqName == b.seqName && r.0.start == b.start
    ensures Tallied(b) ==> Tallied(r.0)
    ensures |b.bases| <= BATCH_LENGTH ==>
              var read := if |s| < BATCH_LENGTH - |b.bases| then |s| else BATCH_LENGTH - |b.bases|;
              r.0.bases == b.bases + s[..read] && |r.0.bases| <= BATCH_LENGTH
    ensures |b.bases| > BATCH_LENGTH ==>
              var extra := |b.bases| - BATCH_LENGTH;
              r.1 == "" && r.0.bases == b.bases + (if |s| <= extra then "" else s[..|s| - extra])
    ensures |r.0.bases| < BATCH_LENGTH ==> r.1 == ""
    ensures |r.0.bases| == BATCH_LENGTH ==>
              |b.bases| <= BATCH_LENGTH
              && r.1 == r.0.bases[BATCH_LENGTH - BATCH_OVERLAP..] + s[BATCH_LENGTH - |b.bases|..]
  {
    var read := ClampIndex(BATCH_LENGTH - |b.bases|, |s|);
    CountCallResolves(b, s[..read]);
    TalliedAppend(b, s[..read]);
    var r := AddToBatchAs(b, s, Intended, Intended);
    r.value
  }

  /** As written, line 114 calls the counter as `self.__countGCAT`, which
      is mangled like the call in the constructor: every call raises
      AttributeError before the batch changes, whichever way line 118 is
      read. */
  lemma AddToBatchMangled(b: GenomeBatch, s: string, slice: Spelling)
    ensures AddToBatchAs(b, s, AsWritten, slice) == Err(AttributeError)
    ensures AddToBatchAs(b, s, Intended, slice).Ok?
  {
    CountCallResolves(b, PyTo(s, BATCH_LENGTH - |b.bases|));
  }

  /** Nothing is lost: once the batch is full, the batch followed by the
      returned text past its overlap is the old batch followed by all of
      `seq`. */
  lemma AddToBatchKeepsAll(b: GenomeBatch, s: string)
    requires |AddToBatch(b, s).0.bases| == BATCH_LENGTH
    ensures var r := AddToBatch(b, s);
            |r.1| >= BATCH_OVERLAP && r.0.bases + r.1[BATCH_OVERLAP..] == b.bases + s
  {
    var r := AddToBatch(b, s);
    RejoinRest(b.bases, s, BATCH_LENGTH - |b.bases|, r.0.bases[BATCH_LENGTH - BATCH_OVERLAP..], r.0.bases, r.1);
  }

  /** The bases taken plus the rest past the overlap are everything. */
  lemma RejoinRest(prefix: string, s: string, read: nat, overlap: string, full: string, rest: string)
    requires read <= |s| && full == prefix + s[..read]
    requires |overlap| == BATCH_OVERLAP && rest == overlap + s[read..]
    ensures |rest| >= BATCH_OVERLAP && full + rest[BATCH_OVERLAP..] == prefix + s
  {
    assert rest[BATCH_OVERLAP..] == s[read..];
    assert s == s[..read] + s[read..];
  }

  /** Line 118 as written slices `seq` from `BATCH_LENGTH - len(self.seq)`
      after the append, which is 0. Once line 114's call is spelled so that
      it resolves, a call that fills a batch returns the overlap followed by
      the whole argument, so the appended bases are handed on a second time;
      with both lines as written the call raises AttributeError first. */
  lemma AddToBatchLine118(b: GenomeBatch, s: string)
    requires |b.bases| < BATCH_LENGTH <= |b.bases| + |s|
    ensures var w := AddToBatchAs(b, s, Intended, AsWritten);
            var r := AddToBatch(b, s);
            w.Ok? && w.value.0 == r.0
            && w.value.1 == r.0.bases[BATCH_LENGTH - BATCH_OVERLAP..] + s
            && w.value.1 != r.1
    ensures AddToBatchAs(b, s, AsWritten, AsWritten) == Err(AttributeError)
  {
    var read := BATCH_LENGTH - |b.bases|;
    CountCallResolves(b, s[..read]);
    var r := AddToBatch(b, s);
    var tail := r.0.bases[BATCH_LENGTH - BATCH_OVERLAP..];
    assert |tail + s| != |tail + s[read..]|;
  }

  /** `combineBatch(other)`: append the bases of the next batch past its
      overlap, counting only those; the result may exceed BATCH_LENGTH. */
  function CombineBatch(b: GenomeBatch, other: GenomeBatch): (r: GenomeBatch)
    ensures r.seqName == b.seqName && r.start == b.start
    ensures Tallied(b) ==> Tallied(r)
  {
    var append := PyFrom(other.bases, BATCH_OVERLAP);
    TalliedAppend(b, append);
    CountInto(b, append).(bases := b.bases + append)
  }

  /** Combining a batch with the one that follows it in the genome (it
      starts BATCH_OVERLAP bases before the first ends and repeats those
      bases) gives the contiguous union: the first batch, then the second
      one from its own start on. */
  lemma CombineContiguous(b: GenomeBatch, other: GenomeBatch)
    requires |b.bases| >= BATCH_OVERLAP && |other.bases| >= BATCH_OVERLAP
    requires other.start == b.start + |b.bases| - BATCH_OVERLAP
    requires other.bases[..BATCH_OVERLAP] == b.bases[|b.bases| - BATCH_OVERLAP..]
    ensures var r := CombineBatch(b, other);
            var off := other.start - b.start;
            r.bases[..|b.bases|] == b.bases && 0 <= off <= |r.bases| && r.bases[off..] == other.bases
            && r.start + |r.bases| == other.start + |other.bases|
  {
    var r := CombineBatch(b, other);
    var off := |b.bases| - BATCH_OVERLAP;
    assert r.bases == b.bases + other.bases[BATCH_OVERLAP..];
    assert b.bases == b.bases[..off] + b.bases[off..];
    assert r.bases[off..] == b.bases[off..] + other.bases[BATCH_OVERLAP..];
    assert other.bases == other.bases[..BATCH_OVERLAP] + other.bases[BATCH_OVERLAP..];
  }

  /** `gcBackground()` as intended, reading `self.gc` and `self.gcat`: a
      batch without A/C/G/T divides by zero; otherwise the nearest of `bins`
      to the GC percentage, or -1 when none is within 100. */
  function GcBackground(b: GenomeBatch, bins: seq<int>): (r: Result<int>)
    ensures r.Err? <==> b.gcat == 0
    ensures r.Err? ==> r.error == ZeroDivisionError
    ensures r.Ok? ==>
              var pct := 100.0 * b.gc as real / b.gcat as real;
              (r.value == -1 <== forall j :: 0 <= j < |bins| ==> Dist(bins[j], pct) >= 100.0)
              && (forall i :: FirstNearest(bins, pct, 100.0, i) ==> r.value == bins[i])
  {
    if b.gcat == 0 then Err(ZeroDivisionError)
    else
      var pct := 100.0 * b.gc as real / b.gcat as real;
      NearestValueSpec(bins, pct);
      Ok(NearestValue(bins, pct))
  }

  /** With the module's empty GC_BINS no batch is ever given a bin. */
  lemma NoBinsNoBin(b: GenomeBatch)
    requires b.gcat > 0
    ensures GcBackground(b, GC_BINS) == Ok(-1)
  {
  }

  /** `gcBackground()` as written: its body reads the bare names `gc` and
      `gcat`, which are neither locals nor module-level names. */
  function GcBackgroundAsWritten(b: GenomeBatch, bins: seq<int>): Result<int>
  {
    if FirstUnbound({"self", "gcb", "minDist", "binNum", "b"}, ["gc", "gcat"]).Some? then Err(NameError)
    else GcBackground(b, bins)
  }

  lemma GcBackgroundUnbound(b: GenomeBatch, bins: seq<int>)
    ensures GcBackgroundAsWritten(b, bins) == Err(NameError)
    ensures b.gcat > 0 ==> GcBackground(b, bins).Ok?
  {
    assert "gc" !in {"self", "gcb", "minDist", "binNum", "b"} && "gc" !in MODULE_NAMES;
  }

  /** The batch name as the docstring gives it: the sequence name, a colon
      with no space, and the 1-based inclusive range of the bases. */
  function BatchName(b: GenomeBatch): (r: string)
  {
    b.seqName + ":" + IntToString(b.start + 1) + "-" + IntToString(b.start + |b.bases|)
  }

  /** The same range as split_genome.py names it, but without the space
      after the colon. */
  lemma BatchNameVersusSplit(b: GenomeBatch)
    ensures var n := |b.seqName| + 1;
            var r := BatchName(b);
            n <= |r| && r[..n] + " " + r[n..] == SplitGenome.BatchName(b.seqName, b.start, b.start + |b.bases|)
  {
    InsertSpace(b.seqName, IntToString(b.start + 1), IntToString(b.start + |b.bases|));
  }

  lemma InsertSpace(a: string, x: string, y: string)
    ensures var r := a + ":" + x + "-" + y;
            |a| + 1 <= |r| && r[..|a| + 1] + " " + r[|a| + 1..] == a + ": " + x + "-" + y
  {
    var r := a + ":" + x + "-" + y;
    assert r[..|a| + 1] == a + ":";
    assert r[|a| + 1..] == x + "-" + y;
  }

  /** `batchName()` as written: it reads the bare names `seq_name`, `start`
      and `seq`, none of them bound (and were they bound to the batch's
      fields, `":" + (start + 1)` would add a str and an int, a TypeError). */
  function BatchNameAsWritten(b: GenomeBatch): Result<string>
  {
    if FirstUnbound({"self"}, ["seq_name", "start", "seq"]).Some? then Err(NameError)
    else Err(TypeError)
  }

  lemma BatchNameUnbound(b: GenomeBatch)
    ensures BatchNameAsWritten(b) == Err(NameError)
  {
    assert "seq_name" !in {"self"} && "seq_name" !in MODULE_NAMES;
  }

  /** `chr1`, start 0, 60000 bases: `chr1:1-60000`. */
  lemma BatchNameExample(bases: string)
    requires |bases| == 60000
    ensures BatchName(GenomeBatch("chr1", 0, bases, 0, 0)) == "chr1:1-60000"
  {
    assert NatToString(1) == "1";
    SixtyThousand();
  }

  lemma SixtyThousand()
    ensures NatToString(60000) == "60000"
  {
    assert NatToString(6) == "6";
    assert NatToString(60) == "60";
    assert NatToString(600) == "600";
    assert NatToString(6000) == "6000";
  }
}
