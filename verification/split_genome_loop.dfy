/** The streaming loop of `splitGenome` in split_genome.py, as a pure state
    machine over the raw lines of the input file. Every call of
    `writeBatchToBin` the loop makes is recorded as a `Flush`; the records
    that actually reach a bin file are `Written`.

    Lines are the strings readline returns (terminator included); the loop
    works on `line[:-1]`, and an empty chopped line (a blank line, or the end
    of the file) ends it. */
module SplitGenomeLoop {
  import opened Common
  import opened Text
  import opened SplitGenome

  /** `batch_length`, `batch_overlap` and `row_length` of one run. */
  datatype Config = Config(batchLength: nat, batchOverlap: nat, rowLength: int)
  {
    /** The loop only makes progress when `1 <= batch_overlap < batch_length`:
        with a zero overlap `batch[-0:]` carries the whole batch, and with an
        overlap of at least the batch length every carry overflows again. */
    predicate Valid() { 1 <= batchOverlap < batchLength }
  }

  /** The defaults of split_genome.py. */
  const DEFAULT: Config := Config(BATCH_LENGTH, BATCH_OVERLAP, -1)

  /** How the overflow branch counts bases: `WholeLine` is the code as
      written (`countGCAT(line)`, the whole line including the part that
      does not fit), `ReadPrefix` counts only the bases added to the batch
      (`countGCAT(line[:read_bases])`). */
  datatype Counting = WholeLine | ReadPrefix

  /** Why a batch was handed to `writeBatchToBin`. */
  datatype Cause = Overflow | Header | EndOfInput

  /** The arguments of one `writeBatchToBin` call, before naming and
      binning: the sequence name, the 0-based range `[start, end)`, the
      bases, and the G/C and A/T counts the loop accumulated. */
  datatype Flush = Flush(name: string, start: nat, end: nat, bases: string, gc: nat, at: nat, cause: Cause)

  /** The loop variables `seq_name`, `batch`, `start`, `end`, `gc`, `at`. */
  datatype Engine = Engine(name: string, batch: string, start: nat, end: nat, gc: nat, at: nat)

  /** The loop-head invariant: the batch is below the batch length and
      `end - start` is its length. */
  predicate EngineOk(c: Config, e: Engine)
  {
    e.end == e.start + |e.batch| && |e.batch| < c.batchLength
  }

  /** A flushed batch has `end - start` bases, never more than the batch
      length, and exactly the batch length when (and only when) it was cut by
      an overflow. */
  predicate FlushOk(c: Config, f: Flush)
  {
    f.end == f.start + |f.bases| && |f.bases| <= c.batchLength
    && (f.cause == Overflow <==> |f.bases| == c.batchLength)
  }

  function Emit(e: Engine, cause: Cause): Flush
  {
    Flush(e.name, e.start, e.end, e.batch, e.gc, e.at, cause)
  }

  function Counted(c: Counting, line: string, read: nat): (nat, nat)
    requires read <= |line|
  {
    if c == WholeLine then CountGCAT(line) else CountGCAT(line[..read])
  }

  /** What the overflow branch does with a line that fills the batch: the
      full batch it flushes (its counts taken as `mode` says), the engine the
      loop restarts with `batch_overlap` bases back, and the text it carries
      into the next pass (the overlap and the unread rest of the line). */
  datatype Cut = Cut(flush: Flush, next: Engine, carry: string)

  function CutAt(c: Config, mode: Counting, e: Engine, line: string): (r: Cut)
    requires c.Valid() && EngineOk(c, e) && |e.batch| < c.batchLength <= |e.batch| + |line|
    ensures |r.flush.bases| == c.batchLength && r.next.batch == "" && EngineOk(c, r.next)
    ensures |r.carry| < |e.batch| + |line|
  {
    var read := c.batchLength - |e.batch|;
    var batch := e.batch + line[..read];
    var end := e.end + read;
    var n := Counted(mode, line, read);
    var start := end - c.batchOverlap;
    Cut(Flush(e.name, e.start, end, batch, e.gc + n.0, e.at + n.1, Overflow),
        Engine(e.name, "", start, start, 0, 0),
        batch[c.batchLength - c.batchOverlap..] + line[read..])
  }

  /** One pass of the loop body on a non-empty `line`, including the passes
      on the carried overlap that an overflow sets up: a header flushes and
      starts a new sequence; a line that fills the batch flushes a full batch
      and carries its last `batch_overlap` bases plus the unread rest of the
      line into the next pass; any other line is appended. */
  function Feed(c: Config, mode: Counting, e: Engine, line: string): (r: (seq<Flush>, Engine))
    requires c.Valid() && EngineOk(c, e) && |line| > 0
    ensures EngineOk(c, r.1)
    ensures forall k :: 0 <= k < |r.0| ==> FlushOk(c, r.0[k])
    decreases |e.batch| + |line|
  {
    if line[0] == '>' then
      ([Emit(e, Header)], Engine(line[1..], "", 0, 0, 0, 0))
    else if |e.batch| + |line| >= c.batchLength then
      var cut := CutAt(c, mode, e, line);
      var next := Feed(c, mode, cut.next, cut.carry);
      ([cut.flush] + next.0, next.1)
    else
      var n := CountGCAT(line);
      ([], Engine(e.name, e.batch + line, e.start, e.end + |line|, e.gc + n.0, e.at + n.1))
  }

  /** The loop from its head, with `rest` the lines readline has still to
      return: an empty chopped line flushes the last batch and stops. */
  function Scan(c: Config, mode: Counting, rest: seq<string>, e: Engine): (r: seq<Flush>)
    requires c.Valid() && EngineOk(c, e)
    ensures |r| > 0 && r[|r| - 1].cause == EndOfInput
    ensures forall k :: 0 <= k < |r| ==> FlushOk(c, r[k])
    decreases |rest|
  {
    if |rest| == 0 || Chop(rest[0]) == "" then [Emit(e, EndOfInput)]
    else
      var fed := Feed(c, mode, e, Chop(rest[0]));
      fed.0 + Scan(c, mode, rest[1..], fed.1)
  }

  /** The first line names the first sequence (`readline()[1:-1]`, whatever
      it holds); everything after the end of the file is never read. */
  function Start(lines: seq<string>): (e: Engine)
    ensures e.batch == "" && e.start == 0 && e.end == 0
  {
    var ls := UntilEof(lines);
    Engine(if |ls| == 0 then "" else PySlice(ls[0], 1, -1), "", 0, 0, 0, 0)
  }

  function Body(lines: seq<string>): seq<string>
  {
    var ls := UntilEof(lines);
    if |ls| == 0 then [] else ls[1..]
  }

  /** `splitGenome(fa_file, batch_length, batch_overlap, row_length)`: every
      `writeBatchToBin` call it makes, in order. */
  function Run(c: Config, mode: Counting, lines: seq<string>): (r: seq<Flush>)
    requires c.Valid()
    ensures |r| > 0 && r[|r| - 1].cause == EndOfInput
    ensures forall k :: 0 <= k < |r| ==> FlushOk(c, r[k])
  {
    Scan(c, mode, Body(lines), Start(lines))
  }

  /** What `writeBatchToBin` does with one flush. */
  function WriteFlush(c: Config, f: Flush): Option<BinRecord>
  {
    WriteBatchToBin(BatchName(f.name, f.start, f.end), f.bases, GcBackground(f.gc, f.at), c.rowLength)
  }

  /** The records appended to the bin files, in order. */
  function Written(c: Config, fs: seq<Flush>): (r: seq<BinRecord>)
    ensures |r| <= |fs|
  {
    if |fs| == 0 then []
    else
      (match WriteFlush(c, fs[0]) case Some(b) => [b] case None => []) + Written(c, fs[1..])
  }

  /* ---------------------------------------------------------------------
     Reconstruction: the batches, with each repeated overlap removed, spell
     the sequences of the input.
     --------------------------------------------------------------------- */

  /** One sequence of the input: its name and its bases. */
  datatype Record = Record(name: string, text: string)

  /** The records with `text` added to the bases of the last one. */
  function Extend(recs: seq<Record>, text: string): (r: seq<Record>)
    requires |recs| > 0
    ensures |r| == |recs| && r[..|r| - 1] == recs[..|recs| - 1]
    ensures r[|r| - 1] == Record(recs[|recs| - 1].name, recs[|recs| - 1].text + text)
  {
    var last := recs[|recs| - 1];
    recs[..|recs| - 1] + [Record(last.name, last.text + text)]
  }

  /** The sequences of the input read line by line, independently of any
      batching: a `>` line starts a sequence named by the rest of the line,
      any other line adds its bases to the current sequence, and the first
      empty chopped line ends the input. */
  function RecordsFrom(acc: seq<Record>, rest: seq<string>): (r: seq<Record>)
    requires |acc| > 0
    ensures |r| > 0
    decreases |rest|
  {
    if |rest| == 0 || Chop(rest[0]) == "" then acc
    else
      var line := Chop(rest[0]);
      if line[0] == '>' then RecordsFrom(acc + [Record(line[1..], "")], rest[1..])
      else RecordsFrom(Extend(acc, line), rest[1..])
  }

  /** The sequences of a whole input; the first line names the first one. */
  function Records(lines: seq<string>): seq<Record>
  {
    RecordsFrom([Record(Start(lines).name, "")], Body(lines))
  }

  /** Stitching state: the records rebuilt so far, and whether the last
      batch was cut by an overflow, so that the next batch of the same
      sequence repeats its tail. */
  datatype Stitched = Stitched(recs: seq<Record>, cont: bool)

  /** The records once the batch `bases` of sequence `name` is added: after
      an overflow it continues the last record past the repeated overlap;
      otherwise it starts a new record. */
  function Place(c: Config, st: Stitched, name: string, bases: string): (r: seq<Record>)
    ensures |r| > 0
  {
    if st.cont && |st.recs| > 0 then Extend(st.recs, PyFrom(bases, c.batchOverlap))
    else st.recs + [Record(name, bases)]
  }

  function StitchAll(c: Config, st: Stitched, fs: seq<Flush>): Stitched
    decreases |fs|
  {
    if |fs| == 0 then st
    else StitchAll(c, Stitched(Place(c, st, fs[0].name, fs[0].bases), fs[0].cause == Overflow), fs[1..])
  }

  /** The sequences rebuilt from a run's batches. */
  function Stitch(c: Config, fs: seq<Flush>): seq<Record>
  {
    StitchAll(c, Stitched([], false), fs).recs
  }

  lemma {:induction false} StitchAllAppend(c: Config, st: Stitched, a: seq<Flush>, b: seq<Flush>)
    ensures StitchAll(c, st, a + b) == StitchAll(c, StitchAll(c, st, a), b)
    decreases |a|
  {
    if |a| == 0 {
      assert a + b == b;
    } else {
      assert (a + b)[0] == a[0] && (a + b)[1..] == a[1..] + b;
      StitchAllAppend(c, Stitched(Place(c, st, a[0].name, a[0].bases), a[0].cause == Overflow), a[1..], b);
    }
  }

  /** Appending bases to the open batch appends them to the rebuilt record,
      as long as a continuing batch already holds its overlap. */
  lemma PlaceAppend(c: Config, st: Stitched, name: string, batch: string, more: string)
    requires st.cont && |st.recs| > 0 ==> |batch| >= c.batchOverlap
    ensures Place(c, st, name, batch + more) == Extend(Place(c, st, name, batch), more)
  {
    if st.cont && |st.recs| > 0 {
      assert PyFrom(batch + more, c.batchOverlap) == PyFrom(batch, c.batchOverlap) + more;
      var last := st.recs[|st.recs| - 1];
      assert last.text + PyFrom(batch, c.batchOverlap) + more
          == last.text + (PyFrom(batch, c.batchOverlap) + more);
    }
  }

  /** The batch cut at an overflow, followed by the carried overlap and the
      rest of the line, places the same bases as the whole line appended to
      the open batch. */
  lemma OverflowPlace(c: Config, st: Stitched, name: string, open: string, line: string, read: nat, carry: string)
    requires read <= |line|
    requires st.cont && |st.recs| > 0 ==> |open + line[..read]| >= c.batchOverlap
    requires PyFrom(carry, c.batchOverlap) == line[read..]
    ensures Place(c, Stitched(Place(c, st, name, open + line[..read]), true), name, carry)
         == Place(c, st, name, open + line)
  {
    var batch := open + line[..read];
    PlaceAppend(c, st, name, batch, line[read..]);
    SplitRejoin(open, line, read);
  }

  /** No `>` inside the bases: a chopped line that does not start with `>`
      holds none at all. */
  predicate NoStrayMarker(rest: seq<string>)
  {
    forall k :: 0 <= k < |rest| ==>
      var line := Chop(rest[k]);
      |line| > 0 && line[0] != '>' ==> '>' !in line
  }

  /** What the stitching needs of the loop state between two lines. */
  predicate StitchInv(c: Config, st: Stitched, e: Engine)
  {
    (st.cont ==> |st.recs| > 0 && |e.batch| >= c.batchOverlap) && '>' !in e.batch
  }

  lemma StitchCons(c: Config, st: Stitched, f: Flush, rest: seq<Flush>)
    ensures StitchAll(c, st, [f] + rest)
         == StitchAll(c, Stitched(Place(c, st, f.name, f.bases), f.cause == Overflow), rest)
  {
    assert ([f] + rest)[0] == f && ([f] + rest)[1..] == rest;
  }

  /** The cut of a line without `>` carries no `>`, carries at least the
      overlap, and carries past the overlap exactly the unread rest of the
      line. */
  lemma CutCarry(c: Config, mode: Counting, e: Engine, line: string)
    requires c.Valid() && EngineOk(c, e) && |e.batch| < c.batchLength <= |e.batch| + |line|
    requires '>' !in line && '>' !in e.batch
    ensures var cut := CutAt(c, mode, e, line);
            var read := c.batchLength - |e.batch|;
            cut.flush.bases == e.batch + line[..read] && cut.flush.name == e.name
            && cut.flush.cause == Overflow && cut.next.name == e.name
            && '>' !in cut.carry && |cut.carry| >= c.batchOverlap
            && PyFrom(cut.carry, c.batchOverlap) == line[read..]
  {
    var read := c.batchLength - |e.batch|;
    var batch := e.batch + line[..read];
    var tail := batch[c.batchLength - c.batchOverlap..];
    NotInSlice('>', line, read);
    NotInAppend('>', e.batch, line[..read]);
    NotInSlice('>', batch, c.batchLength - c.batchOverlap);
    NotInAppend('>', tail, line[read..]);
    AppendSplit(tail, line[read..]);
  }

  lemma FeedOverflow(c: Config, mode: Counting, e: Engine, line: string)
    requires c.Valid() && EngineOk(c, e) && |line| > 0 && line[0] != '>'
    requires |e.batch| + |line| >= c.batchLength
    ensures var cut := CutAt(c, mode, e, line);
            var next := Feed(c, mode, cut.next, cut.carry);
            Feed(c, mode, e, line) == ([cut.flush] + next.0, next.1)
  {
  }

  /** The stitching step of an overflow: once the rest of the pass has
      placed the carried text, the whole pass has placed the whole line. */
  lemma OverflowStep(c: Config, st: Stitched, f: Flush, fs: seq<Flush>, last: Engine,
                     open: string, line: string, read: nat, carry: string)
    requires read <= |line| && f.cause == Overflow && f.bases == open + line[..read]
    requires st.cont && |st.recs| > 0 ==> |f.bases| >= c.batchOverlap
    requires PyFrom(carry, c.batchOverlap) == line[read..]
    requires var st1 := Stitched(Place(c, st, f.name, f.bases), true);
             Place(c, StitchAll(c, st1, fs), last.name, last.batch) == Place(c, st1, f.name, "" + carry)
    ensures Place(c, StitchAll(c, st, [f] + fs), last.name, last.batch) == Place(c, st, f.name, open + line)
  {
    StitchCons(c, st, f, fs);
    assert "" + carry == carry;
    OverflowPlace(c, st, f.name, open, line, read, carry);
  }

  /** Feeding a base line (or a carried overlap) to the loop adds exactly
      its bases to the rebuilt sequence. */
  lemma {:induction false} FeedRecords(c: Config, mode: Counting, st: Stitched, e: Engine, line: string)
    requires c.Valid() && EngineOk(c, e) && |line| > 0
    requires '>' !in line && '>' !in e.batch
    requires st.cont ==> |st.recs| > 0 && |e.batch| + |line| >= c.batchOverlap
    ensures var r := Feed(c, mode, e, line);
            var st' := StitchAll(c, st, r.0);
            Place(c, st', r.1.name, r.1.batch) == Place(c, st, e.name, e.batch + line)
            && StitchInv(c, st', r.1)
    decreases |e.batch| + |line|
  {
    assert line[0] in line;
    if |e.batch| + |line| >= c.batchLength {
      var cut := CutAt(c, mode, e, line);
      CutCarry(c, mode, e, line);
      var st1 := Stitched(Place(c, st, e.name, cut.flush.bases), true);
      FeedRecords(c, mode, st1, cut.next, cut.carry);
      var next := Feed(c, mode, cut.next, cut.carry);
      OverflowRecordsStep(c, mode, st, e, line, next.0, next.1);
      FeedOverflow(c, mode, e, line);
    } else {
      NotInAppend('>', e.batch, line);
    }
  }

  /** The stitching step of an overflow, given what the pass on the carry
      (`fs`, leaving `last`) rebuilds. */
  lemma OverflowRecordsStep(c: Config, mode: Counting, st: Stitched, e: Engine, line: string,
                            fs: seq<Flush>, last: Engine)
    requires c.Valid() && EngineOk(c, e) && |line| > 0
    requires '>' !in line && '>' !in e.batch
    requires st.cont ==> |st.recs| > 0 && |e.batch| + |line| >= c.batchOverlap
    requires |e.batch| + |line| >= c.batchLength
    requires var cut := CutAt(c, mode, e, line);
             var st1 := Stitched(Place(c, st, e.name, cut.flush.bases), true);
             var st' := StitchAll(c, st1, fs);
             Place(c, st', last.name, last.batch) == Place(c, st1, cut.next.name, cut.next.batch + cut.carry)
             && StitchInv(c, st', last)
    ensures var cut := CutAt(c, mode, e, line);
            var st' := StitchAll(c, st, [cut.flush] + fs);
            Place(c, st', last.name, last.batch) == Place(c, st, e.name, e.batch + line)
            && StitchInv(c, st', last)
  {
    var cut := CutAt(c, mode, e, line);
    CutCarry(c, mode, e, line);
    StitchCons(c, st, cut.flush, fs);
    OverflowStep(c, st, cut.flush, fs, last, e.batch, line, c.batchLength - |e.batch|, cut.carry);
  }

  /** The loop from any state: the sequences rebuilt from what it flushes
      are the sequences the remaining lines spell, starting from the state's
      own rebuilt records. */
  lemma {:induction false} ScanRecords(c: Config, mode: Counting, st: Stitched, e: Engine, rest: seq<string>)
    requires c.Valid() && EngineOk(c, e) && StitchInv(c, st, e) && NoStrayMarker(rest)
    ensures StitchAll(c, st, Scan(c, mode, rest, e)).recs == RecordsFrom(Place(c, st, e.name, e.batch), rest)
    decreases |rest|
  {
    if |rest| == 0 || Chop(rest[0]) == "" {
    } else {
      var line := Chop(rest[0]);
      var fed := Feed(c, mode, e, line);
      var st' := StitchAll(c, st, fed.0);
      StitchAllAppend(c, st, fed.0, Scan(c, mode, rest[1..], fed.1));
      assert NoStrayMarker(rest[1..]) by {
        forall k | 0 <= k < |rest[1..]| ensures
          var l := Chop(rest[1..][k]); |l| > 0 && l[0] != '>' ==> '>' !in l
        {
          assert rest[1..][k] == rest[k + 1];
        }
      }
      if line[0] == '>' {
        assert fed.0 == [Emit(e, Header)];
        assert st' == Stitched(Place(c, st, e.name, e.batch), false);
        ScanRecords(c, mode, st', fed.1, rest[1..]);
      } else {
        assert '>' !in line;
        FeedRecords(c, mode, st, e, line);
        PlaceAppend(c, st, e.name, e.batch, line);
        ScanRecords(c, mode, st', fed.1, rest[1..]);
      }
    }
  }

  /** Batching loses and invents nothing: removing from each batch that
      continues an overflowed one its repeated overlap, the batches of a run
      spell exactly the sequences of the input, names included. */
  lemma Reconstruction(c: Config, mode: Counting, lines: seq<string>)
    requires c.Valid() && NoStrayMarker(Body(lines))
    ensures Stitch(c, Run(c, mode, lines)) == Records(lines)
  {
    var st := Stitched([], false);
    assert Place(c, st, Start(lines).name, Start(lines).batch) == [Record(Start(lines).name, "")];
    ScanRecords(c, mode, st, Start(lines), Body(lines));
  }

  /* ---------------------------------------------------------------------
     Overlap: the batch after a full one continues the same sequence
     `batch_overlap` bases back and starts with the same bases.
     --------------------------------------------------------------------- */

  /** What a batch `name`, `start`, `bases` owes the batch `prev` before it
      when `prev` was cut by an overflow. */
  predicate Follows(c: Config, prev: Flush, name: string, start: nat, bases: string)
  {
    prev.cause == Overflow ==>
      name == prev.name && start + c.batchOverlap == prev.end
      && c.batchOverlap <= |bases| && c.batchOverlap <= |prev.bases|
      && bases[..c.batchOverlap] == prev.bases[|prev.bases| - c.batchOverlap..]
  }

  /** Every flush of `fs` follows the one before it, the first one `prev`. */
  predicate ChainFrom(c: Config, prev: Flush, fs: seq<Flush>)
    decreases |fs|
  {
    |fs| > 0 ==> Follows(c, prev, fs[0].name, fs[0].start, fs[0].bases) && ChainFrom(c, fs[0], fs[1..])
  }

  function LastOr(prev: Flush, fs: seq<Flush>): Flush
  {
    if |fs| == 0 then prev else fs[|fs| - 1]
  }

  lemma {:induction false} ChainAppend(c: Config, prev: Flush, a: seq<Flush>, b: seq<Flush>)
    requires ChainFrom(c, prev, a) && ChainFrom(c, LastOr(prev, a), b)
    ensures ChainFrom(c, prev, a + b) && LastOr(LastOr(prev, a), b) == LastOr(prev, a + b)
    decreases |a|
  {
    if |a| == 0 {
      assert a + b == b;
    } else {
      assert (a + b)[0] == a[0] && (a + b)[1..] == a[1..] + b;
      assert LastOr(prev, a) == LastOr(a[0], a[1..]);
      ChainAppend(c, a[0], a[1..], b);
    }
  }

  lemma ChainCons(c: Config, prev: Flush, f: Flush, rest: seq<Flush>)
    requires Follows(c, prev, f.name, f.start, f.bases) && ChainFrom(c, f, rest)
    ensures ChainFrom(c, prev, [f] + rest) && LastOr(f, rest) == LastOr(prev, [f] + rest)
  {
    assert ([f] + rest)[0] == f && ([f] + rest)[1..] == rest;
  }

  /** A batch still follows `prev` once bases are appended to it. */
  lemma FollowsPrefix(c: Config, prev: Flush, name: string, start: nat, b: string, more: string)
    requires Follows(c, prev, name, start, b + more) && c.batchOverlap <= |b|
    ensures Follows(c, prev, name, start, b)
  {
    assert (b + more)[..c.batchOverlap] == b[..c.batchOverlap];
  }

  /** The cut batch ends `batch_overlap` bases after the next engine
      starts, and the carried text starts with its last `batch_overlap`
      bases. */
  lemma CutOverlap(c: Config, mode: Counting, e: Engine, line: string)
    requires c.Valid() && EngineOk(c, e) && |e.batch| < c.batchLength <= |e.batch| + |line|
    ensures var cut := CutAt(c, mode, e, line);
            Follows(c, cut.flush, cut.next.name, cut.next.start, cut.next.batch + cut.carry)
  {
    var read := c.batchLength - |e.batch|;
    var batch := e.batch + line[..read];
    var tail := batch[c.batchLength - c.batchOverlap..];
    CarryStart(tail, line[read..]);
  }

  lemma CarryStart(tail: string, rest: string)
    ensures |"" + (tail + rest)| >= |tail| && ("" + (tail + rest))[..|tail|] == tail
  {
    assert "" + (tail + rest) == tail + rest;
  }

  /** One pass of the loop keeps the chain: what it flushes follows `prev`,
      and the engine it leaves follows the last batch flushed. */
  lemma {:induction false} FeedChain(c: Config, mode: Counting, prev: Flush, e: Engine, line: string)
    requires c.Valid() && EngineOk(c, e) && |line| > 0
    requires line[0] != '>' ==> '>' !in line
    requires '>' !in e.batch
    requires Follows(c, prev, e.name, e.start, e.batch + line)
    requires line[0] == '>' ==> Follows(c, prev, e.name, e.start, e.batch)
    ensures var r := Feed(c, mode, e, line);
            ChainFrom(c, prev, r.0) && Follows(c, LastOr(prev, r.0), r.1.name, r.1.start, r.1.batch)
            && '>' !in r.1.batch
    decreases |e.batch| + |line|
  {
    if line[0] == '>' {
      ChainCons(c, prev, Emit(e, Header), []);
    } else if |e.batch| + |line| >= c.batchLength {
      var cut := CutAt(c, mode, e, line);
      CutChainReady(c, mode, e, line);
      FeedChain(c, mode, cut.flush, cut.next, cut.carry);
      var next := Feed(c, mode, cut.next, cut.carry);
      OverflowChainStep(c, mode, prev, e, line, next.0, next.1);
      FeedOverflow(c, mode, e, line);
    } else {
      assert '>' !in line;
      NotInAppend('>', e.batch, line);
    }
  }

  /** The carry of a cut is fit to be fed on: it holds no `>` and the batch
      it starts follows the cut batch. */
  lemma CutChainReady(c: Config, mode: Counting, e: Engine, line: string)
    requires c.Valid() && EngineOk(c, e) && |e.batch| < c.batchLength <= |e.batch| + |line|
    requires '>' !in line && '>' !in e.batch
    ensures var cut := CutAt(c, mode, e, line);
            |cut.carry| > 0 && '>' !in cut.carry && cut.carry[0] != '>' && '>' !in cut.next.batch
            && Follows(c, cut.flush, cut.next.name, cut.next.start, cut.next.batch + cut.carry)
  {
    var cut := CutAt(c, mode, e, line);
    CutCarry(c, mode, e, line);
    CutOverlap(c, mode, e, line);
    assert cut.carry[0] in cut.carry;
  }

  /** The chain step of an overflow, given the chain of the pass on the
      carry (`fs`, leaving `last`). */
  lemma OverflowChainStep(c: Config, mode: Counting, prev: Flush, e: Engine, line: string,
                          fs: seq<Flush>, last: Engine)
    requires c.Valid() && EngineOk(c, e) && |line| > 0 && line[0] != '>'
    requires |e.batch| + |line| >= c.batchLength
    requires Follows(c, prev, e.name, e.start, e.batch + line)
    requires var cut := CutAt(c, mode, e, line);
             ChainFrom(c, cut.flush, fs) && Follows(c, LastOr(cut.flush, fs), last.name, last.start, last.batch)
    ensures var cut := CutAt(c, mode, e, line);
            ChainFrom(c, prev, [cut.flush] + fs) && Follows(c, LastOr(prev, [cut.flush] + fs), last.name, last.start, last.batch)
  {
    var cut := CutAt(c, mode, e, line);
    var read := c.batchLength - |e.batch|;
    SplitRejoin(e.batch, line, read);
    FollowsPrefix(c, prev, e.name, e.start, e.batch + line[..read], line[read..]);
    ChainCons(c, prev, cut.flush, fs);
  }

  lemma NoStrayMarkerTail(rest: seq<string>)
    requires |rest| > 0 && NoStrayMarker(rest)
    ensures NoStrayMarker(rest[1..])
  {
    forall k | 0 <= k < |rest[1..]| ensures
      var l := Chop(rest[1..][k]); |l| > 0 && l[0] != '>' ==> '>' !in l
    {
      assert rest[1..][k] == rest[k + 1];
    }
  }

  lemma {:induction false} ScanChain(c: Config, mode: Counting, prev: Flush, e: Engine, rest: seq<string>)
    requires c.Valid() && EngineOk(c, e) && NoStrayMarker(rest)
    requires '>' !in e.batch && Follows(c, prev, e.name, e.start, e.batch)
    ensures ChainFrom(c, prev, Scan(c, mode, rest, e))
    decreases |rest|
  {
    if |rest| == 0 || Chop(rest[0]) == "" {
      ChainCons(c, prev, Emit(e, EndOfInput), []);
    } else {
      var line := Chop(rest[0]);
      var fed := Feed(c, mode, e, line);
      assert line[0] != '>' ==> '>' !in line;
      FollowsAppend(c, prev, e.name, e.start, e.batch, line);
      FeedChain(c, mode, prev, e, line);
      NoStrayMarkerTail(rest);
      ScanChain(c, mode, LastOr(prev, fed.0), fed.1, rest[1..]);
      ChainAppend(c, prev, fed.0, Scan(c, mode, rest[1..], fed.1));
    }
  }

  lemma FollowsAppend(c: Config, prev: Flush, name: string, start: nat, b: string, more: string)
    requires Follows(c, prev, name, start, b)
    ensures Follows(c, prev, name, start, b + more)
  {
    if prev.cause == Overflow {
      assert (b + more)[..c.batchOverlap] == b[..c.batchOverlap];
    }
  }

  lemma {:induction false} ChainAt(c: Config, prev: Flush, fs: seq<Flush>, k: nat)
    requires ChainFrom(c, prev, fs) && k + 1 < |fs|
    ensures Follows(c, fs[k], fs[k + 1].name, fs[k + 1].start, fs[k + 1].bases)
    decreases k
  {
    if k > 0 {
      ChainAt(c, fs[0], fs[1..], k - 1);
    }
  }

  /** Adjacent batches overlap: a batch cut by an overflow is followed by a
      batch of the same sequence that starts `batch_overlap` bases before
      it ends and repeats its last `batch_overlap` bases. */
  lemma OverlapChain(c: Config, mode: Counting, lines: seq<string>, k: nat)
    requires c.Valid() && NoStrayMarker(Body(lines))
    requires k + 1 < |Run(c, mode, lines)| && Run(c, mode, lines)[k].cause == Overflow
    ensures var fs := Run(c, mode, lines);
            fs[k + 1].name == fs[k].name && fs[k + 1].start == fs[k].end - c.batchOverlap
            && c.batchOverlap <= |fs[k + 1].bases|
            && fs[k + 1].bases[..c.batchOverlap] == fs[k].bases[c.batchLength - c.batchOverlap..]
  {
    var prev := Flush("", 0, 0, "", 0, 0, Header);
    ScanChain(c, mode, prev, Start(lines), Body(lines));
    ChainAt(c, prev, Run(c, mode, lines), k);
  }

  /* ---------------------------------------------------------------------
     Base counts: with the overflow branch counting only the bases it adds
     to the batch, every batch is binned by the counts of its own bases.
     --------------------------------------------------------------------- */

  /** `gc` and `at` are the counts of `bases`. */
  predicate Tallied(gc: nat, at: nat, bases: string)
  {
    gc == CountGCAT(bases).0 && at == CountGCAT(bases).1
  }

  predicate AllTallied(fs: seq<Flush>)
  {
    forall k :: 0 <= k < |fs| ==> Tallied(fs[k].gc, fs[k].at, fs[k].bases)
  }

  lemma AllTalliedAppend(a: seq<Flush>, b: seq<Flush>)
    requires AllTallied(a) && AllTallied(b)
    ensures AllTallied(a + b)
  {
    forall k | 0 <= k < |a + b| ensures Tallied((a + b)[k].gc, (a + b)[k].at, (a + b)[k].bases) {
      if k >= |a| {
        assert (a + b)[k] == b[k - |a|];
      }
    }
  }

  lemma TalliedAppend(gc: nat, at: nat, bases: string, more: string)
    requires Tallied(gc, at, bases)
    ensures Tallied(gc + CountGCAT(more).0, at + CountGCAT(more).1, bases + more)
  {
    CountGCATAppend(bases, more);
  }

  /** Counting only the bases read, a full batch is tallied exactly, and
      the engine that takes the carry starts from zero counts. */
  lemma CutTallied(c: Config, e: Engine, line: string)
    requires c.Valid() && EngineOk(c, e) && |e.batch| < c.batchLength <= |e.batch| + |line|
    requires Tallied(e.gc, e.at, e.batch)
    ensures var cut := CutAt(c, ReadPrefix, e, line);
            AllTallied([cut.flush]) && Tallied(cut.next.gc, cut.next.at, cut.next.batch)
  {
    var read := c.batchLength - |e.batch|;
    TalliedAppend(e.gc, e.at, e.batch, line[..read]);
  }

  lemma {:induction false} FeedTallied(c: Config, e: Engine, line: string)
    requires c.Valid() && EngineOk(c, e) && |line| > 0
    requires Tallied(e.gc, e.at, e.batch)
    ensures var r := Feed(c, ReadPrefix, e, line);
            AllTallied(r.0) && Tallied(r.1.gc, r.1.at, r.1.batch)
    decreases |e.batch| + |line|
  {
    if line[0] == '>' {
    } else if |e.batch| + |line| >= c.batchLength {
      var cut := CutAt(c, ReadPrefix, e, line);
      CutTallied(c, e, line);
      FeedTallied(c, cut.next, cut.carry);
      FeedOverflow(c, ReadPrefix, e, line);
      var next := Feed(c, ReadPrefix, cut.next, cut.carry);
      AllTalliedAppend([cut.flush], next.0);
    } else {
      TalliedAppend(e.gc, e.at, e.batch, line);
    }
  }

  lemma {:induction false} ScanTallied(c: Config, rest: seq<string>, e: Engine)
    requires c.Valid() && EngineOk(c, e) && Tallied(e.gc, e.at, e.batch)
    ensures AllTallied(Scan(c, ReadPrefix, rest, e))
    decreases |rest|
  {
    if |rest| > 0 && Chop(rest[0]) != "" {
      var fed := Feed(c, ReadPrefix, e, Chop(rest[0]));
      FeedTallied(c, e, Chop(rest[0]));
      ScanTallied(c, rest[1..], fed.1);
      AllTalliedAppend(fed.0, Scan(c, ReadPrefix, rest[1..], fed.1));
    }
  }

  /** Counting only the bases read: every batch handed to `writeBatchToBin`
      carries the G/C and A/T counts of exactly its own bases, so its bin is
      the GC background of the batch. */
  lemma CountsMatchBatches(c: Config, lines: seq<string>)
    requires c.Valid()
    ensures forall f :: f in Run(c, ReadPrefix, lines) ==>
              Tallied(f.gc, f.at, f.bases)
              && WriteFlush(c, f) == WriteBatchToBin(BatchName(f.name, f.start, f.end), f.bases,
                                                     GcBackground(CountGCAT(f.bases).0, CountGCAT(f.bases).1), c.rowLength)
  {
    ScanTallied(c, Body(lines), Start(lines));
    var fs := Run(c, ReadPrefix, lines);
    forall f | f in fs ensures Tallied(f.gc, f.at, f.bases) {
      var k :| 0 <= k < |fs| && fs[k] == f;
    }
  }

  /** The code as written counts the whole line when it overflows: the first
      batch of `ACGTGG` cut at 4 bases holds `ACGT` (2 G/C, 2 A/T, GC
      background 50) but is counted as 4 G/C and 2 A/T and lands in bin 67. */
  lemma WholeLineMiscounts()
    ensures var c := Config(4, 1, -1);
            var lines := [">s\n", "ACGTGG\n"];
            var w := Run(c, WholeLine, lines);
            var p := Run(c, ReadPrefix, lines);
            w == [Flush("s", 0, 4, "ACGT", 4, 2, Overflow), Flush("s", 3, 6, "TGG", 2, 1, EndOfInput)]
            && p == [Flush("s", 0, 4, "ACGT", 2, 2, Overflow), Flush("s", 3, 6, "TGG", 2, 1, EndOfInput)]
            && GcBackground(4, 2) == 67 && GcBackground(2, 2) == 50
            && !Tallied(4, 2, "ACGT")
  {
    ExampleRun(WholeLine);
    ExampleRun(ReadPrefix);
    CountFour();
    ExampleBins();
  }

  lemma ExampleBins()
    ensures GcBackground(4, 2) == 67 && GcBackground(2, 2) == 50
  {
    assert RoundsHalfEven(400, 6, 67);
    RoundsHalfEvenUnique(400, 6, 67, RoundHalfEven(400, 6));
    assert RoundsHalfEven(200, 4, 50);
    RoundsHalfEvenUnique(200, 4, 50, RoundHalfEven(200, 4));
  }

  lemma ExampleRun(mode: Counting)
    ensures var n := if mode == WholeLine then (4, 2) else (2, 2);
            Run(Config(4, 1, -1), mode, [">s\n", "ACGTGG\n"])
              == [Flush("s", 0, 4, "ACGT", n.0, n.1, Overflow), Flush("s", 3, 6, "TGG", 2, 1, EndOfInput)]
  {
    var c := Config(4, 1, -1);
    TwoLines(">s\n", "ACGTGG\n");
    assert PySlice(">s\n", 1, -1) == "s";
    assert Chop("ACGTGG\n") == "ACGTGG";
    ScanOne(c, mode, "ACGTGG\n", Engine("s", "", 0, 0, 0, 0));
    ExampleFeed(mode);
  }

  lemma ExampleFeed(mode: Counting)
    ensures var n := if mode == WholeLine then (4, 2) else (2, 2);
            Feed(Config(4, 1, -1), mode, Engine("s", "", 0, 0, 0, 0), "ACGTGG")
              == ([Flush("s", 0, 4, "ACGT", n.0, n.1, Overflow)], Engine("s", "TGG", 3, 6, 2, 1))
  {
    var c := Config(4, 1, -1);
    var e0 := Engine("s", "", 0, 0, 0, 0);
    ExampleCut(mode);
    ExampleTail(mode);
    FeedOverflow(c, mode, e0, "ACGTGG");
    var cut := CutAt(c, mode, e0, "ACGTGG");
    assert [cut.flush] + [] == [cut.flush];
  }

  lemma ExampleCut(mode: Counting)
    ensures var n := if mode == WholeLine then (4, 2) else (2, 2);
            CutAt(Config(4, 1, -1), mode, Engine("s", "", 0, 0, 0, 0), "ACGTGG")
              == Cut(Flush("s", 0, 4, "ACGT", n.0, n.1, Overflow), Engine("s", "", 3, 3, 0, 0), "TGG")
  {
    var line := "ACGTGG";
    CountSix();
    CountFour();
    assert line[..4] == "ACGT" && line[4..] == "GG";
    assert "" + "ACGT" == "ACGT";
    assert "ACGT"[3..] + "GG" == "TGG";
  }

  lemma ExampleTail(mode: Counting)
    ensures Feed(Config(4, 1, -1), mode, Engine("s", "", 3, 3, 0, 0), "TGG") == ([], Engine("s", "TGG", 3, 6, 2, 1))
  {
    CountThree();
    assert "" + "TGG" == "TGG";
  }

  /** A second consequence of counting the whole line: with a batch length
      of 4 and an overlap of 1, the line `NNNNAC` fills the batch with `NNNN`
      but is counted as one G/C and one A/T base, so the all-N batch is
      written to bin 50; counting only the bases read leaves it unwritten. */
  lemma AllNBatchWritten()
    ensures var c := Config(4, 1, -1);
            var lines := [">s\n", "NNNNAC\n"];
            var w := Run(c, WholeLine, lines)[0];
            var p := Run(c, ReadPrefix, lines)[0];
            w.bases == "NNNN" && p.bases == "NNNN" && !HasBase(w.bases)
            && WriteFlush(c, w).Some? && WriteFlush(c, w).value.bin == 50
            && WriteFlush(c, p).None?
  {
    AllNRun(WholeLine);
    AllNRun(ReadPrefix);
    assert RoundsHalfEven(100, 2, 50);
    RoundsHalfEvenUnique(100, 2, 50, RoundHalfEven(100, 2));
    CountNs();
    HasBaseCounted("NNNN");
  }

  lemma AllNRun(mode: Counting)
    ensures var n := if mode == WholeLine then (1, 1) else (0, 0);
            Run(Config(4, 1, -1), mode, [">s\n", "NNNNAC\n"])
              == [Flush("s", 0, 4, "NNNN", n.0, n.1, Overflow), Flush("s", 3, 6, "NAC", 1, 1, EndOfInput)]
  {
    var c := Config(4, 1, -1);
    TwoLines(">s\n", "NNNNAC\n");
    assert PySlice(">s\n", 1, -1) == "s";
    assert Chop("NNNNAC\n") == "NNNNAC";
    ScanOne(c, mode, "NNNNAC\n", Engine("s", "", 0, 0, 0, 0));
    AllNFeed(mode);
  }

  lemma AllNFeed(mode: Counting)
    ensures var n := if mode == WholeLine then (1, 1) else (0, 0);
            Feed(Config(4, 1, -1), mode, Engine("s", "", 0, 0, 0, 0), "NNNNAC")
              == ([Flush("s", 0, 4, "NNNN", n.0, n.1, Overflow)], Engine("s", "NAC", 3, 6, 1, 1))
  {
    var c := Config(4, 1, -1);
    var e0 := Engine("s", "", 0, 0, 0, 0);
    AllNCut(mode);
    AllNTail(mode);
    FeedOverflow(c, mode, e0, "NNNNAC");
    var cut := CutAt(c, mode, e0, "NNNNAC");
    assert [cut.flush] + [] == [cut.flush];
  }

  lemma AllNCut(mode: Counting)
    ensures var n := if mode == WholeLine then (1, 1) else (0, 0);
            CutAt(Config(4, 1, -1), mode, Engine("s", "", 0, 0, 0, 0), "NNNNAC")
              == Cut(Flush("s", 0, 4, "NNNN", n.0, n.1, Overflow), Engine("s", "", 3, 3, 0, 0), "NAC")
  {
    var line := "NNNNAC";
    CountNs();
    assert line[..4] == "NNNN" && line[4..] == "AC";
    assert "" + "NNNN" == "NNNN";
    assert "NNNN"[3..] + "AC" == "NAC";
  }

  lemma AllNTail(mode: Counting)
    ensures Feed(Config(4, 1, -1), mode, Engine("s", "", 3, 3, 0, 0), "NAC") == ([], Engine("s", "NAC", 3, 6, 1, 1))
  {
    CountNs();
    assert "" + "NAC" == "NAC";
  }

  /** When a sequence ends exactly where a full batch ends, the loop still
      flushes a last batch holding only the carried overlap: `ACGT` cut at 4
      bases with an overlap of 1 gives `ACGT` and then `T`. */
  lemma OverlapOnlyBatch(mode: Counting)
    ensures Run(Config(4, 1, -1), mode, [">s\n", "ACGT\n"])
              == [Flush("s", 0, 4, "ACGT", 2, 2, Overflow), Flush("s", 3, 4, "T", 0, 1, EndOfInput)]
  {
    var c := Config(4, 1, -1);
    TwoLines(">s\n", "ACGT\n");
    assert PySlice(">s\n", 1, -1) == "s";
    assert Chop("ACGT\n") == "ACGT";
    ScanOne(c, mode, "ACGT\n", Engine("s", "", 0, 0, 0, 0));
    OverlapOnlyFeed(mode);
  }

  /** A header and one line of bases. */
  lemma TwoLines(h: string, l: string)
    requires h != "" && l != ""
    ensures Start([h, l]) == Engine(PySlice(h, 1, -1), "", 0, 0, 0, 0) && Body([h, l]) == [l]
  {
    assert UntilEof([h, l]) == [h, l];
  }

  lemma ScanOne(c: Config, mode: Counting, l: string, e: Engine)
    requires c.Valid() && EngineOk(c, e) && Chop(l) != ""
    ensures var fed := Feed(c, mode, e, Chop(l));
            Scan(c, mode, [l], e) == fed.0 + [Emit(fed.1, EndOfInput)]
  {
    assert [l][1..] == [];
  }

  lemma OverlapOnlyFeed(mode: Counting)
    ensures Feed(Config(4, 1, -1), mode, Engine("s", "", 0, 0, 0, 0), "ACGT")
              == ([Flush("s", 0, 4, "ACGT", 2, 2, Overflow)], Engine("s", "T", 3, 4, 0, 1))
  {
    var c := Config(4, 1, -1);
    var e0 := Engine("s", "", 0, 0, 0, 0);
    OverlapOnlyCut(mode);
    OverlapOnlyTail(mode);
    FeedOverflow(c, mode, e0, "ACGT");
    var cut := CutAt(c, mode, e0, "ACGT");
    assert [cut.flush] + [] == [cut.flush];
  }

  lemma OverlapOnlyCut(mode: Counting)
    ensures CutAt(Config(4, 1, -1), mode, Engine("s", "", 0, 0, 0, 0), "ACGT")
              == Cut(Flush("s", 0, 4, "ACGT", 2, 2, Overflow), Engine("s", "", 3, 3, 0, 0), "T")
  {
    var line := "ACGT";
    CountFour();
    assert line[..4] == "ACGT" && line[4..] == "";
    assert "" + "ACGT" == "ACGT";
    assert "ACGT"[3..] + "" == "T";
  }

  lemma OverlapOnlyTail(mode: Counting)
    ensures Feed(Config(4, 1, -1), mode, Engine("s", "", 3, 3, 0, 0), "T") == ([], Engine("s", "T", 3, 4, 0, 1))
  {
    CountOne();
    assert "" + "T" == "T";
  }

  /* ---------------------------------------------------------------------
     End of input: a blank line ends the loop like the end of the file.
     --------------------------------------------------------------------- */

  lemma {:induction false} UntilEofAppend(a: seq<string>, b: seq<string>)
    requires forall k :: 0 <= k < |a| ==> a[k] != ""
    ensures UntilEof(a + b) == a + UntilEof(b)
    decreases |a|
  {
    if |a| == 0 {
      assert a + b == b;
    } else {
      assert (a + b)[0] == a[0] && (a + b)[1..] == a[1..] + b;
      UntilEofAppend(a[1..], b);
    }
  }

  lemma {:induction false} ScanBlank(c: Config, mode: Counting, rest: seq<string>, blank: string, more: seq<string>, e: Engine)
    requires c.Valid() && EngineOk(c, e) && Chop(blank) == ""
    ensures Scan(c, mode, rest + [blank] + more, e) == Scan(c, mode, rest, e)
    decreases |rest|
  {
    var all := rest + [blank] + more;
    if |rest| == 0 {
      assert all[0] == blank;
    } else {
      assert all[0] == rest[0] && all[1..] == rest[1..] + [blank] + more;
      if Chop(rest[0]) != "" {
        var fed := Feed(c, mode, e, Chop(rest[0]));
        ScanBlank(c, mode, rest[1..], blank, more, fed.1);
      }
    }
  }

  /** A blank line is taken for the end of the file: nothing after it is
      read, and the run is the run of the lines before it. */
  lemma BlankLineEndsInput(c: Config, mode: Counting, lines: seq<string>, more: seq<string>)
    requires c.Valid() && |lines| > 0 && forall k :: 0 <= k < |lines| ==> lines[k] != ""
    ensures Run(c, mode, lines + ["\n"] + more) == Run(c, mode, lines)
  {
    var all := lines + ["\n"] + more;
    assert all == lines + (["\n"] + more);
    UntilEofAppend(lines, ["\n"] + more);
    UntilEofAppend(lines, []);
    assert lines + [] == lines;
    var u := UntilEof(["\n"] + more);
    assert UntilEof(all)[1..] == lines[1..] + u;
    assert u == ["\n"] + UntilEof(more) by {
      assert (["\n"] + more)[1..] == more;
    }
    assert lines[1..] + u == lines[1..] + ["\n"] + UntilEof(more);
    assert Chop("\n") == "";
    ScanBlank(c, mode, lines[1..], "\n", UntilEof(more), Start(lines));
  }

  /** A batch reaches a bin file exactly when it holds some A, C, G or T
      (counting only the bases read): empty batches and batches of `N`s are
      dropped. */
  lemma WrittenIffBases(c: Config, lines: seq<string>, k: nat)
    requires c.Valid() && k < |Run(c, ReadPrefix, lines)|
    ensures var f := Run(c, ReadPrefix, lines)[k];
            WriteFlush(c, f).Some? <==> HasBase(f.bases)
  {
    var f := Run(c, ReadPrefix, lines)[k];
    ScanTallied(c, Body(lines), Start(lines));
    WrittenIffCounted(c, f);
    HasBaseCounted(f.bases);
  }

  /** Some A, C, G or T, in either case. */
  predicate HasBase(s: string)
  {
    exists j :: 0 <= j < |s| && (IsGC(s[j]) || IsAT(s[j]))
  }

  lemma HasBaseCounted(s: string)
    ensures HasBase(s) <==> CountGCAT(s) != (0, 0)
  {
    CountGCATZero(s);
  }

  lemma WrittenIffCounted(c: Config, f: Flush)
    requires Tallied(f.gc, f.at, f.bases)
    ensures WriteFlush(c, f).Some? <==> CountGCAT(f.bases) != (0, 0)
  {
  }

  lemma CountOne()
    ensures CountGCAT("A") == (0, 1) && CountGCAT("C") == (1, 0)
    ensures CountGCAT("G") == (1, 0) && CountGCAT("T") == (0, 1)
  {
    assert "A"[..0] == "C"[..0] == "G"[..0] == "T"[..0] == "";
  }

  lemma CountFour()
    ensures CountGCAT("ACGT") == (2, 2)
  {
    CountOne();
    CountGCATAppend("AC", "GT");
    assert "AC" + "GT" == "ACGT";
    CountGCATAppend("A", "C");
    assert "A" + "C" == "AC";
    CountGCATAppend("G", "T");
    assert "G" + "T" == "GT";
  }

  lemma CountThree()
    ensures CountGCAT("TGG") == (2, 1) && CountGCAT("GG") == (2, 0)
  {
    CountOne();
    CountGCATAppend("G", "G");
    assert "G" + "G" == "GG";
    CountGCATAppend("T", "GG");
    assert "T" + "GG" == "TGG";
  }

  lemma CountSix()
    ensures CountGCAT("ACGTGG") == (4, 2)
  {
    CountFour();
    CountThree();
    CountGCATAppend("ACGT", "GG");
    assert "ACGT" + "GG" == "ACGTGG";
  }

  lemma CountNs()
    ensures CountGCAT("NNNN") == (0, 0) && CountGCAT("NAC") == (1, 1) && CountGCAT("NNNNAC") == (1, 1)
  {
    CountOne();
    assert "N"[..0] == "";
    assert CountGCAT("N") == (0, 0);
    CountGCATAppend("NN", "NN");
    CountGCATAppend("N", "N");
    assert "N" + "N" == "NN" && "NN" + "NN" == "NNNN";
    CountGCATAppend("A", "C");
    assert "A" + "C" == "AC";
    CountGCATAppend("N", "AC");
    assert "N" + "AC" == "NAC";
    CountGCATAppend("NNNN", "AC");
    assert "NNNN" + "AC" == "NNNNAC";
  }
}
