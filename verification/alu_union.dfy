/** analysis/alu_union.py: the alignment hits of a search output file whose
    score is above a threshold, written as BED lines `chrom \t start \t end`.
    The target field of a hit is `<chrom>:<offset>-<end>` and the hit's own
    coordinates are relative to `offset`. */
module AluUnion {
  import opened Common
  import opened Text
  import opened Pattern

  /** `^\s*(\d+)(\s+\d+\.\d+){3}\s+(\d+):(\d+)\-\d+\s+(\d+)\s+(\d+)`, the
      repeated group written out three times. Groups 1, 3, 4, 5 and 6 are
      the spans of tokens 1, 15, 17, 21 and 23. */
  const HIT_PAT: seq<Tok> :=
    [Spaces(false), Digits,
     Spaces(true), Digits, Lit('.'), Digits,
     Spaces(true), Digits, Lit('.'), Digits,
     Spaces(true), Digits, Lit('.'), Digits,
     Spaces(true), Digits, Lit(':'), Digits, Lit('-'), Digits,
     Spaces(true), Digits, Spaces(true), Digits]

  /** The threshold `main` uses. */
  const THRESHOLD: real := 120.05

  /** The groups of one match: the score, the target's name and offset, and
      the hit's start and end within the target. */
  datatype Hit = Hit(score: nat, chrom: string, offset: nat, s: nat, e: nat)

  function HitOf(line: string, sps: seq<Span>): Hit
    requires |sps| == |HIT_PAT|
  {
    Hit(DigitsValue(SpanText(line, sps[1])), SpanText(line, sps[15]), DigitsValue(SpanText(line, sps[17])),
        DigitsValue(SpanText(line, sps[21])), DigitsValue(SpanText(line, sps[23])))
  }

  /** `scoreRegex.search(line)`: the pattern is anchored, so it is tried at
      the start of the line only. */
  function LineHit(line: string): (r: Option<Hit>)
  {
    var m := MatchAt(line, 0, HIT_PAT, PySpace);
    if m.None? then None
    else
      MatchLength(line, 0, HIT_PAT, PySpace);
      Some(HitOf(line, m.value))
  }

  /** LineHit reads the groups of a line exactly when the pattern matches
      it. */
  lemma LineHitMatches(line: string)
    ensures LineHit(line).Some? <==> exists sps :: Parses(line, 0, HIT_PAT, PySpace, sps)
  {
    MatchAtIff(line, HIT_PAT, PySpace);
  }

  /** Completeness: the groups LineHit reads are those of any parse of the
      line (there is only one). */
  lemma LineHitComplete(line: string, sps: seq<Span>)
    requires Parses(line, 0, HIT_PAT, PySpace, sps)
    ensures |sps| == |HIT_PAT| && LineHit(line) == Some(HitOf(line, sps))
  {
    MatchAtComplete(line, 0, HIT_PAT, PySpace, sps);
  }

  /** The target name of a hit is a run of digits: a name such as `chr1`,
      or the `name: start-end` headers the genome splitter writes, never
      matches. */
  lemma HitChromDigits(line: string)
    ensures LineHit(line).Some? ==> |LineHit(line).value.chrom| > 0 && AllDigits(LineHit(line).value.chrom)
  {
    DigitsGroup(line, HIT_PAT, PySpace, 15);
  }

  /** The BED line of a hit: the target name, then offset + start and
      offset + end. */
  function BedLine(h: Hit): string
  {
    h.chrom + "\t" + NatToString(h.offset + h.s) + "\t" + NatToString(h.offset + h.e) + "\n"
  }

  /** A BED line read back: its three tab-separated fields are the target
      name and the two coordinates. */
  lemma BedLineFields(h: Hit)
    requires AllDigits(h.chrom)
    ensures var fs := SplitOn(Chop(BedLine(h)), '\t');
            |fs| == 3 && fs[0] == h.chrom
            && DigitsValue(fs[1]) == h.offset + h.s && DigitsValue(fs[2]) == h.offset + h.e
  {
    var a := NatToString(h.offset + h.s);
    var b := NatToString(h.offset + h.e);
    DigitsNoTab(h.chrom);
    DigitsNoTab(a);
    DigitsNoTab(b);
    assert Chop(BedLine(h)) == h.chrom + ['\t'] + (a + ['\t'] + b);
    assert JoinWith([a, b], '\t') == a + ['\t'] + b;
    assert [h.chrom, a, b][1..] == [a, b];
    assert JoinWith([h.chrom, a, b], '\t') == Chop(BedLine(h));
    SplitOnJoin([h.chrom, a, b], '\t');
    NatToStringRoundTrip(h.offset + h.s);
    NatToStringRoundTrip(h.offset + h.e);
  }

  lemma DigitsNoTab(t: string)
    requires AllDigits(t)
    ensures '\t' !in t
  {
    forall k | 0 <= k < |t| ensures t[k] != '\t' {
      assert IsDigit(t[k]);
    }
  }

  /** What one line contributes: its BED line when it matches and
      `int(score) > threshold`, nothing otherwise. */
  function LineBed(line: string, threshold: real): (r: seq<string>)
    ensures |r| <= 1
  {
    match LineHit(line)
    case Some(h) => if h.score as real > threshold then [BedLine(h)] else []
    case None => []
  }

  /** The comparison is strict and against the real threshold: with 120.05
      a score of 120 is dropped and 121 kept. */
  lemma StrictThreshold(line: string)
    requires LineHit(line).Some?
    ensures |LineBed(line, THRESHOLD)| == 1 <==> LineHit(line).value.score >= 121
  {
  }

  /** The lines written for the lines `ls`, in order. */
  function Bed(ls: seq<string>, threshold: real): seq<string>
  {
    if |ls| == 0 then [] else Bed(ls[..|ls| - 1], threshold) + LineBed(ls[|ls| - 1], threshold)
  }

  /** `convertToBed(fname, bed, threshold)` on the lines of the file. */
  function ConvertToBed(lines: seq<string>, threshold: real): seq<string>
  {
    Bed(UntilEof(lines), threshold)
  }

  /** Lines are converted independently and in order. */
  lemma {:induction false} BedAppend(a: seq<string>, b: seq<string>, threshold: real)
    ensures Bed(a + b, threshold) == Bed(a, threshold) + Bed(b, threshold)
    decreases |b|
  {
    if |b| > 0 {
      var b' := b[..|b| - 1];
      assert (a + b)[..|a + b| - 1] == a + b';
      assert (a + b)[|a + b| - 1] == b[|b| - 1];
      BedAppend(a, b', threshold);
    } else {
      assert a + b == a;
    }
  }

  /** Every line written comes from a line of the input that matches and
      passes the threshold, and every such line is written. */
  lemma {:induction false} BedMembers(ls: seq<string>, threshold: real, out: string)
    ensures out in Bed(ls, threshold) <==> exists k :: 0 <= k < |ls| && out in LineBed(ls[k], threshold)
    decreases |ls|
  {
    if |ls| > 0 {
      var init := ls[..|ls| - 1];
      BedMembers(init, threshold, out);
      SomeLine(ls, init, line => out in LineBed(line, threshold));
    }
  }

  /** An element of `ls` is an element of its prefix or its last one. */
  lemma SomeLine(ls: seq<string>, init: seq<string>, p: string -> bool)
    requires |ls| > 0 && init == ls[..|ls| - 1]
    ensures (exists k :: 0 <= k < |ls| && p(ls[k]))
        <==> (exists k :: 0 <= k < |init| && p(init[k])) || p(ls[|ls| - 1])
  {
    assert forall k :: 0 <= k < |init| ==> init[k] == ls[k];
  }

  /** The files `main` reads, one after the other, into one BED file. */
  const HITS_A: string := "../../results/genomic_hits/DF0000002/DF0000002_14p35g.sc"
  const HITS_B: string := "../../results/genomic_hits/DF0000003/DF0000003_14p35g.sc"

  /** The lines written to an output file, and the exception that stopped
      the writing, if one did. */
  datatype Written = Written(lines: seq<string>, err: Option<Error>)

  /** Line `line` of a file gives the BED line `out`: it matches, its score
      is above the threshold, and `out` is the BED line of its groups. */
  predicate Emits(line: string, threshold: real, out: string)
  {
    LineHit(line).Some? && LineHit(line).value.score as real > threshold && BedLine(LineHit(line).value) == out
  }

  lemma EmitsLineBed(line: string, threshold: real, out: string)
    ensures out in LineBed(line, threshold) <==> Emits(line, threshold, out)
  {
  }

  /** The lines written for `ls` are exactly the BED lines some line of
      `ls` gives. */
  lemma BedEmits(ls: seq<string>, threshold: real)
    ensures forall out :: out in Bed(ls, threshold) <==> exists k :: 0 <= k < |ls| && Emits(ls[k], threshold, out)
  {
    forall out ensures out in Bed(ls, threshold) <==> exists k :: 0 <= k < |ls| && Emits(ls[k], threshold, out) {
      BedMembers(ls, threshold, out);
      forall k | 0 <= k < |ls| ensures out in LineBed(ls[k], threshold) <==> Emits(ls[k], threshold, out) {
        EmitsLineBed(ls[k], threshold, out);
      }
    }
  }

  /** `convertToBed` on the file at `path`: opening a missing file fails
      before anything is written; otherwise a line is written exactly when
      some line of the file, up to its end, matches, scores above the
      threshold and converts to it. */
  function ConvertFile(files: map<string, seq<string>>, path: string, threshold: real): (r: Written)
    ensures r.err.Some? <==> path !in files
    ensures r.err.Some? ==> r.err.value == FileNotFound && r.lines == []
    ensures r.err.None? ==> r.lines == ConvertToBed(files[path], threshold)
    ensures r.err.None? ==>
              var ls := UntilEof(files[path]);
              forall out :: out in r.lines <==> exists k :: 0 <= k < |ls| && Emits(ls[k], threshold, out)
  {
    if path in files then
      BedEmits(UntilEof(files[path]), threshold);
      Written(ConvertToBed(files[path], threshold), None)
    else Written([], Some(FileNotFound))
  }

  /** Writing `b` after `a` into the same file: nothing after an exception. */
  function Then(a: Written, b: Written): (r: Written)
    ensures a.err.Some? ==> r == a
    ensures a.err.None? ==> r.lines == a.lines + b.lines && r.err == b.err
  {
    if a.err.Some? then a else Written(a.lines + b.lines, b.err)
  }

  /** Writing a run of conversions one after the other into one file. */
  function Sequence(ws: seq<Written>): Written
  {
    if |ws| == 0 then Written([], None) else Then(Sequence(ws[..|ws| - 1]), ws[|ws| - 1])
  }

  /** The lines of each conversion. */
  function LinesOf(ws: seq<Written>): (r: seq<seq<string>>)
    ensures |r| == |ws| && forall k :: 0 <= k < |ws| ==> r[k] == ws[k].lines
  {
    seq(|ws|, k requires 0 <= k < |ws| => ws[k].lines)
  }

  /** A run completes exactly when every conversion does, and then holds
      all their lines in order; otherwise it stops with the first
      conversion's exception. */
  lemma {:induction false} SequenceSpec(ws: seq<Written>)
    ensures Sequence(ws).err.None? <==> forall k :: 0 <= k < |ws| ==> ws[k].err.None?
    ensures Sequence(ws).err.None? ==> Sequence(ws).lines == Flatten(LinesOf(ws))
    ensures Sequence(ws).err.Some? ==>
              exists k :: 0 <= k < |ws| && Sequence(ws).err == ws[k].err
                          && forall j :: 0 <= j < k ==> ws[j].err.None?
    decreases |ws|
  {
    if |ws| > 0 {
      var init := ws[..|ws| - 1];
      SequenceSpec(init);
      assert forall k :: 0 <= k < |init| ==> init[k] == ws[k];
      assert LinesOf(ws)[..|ws| - 1] == LinesOf(init);
      if Sequence(init).err.Some? {
        var k :| 0 <= k < |init| && Sequence(init).err == init[k].err
                  && forall j :: 0 <= j < k ==> init[j].err.None?;
        assert Sequence(ws).err == ws[k].err;
      }
    }
  }

  lemma SequenceTwo(a: Written, b: Written)
    ensures Sequence([a, b]) == Then(Then(Written([], None), a), b)
  {
    assert [a, b][..1] == [a] && [a][..0] == [];
    assert Sequence([a]) == Then(Sequence([]), a);
    assert Sequence([a, b]) == Then(Sequence([a]), b);
  }

  /** `main`: both files at threshold 120.05, into `14p35g.bed`. */
  function UnionMain(files: map<string, seq<string>>): (r: Written)
    ensures r.err.None? <==> HITS_A in files && HITS_B in files
    ensures r.err.None? ==> r.lines == ConvertToBed(files[HITS_A], THRESHOLD) + ConvertToBed(files[HITS_B], THRESHOLD)
    ensures HITS_A in files && HITS_B !in files ==> r.lines == ConvertToBed(files[HITS_A], THRESHOLD)
  {
    var a := ConvertFile(files, HITS_A, THRESHOLD);
    var b := ConvertFile(files, HITS_B, THRESHOLD);
    SequenceTwo(a, b);
    Sequence([a, b])
  }
}
