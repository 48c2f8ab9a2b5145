/** analysis/old_alu_union.py: the earlier union script. It reads a list of
    Alu consensus names with their divergences, and for each one converts
    the search output against the matrix of its rounded divergence into BED
    lines, once for the genomic and once for the benchmark results. Its
    `convertToBed` is the one of alu_union.py (it only adds a progress
    message), so AluUnion.ConvertToBed serves both. */
module OldAluUnion {
  import opened Common
  import opened Text
  import opened SequenceUtil
  import ScoreThresholds
  import opened AluUnion

  /** One line of the list, `name key=div ...`: the first word, and the
      text of the rounded divergence. Fewer than two words, or no `=` in
      the second, is an IndexError; a divergence that is not a number is a
      ValueError. */
  function AluEntry(line: string): Result<(string, string)>
  {
    var ws := Words(line);
    if |ws| < 2 then Err(IndexError)
    else
      var parts := SplitOn(ws[1], '=');
      if |parts| < 2 then Err(IndexError)
      else
        match ParseDecimal(parts[1])
        case None => Err(ValueError)
        case Some(v) => Ok((ws[0], IntToString(NearestDivergence(v))))
  }

  /** The list line is read exactly as the header of a consensus file
      (after its `>`) is read by consensusSize. */
  lemma AluEntryIsHeader(line: string)
    ensures AluEntry(line).Ok? <==> ConsensusHeader(">" + line).Ok?
    ensures AluEntry(line).Err? ==> AluEntry(line).error == ConsensusHeader(">" + line).error
    ensures AluEntry(line).Ok? ==>
              AluEntry(line).value == (ConsensusHeader(">" + line).value.0, IntToString(ConsensusHeader(">" + line).value.1))
  {
    assert PyFrom(">" + line, 1) == line;
  }

  /** The divergence text is always two characters: one of the matrix
      divergences, or `-1`. */
  lemma AluEntryDivergence(line: string)
    ensures AluEntry(line).Ok? ==> AluEntry(line).value.1 in {"-1", "14", "18", "20", "25", "30"}
  {
    if AluEntry(line).Ok? {
      var ws := Words(line);
      var v := ParseDecimal(SplitOn(ws[1], '=')[1]).value;
      DivisionText(NearestDivergence(v));
    }
  }

  lemma DivisionText(d: int)
    requires d == -1 || d in DIV_VALUES
    ensures IntToString(d) in {"-1", "14", "18", "20", "25", "30"}
  {
    assert DigitChar(0) == '0' && DigitChar(1) == '1' && DigitChar(2) == '2' && DigitChar(3) == '3';
    assert DigitChar(4) == '4' && DigitChar(5) == '5' && DigitChar(8) == '8';
    if d == -1 {
      assert NatToString(1) == ['1'];
      assert IntToString(d) == ['-', '1'];
    } else if d == 14 {
      TwoDigits(1, 4);
    } else if d == 18 {
      TwoDigits(1, 8);
    } else if d == 20 {
      TwoDigits(2, 0);
    } else if d == 25 {
      TwoDigits(2, 5);
    } else {
      assert d == 30;
      TwoDigits(3, 0);
    }
  }

  /** `str(d)` of a two-digit number. */
  lemma TwoDigits(hi: nat, lo: nat)
    requires 1 <= hi < 10 && lo < 10
    ensures IntToString(10 * hi + lo) == [DigitChar(hi), DigitChar(lo)]
  {
    var d := 10 * hi + lo;
    assert d / 10 == hi && d % 10 == lo;
    assert NatToString(hi) == [DigitChar(hi)];
    assert NatToString(d) == NatToString(hi) + [DigitChar(lo)];
  }

  /** The entry of every line. */
  function Entries(ls: seq<string>): (r: seq<Result<(string, string)>>)
    ensures |r| == |ls| && forall k :: 0 <= k < |ls| ==> r[k] == AluEntry(ls[k])
  {
    seq(|ls|, k requires 0 <= k < |ls| => AluEntry(ls[k]))
  }

  /** `getAlus()` on the lines of `alu_list.txt`: the entries in order, or
      the exception of the first bad line. */
  function GetAlus(lines: seq<string>): Result<seq<(string, string)>>
  {
    CollectAll(Entries(UntilEof(lines)))
  }

  /** The list is read line by line: it succeeds exactly when every line
      does, with one entry per line in order, and otherwise fails with the
      error of the first bad line. */
  lemma GetAlusSpec(lines: seq<string>)
    ensures var ls := UntilEof(lines);
            (GetAlus(lines).Ok? <==> forall k :: 0 <= k < |ls| ==> AluEntry(ls[k]).Ok?)
            && (GetAlus(lines).Ok? ==>
                  |GetAlus(lines).value| == |ls| && forall k :: 0 <= k < |ls| ==> GetAlus(lines).value[k] == AluEntry(ls[k]).value)
            && (GetAlus(lines).Err? ==>
                  exists k :: 0 <= k < |ls| && AluEntry(ls[k]).Err? && GetAlus(lines).error == AluEntry(ls[k]).error
                              && forall j :: 0 <= j < k ==> AluEntry(ls[j]).Ok?)
  {
    CollectAllSpec(Entries(UntilEof(lines)));
  }

  /** The search output of consensus `c` against the matrix of divergence
      `div`, under `dirpath`. */
  function AluPath(dirpath: string, c: string, div: string): string
  {
    dirpath + c + "/" + c + "_" + div + "p43g.sc"
  }

  /** The path names its consensus and its matrix the way the threshold
      script reads them back. */
  lemma AluPathNames(dirpath: string, c: string, div: string)
    requires '/' !in c && '_' !in c && '/' !in div && |div| == 2
    ensures ScoreThresholds.ConsensusName(AluPath(dirpath, c, div)) == c
    ensures ScoreThresholds.MatrixName(AluPath(dirpath, c, div)) == div + "p43g"
  {
    assert AluPath(dirpath, c, div) == (dirpath + c) + "/" + c + "_" + (div + "p43g") + ".sc";
    ScoreThresholds.AlignmentFileNames(dirpath + c, c, div + "p43g");
  }

  /** The conversion of each alu's file, in list order. */
  function AluOutputs(files: map<string, seq<string>>, threshold: real, alus: seq<(string, string)>, dirpath: string): (r: seq<Written>)
    ensures |r| == |alus|
    ensures forall k :: 0 <= k < |alus| ==> r[k] == ConvertFile(files, AluPath(dirpath, alus[k].0, alus[k].1), threshold)
  {
    seq(|alus|, k requires 0 <= k < |alus| => ConvertFile(files, AluPath(dirpath, alus[k].0, alus[k].1), threshold))
  }

  /** `alusToBed(threshold, alus, bpath, dirpath)`: the conversions of the
      alus' files, one after the other, into one output file. */
  function AlusToBed(files: map<string, seq<string>>, threshold: real, alus: seq<(string, string)>, dirpath: string): Written
  {
    Sequence(AluOutputs(files, threshold, alus, dirpath))
  }

  /** Every alu's file exists. */
  predicate AllPresent(files: map<string, seq<string>>, alus: seq<(string, string)>, dirpath: string)
  {
    forall k :: 0 <= k < |alus| ==> AluPath(dirpath, alus[k].0, alus[k].1) in files
  }

  /** The output is complete exactly when every file exists, and then it is
      the BED lines of each alu's file, alu after alu; otherwise it stops at
      the first missing file. */
  lemma AlusToBedSpec(files: map<string, seq<string>>, threshold: real, alus: seq<(string, string)>, dirpath: string)
    ensures AlusToBed(files, threshold, alus, dirpath).err.None? <==> AllPresent(files, alus, dirpath)
    ensures AlusToBed(files, threshold, alus, dirpath).err.Some? ==>
              AlusToBed(files, threshold, alus, dirpath).err.value == FileNotFound
    ensures var outs := AluOutputs(files, threshold, alus, dirpath);
            AllPresent(files, alus, dirpath) ==>
              AlusToBed(files, threshold, alus, dirpath).lines == Flatten(LinesOf(outs))
              && forall k :: 0 <= k < |alus| ==>
                   LinesOf(outs)[k] == ConvertToBed(files[AluPath(dirpath, alus[k].0, alus[k].1)], threshold)
  {
    var outs := AluOutputs(files, threshold, alus, dirpath);
    SequenceSpec(outs);
  }

  const GENOMIC_BED: string := "genomic_alus.bed"
  const BENCHMARK_BED: string := "benchmark_alus.bed"
  const GENOMIC_DIR: string := "../../results/genomic_hits/"
  const BENCHMARK_DIR: string := "../../results/benchmark_hits/"

  /** `makeBeds(threshold, alus)`: the output files in the order they are
      written, with their contents. The benchmark file is written only when
      the genomic one completed, and both use the same threshold. */
  function MakeBeds(files: map<string, seq<string>>, threshold: real, alus: seq<(string, string)>): (r: seq<(string, Written)>)
    ensures |r| >= 1 && r[0] == (GENOMIC_BED, AlusToBed(files, threshold, alus, GENOMIC_DIR))
    ensures |r| == 2 <==> AllPresent(files, alus, GENOMIC_DIR)
    ensures |r| == 2 ==> r[1] == (BENCHMARK_BED, AlusToBed(files, threshold, alus, BENCHMARK_DIR))
  {
    var g := AlusToBed(files, threshold, alus, GENOMIC_DIR);
    AlusToBedSpec(files, threshold, alus, GENOMIC_DIR);
    if g.err.Some? then [(GENOMIC_BED, g)]
    else [(GENOMIC_BED, g), (BENCHMARK_BED, AlusToBed(files, threshold, alus, BENCHMARK_DIR))]
  }

  /** `main`: the list is read first, and the BED files are made at
      threshold 120.05 only when it was read without error. */
  function OldUnionMain(files: map<string, seq<string>>, aluList: seq<string>): (r: Result<seq<(string, Written)>>)
    ensures r.Err? <==> GetAlus(aluList).Err?
    ensures r.Ok? ==> r.value == MakeBeds(files, THRESHOLD, GetAlus(aluList).value)
  {
    var alus :- GetAlus(aluList);
    Ok(MakeBeds(files, THRESHOLD, alus))
  }

  /** The BED lines of each alu's search output under `dirpath`, in list
      order. */
  function AluBeds(files: map<string, seq<string>>, threshold: real, alus: seq<(string, string)>, dirpath: string): (r: seq<seq<string>>)
    requires AllPresent(files, alus, dirpath)
    ensures |r| == |alus|
    ensures forall k :: 0 <= k < |alus| ==> r[k] == ConvertToBed(files[AluPath(dirpath, alus[k].0, alus[k].1)], threshold)
  {
    seq(|alus|, k requires 0 <= k < |alus| => ConvertToBed(files[AluPath(dirpath, alus[k].0, alus[k].1)], threshold))
  }

  /** The output file written for `dirpath`: complete exactly when every
      alu's search output there exists, and then the BED lines of those
      outputs, alu after alu; otherwise stopped by FileNotFound. */
  predicate BedFileOf(w: Written, files: map<string, seq<string>>, threshold: real, alus: seq<(string, string)>, dirpath: string)
  {
    (w.err.None? <==> AllPresent(files, alus, dirpath))
    && (w.err.Some? ==> w.err.value == FileNotFound)
    && (AllPresent(files, alus, dirpath) ==> w.lines == Flatten(AluBeds(files, threshold, alus, dirpath)))
  }

  lemma AlusToBedFile(files: map<string, seq<string>>, threshold: real, alus: seq<(string, string)>, dirpath: string)
    ensures BedFileOf(AlusToBed(files, threshold, alus, dirpath), files, threshold, alus, dirpath)
  {
    AlusToBedSpec(files, threshold, alus, dirpath);
    if AllPresent(files, alus, dirpath) {
      var outs := AluOutputs(files, threshold, alus, dirpath);
      assert LinesOf(outs) == AluBeds(files, threshold, alus, dirpath);
    }
  }

  /** `main` end to end: it fails exactly when a line of `alu_list.txt`
      does not parse, with the first bad line's exception. Otherwise the
      alus are the entries of the list's lines in order, the genomic BED
      file is written first and the benchmark one only when every genomic
      search output exists, and each holds, at threshold 120.05, the BED
      lines of its alus' search outputs in list order, or stops at the first
      missing one. */
  lemma OldUnionMainSpec(files: map<string, seq<string>>, aluList: seq<string>)
    ensures var ls := UntilEof(aluList);
            var r := OldUnionMain(files, aluList);
            (r.Ok? <==> forall k :: 0 <= k < |ls| ==> AluEntry(ls[k]).Ok?)
            && (r.Err? ==>
                  exists k :: 0 <= k < |ls| && AluEntry(ls[k]).Err? && r.error == AluEntry(ls[k]).error
                              && forall j :: 0 <= j < k ==> AluEntry(ls[j]).Ok?)
    ensures var ls := UntilEof(aluList);
            var r := OldUnionMain(files, aluList);
            r.Ok? ==>
              var alus := GetAlus(aluList).value;
              |alus| == |ls| && (forall k :: 0 <= k < |ls| ==> alus[k] == AluEntry(ls[k]).value)
              && 1 <= |r.value| <= 2
              && r.value[0].0 == GENOMIC_BED && BedFileOf(r.value[0].1, files, THRESHOLD, alus, GENOMIC_DIR)
              && (|r.value| == 2 <==> AllPresent(files, alus, GENOMIC_DIR))
              && (|r.value| == 2 ==>
                    r.value[1].0 == BENCHMARK_BED && BedFileOf(r.value[1].1, files, THRESHOLD, alus, BENCHMARK_DIR))
  {
    GetAlusSpec(aluList);
    var r := OldUnionMain(files, aluList);
    if r.Ok? {
      var alus := GetAlus(aluList).value;
      AlusToBedFile(files, THRESHOLD, alus, GENOMIC_DIR);
      AlusToBedFile(files, THRESHOLD, alus, BENCHMARK_DIR);
    }
  }
}
