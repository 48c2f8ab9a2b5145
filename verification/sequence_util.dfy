/** sequence_util.py: rounding a divergence to the nearest matrix
    divergence, and the sizes of consensus and genome FASTA files counted
    line by line. The database updates the docstrings mention are not in the
    code. */
module SequenceUtil {
  import opened Common
  import opened Text
  import opened Nearest

  /** The divergences the scoring matrices are built for. */
  const DIV_VALUES: seq<int> := [14, 18, 20, 25, 30]

  /** The nearest matrix divergence, written out: -1 beyond distance 100 of
      every value, and otherwise the value whose half-way points bound
      `div`, a tie going to the smaller value (the earlier one in the list). */
  function DivBucket(div: real): int
  {
    if div <= -86.0 || div >= 130.0 then -1
    else if div <= 16.0 then 14
    else if div <= 19.0 then 18
    else if div <= 22.5 then 20
    else if div <= 27.5 then 25
    else 30
  }

  /** The scan over DIV_VALUES picks the bucket's value. */
  lemma DivScanBuckets(div: real)
    ensures NearestValue(DIV_VALUES, div) == DivBucket(div)
  {
    NearestValueSpec(DIV_VALUES, div);
    if div <= -86.0 || div >= 130.0 {
      FarFromAll(div);
    } else {
      var i := if div <= 16.0 then 0 else if div <= 19.0 then 1 else if div <= 22.5 then 2
               else if div <= 27.5 then 3 else 4;
      BucketIsFirstNearest(div, i);
    }
  }

  lemma FarFromAll(div: real)
    requires div <= -86.0 || div >= 130.0
    ensures forall j :: 0 <= j < |DIV_VALUES| ==> Dist(DIV_VALUES[j], div) >= 100.0
  {
    forall j | 0 <= j < |DIV_VALUES| ensures Dist(DIV_VALUES[j], div) >= 100.0 {
      assert 14 <= DIV_VALUES[j] <= 30;
    }
  }

  /** The distances of `div` to the five values. */
  function DivDists(div: real): seq<real>
  {
    [Dist(14, div), Dist(18, div), Dist(20, div), Dist(25, div), Dist(30, div)]
  }

  lemma BucketIsFirstNearest(div: real, i: nat)
    requires -86.0 < div < 130.0
    requires i == (if div <= 16.0 then 0 else if div <= 19.0 then 1 else if div <= 22.5 then 2
                   else if div <= 27.5 then 3 else 4)
    ensures FirstNearest(DIV_VALUES, div, 100.0, i) && DIV_VALUES[i] == DivBucket(div)
  {
    var ds := DivDists(div);
    assert forall j :: 0 <= j < 5 ==> Dist(DIV_VALUES[j], div) == ds[j];
    BucketDists(div, i, ds);
  }

  lemma BucketDists(div: real, i: nat, ds: seq<real>)
    requires -86.0 < div < 130.0 && ds == DivDists(div)
    requires i == (if div <= 16.0 then 0 else if div <= 19.0 then 1 else if div <= 22.5 then 2
                   else if div <= 27.5 then 3 else 4)
    ensures i < 5 && ds[i] < 100.0
    ensures forall j :: 0 <= j < i ==> ds[j] > ds[i]
    ensures forall j :: i < j < 5 ==> ds[j] >= ds[i]
  {
  }

  /** `nearestDivergence(div)`: the entry of DIV_VALUES nearest to `div`
      (19 gives 18 and 22.5 gives 20, ties going to the earlier entry), or
      -1 when every entry is at distance 100 or more. */
  function NearestDivergence(div: real): (r: int)
    ensures r == DivBucket(div)
    ensures r == -1 <==> forall j :: 0 <= j < |DIV_VALUES| ==> Dist(DIV_VALUES[j], div) >= 100.0
    ensures r != -1 ==> r in DIV_VALUES
  {
    DivScanBuckets(div);
    NearestValue(DIV_VALUES, div)
  }

  /** The bases of a file: every line that does not start with `>`,
      without its last character (the newline). */
  function BaseText(ls: seq<string>): string
    requires forall k :: 0 <= k < |ls| ==> ls[k] != ""
  {
    if |ls| == 0 then ""
    else
      var last := ls[|ls| - 1];
      BaseText(ls[..|ls| - 1]) + (if last[0] != '>' then Chop(last) else "")
  }

  /** The lines a readline loop visits are the prefix before the first "". */
  lemma UntilEofPrefix(lines: seq<string>, i: nat)
    requires i <= |lines| && (forall k :: 0 <= k < i ==> lines[k] != "")
    requires i == |lines| || lines[i] == ""
    ensures UntilEof(lines) == lines[..i]
  {
  }

  /** `genomeSize(fa_file)`: the number of characters of the base lines,
      each counted without its newline; `>` lines count nothing. */
  method GenomeSize(lines: seq<string>) returns (size: nat)
    ensures size == |BaseText(UntilEof(lines))|
  {
    size := 0;
    var i := 0;
    while i < |lines| && lines[i] != ""
      invariant i <= |lines| && forall k :: 0 <= k < i ==> lines[k] != ""
      invariant size == |BaseText(lines[..i])|
    {
      var line := lines[i];
      assert lines[..i + 1][..i] == lines[..i];
      if line[0] != '>' {
        size := size + |line| - 1;
      }
      i := i + 1;
    }
    UntilEofPrefix(lines, i);
  }

  /** The first line of a file, "" for an empty one. */
  function FirstLine(lines: seq<string>): string
  {
    if |lines| == 0 then "" else lines[0]
  }

  /** The header parse of `consensusSize`: the first word after `>` is the
      name, and the text after the first `=` of the second word is the
      divergence, rounded by NearestDivergence. Fewer than two words, or no
      `=`, is an IndexError; a divergence that is not a number is a
      ValueError. */
  function ConsensusHeader(line: string): (r: Result<(string, int)>)
    ensures r.Ok? ==> r.value.1 == -1 || r.value.1 in DIV_VALUES
  {
    var ws := Words(PyFrom(line, 1));
    if |ws| < 2 then Err(IndexError)
    else
      var parts := SplitOn(ws[1], '=');
      if |parts| < 2 then Err(IndexError)
      else
        match ParseDecimal(parts[1])
        case None => Err(ValueError)
        case Some(v) => Ok((ws[0], NearestDivergence(v)))
  }

  /** `consensusSize(fa_file)`: the header must parse, and then the size is
      counted exactly as genomeSize counts it, the header line included in
      the walk (and skipped for starting with `>`). */
  method ConsensusSize(lines: seq<string>) returns (r: Result<nat>)
    ensures r.Ok? <==> ConsensusHeader(FirstLine(lines)).Ok?
    ensures r.Err? ==> r.error == ConsensusHeader(FirstLine(lines)).error
    ensures r.Ok? ==> r.value == |BaseText(UntilEof(lines))|
  {
    var h := ConsensusHeader(FirstLine(lines));
    if h.Err? {
      return Err(h.error);
    }
    var size := GenomeSize(lines);
    return Ok(size);
  }

  /** The first two words of `>name key=value...`. */
  lemma HeaderWords(name: string, field: string, tail: string)
    requires |name| > 0 && NoSpace(name) && |field| > 0 && NoSpace(field)
    requires |tail| > 0 && PySpace(tail[0])
    ensures var ws := Words(name + " " + field + tail);
            |ws| >= 2 && ws[0] == name && ws[1] == field
  {
    SecondWord(field, tail);
    WordsCons(name, " ", field + tail);
    assert name + " " + field + tail == name + " " + (field + tail);
    WordsSkipsSpace(" ", field + tail);
  }

  lemma SecondWord(field: string, tail: string)
    requires |field| > 0 && NoSpace(field)
    requires |tail| > 0 && PySpace(tail[0])
    ensures |Words(field + tail)| > 0 && Words(field + tail)[0] == field
  {
    assert field + tail == field + [tail[0]] + tail[1..];
    WordsCons(field, [tail[0]], tail[1..]);
  }

  /** `key=digits` splits into the key and the digits. */
  lemma FieldSplit(key: string, digits: string)
    requires '=' !in key && |digits| > 0 && AllDigits(digits)
    ensures SplitOn(key + "=" + digits, '=') == [key, digits]
  {
    assert '=' !in digits by {
      forall k | 0 <= k < |digits| ensures digits[k] != '=' {
        assert IsDigit(digits[k]);
      }
    }
    assert JoinWith([key, digits], '=') == key + "=" + digits;
    SplitOnJoin([key, digits], '=');
  }

  lemma DigitsNoSpace(digits: string)
    requires AllDigits(digits)
    ensures NoSpace(digits)
  {
    forall k | 0 <= k < |digits| ensures NotPySpace(digits[k]) {
      assert IsDigit(digits[k]);
    }
  }

  /** A header `>name key=d ...` with a whole-number divergence parses back
      to its name and the rounded divergence. */
  lemma ConsensusHeaderRoundTrip(name: string, key: string, d: nat, tail: string)
    requires |name| > 0 && NoSpace(name) && NoSpace(key) && '=' !in key
    requires |tail| > 0 && PySpace(tail[0])
    ensures ConsensusHeader(">" + name + " " + key + "=" + NatToString(d) + tail)
         == Ok((name, NearestDivergence(d as real)))
  {
    var digits := NatToString(d);
    var field := key + "=" + digits;
    var line := ">" + name + " " + field + tail;
    assert ">" + name + " " + key + "=" + digits + tail == line;
    assert PyFrom(line, 1) == name + " " + field + tail;
    DigitsNoSpace(digits);
    assert NoSpace(field) by {
      forall k | 0 <= k < |field| ensures NotPySpace(field[k]) {
        if k < |key| {
          assert field[k] == key[k];
        } else if k > |key| {
          assert field[k] == digits[k - |key| - 1];
        }
      }
    }
    HeaderWords(name, field, tail);
    FieldSplit(key, digits);
    ParseDecimalDigits(digits);
    NatToStringRoundTrip(d);
  }

  /** A header of a single word fails: `splitLine[1]` does not exist. */
  lemma ConsensusHeaderOneWord(name: string)
    requires |name| > 0 && NoSpace(name)
    ensures ConsensusHeader(">" + name + "\n") == Err(IndexError)
  {
    var line := ">" + name + "\n";
    assert PyFrom(line, 1) == name + "\n" + "";
    WordsCons(name, "\n", "");
    assert Words("\n" + "") == [] by {
      WordsSkipsSpace("\n", "");
      assert Words("") == [] by {
        assert NextWord("", 0) == None;
      }
    }
  }
}
