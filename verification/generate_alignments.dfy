/** generate_alignments.py, `splitConsensus`: copy every record of a
    consensus FASTA file into its own file `<name>.fa` in the directory
    `<fa_file>_`, where `<name>` is the first word of the record's header.
    Files are opened for appending, so the directory is modelled as a map
    from path to contents that the run extends. */
module GenerateAlignments {
  import opened Common
  import opened Text

  /** The output directory. */
  function DirName(faFile: string): string
  {
    faFile + "_"
  }

  /** `os.path.join(a, b)` on POSIX: an absolute `b` replaces `a`, and a
      separator is added unless `a` is empty or already ends with one. */
  function PathJoin(a: string, b: string): string
  {
    if |b| > 0 && b[0] == '/' then b
    else if |a| == 0 || a[|a| - 1] == '/' then a + b
    else a + "/" + b
  }

  predicate IsHeader(line: string)
  {
    |line| > 0 && line[0] == '>'
  }

  /** A header with at least one word after the `>`. */
  predicate Named(line: string)
  {
    |Words(PyFrom(line, 1))| > 0
  }

  /** The file a header line opens: the first word after `>`, plus `.fa`,
      inside `dir`; None when there is no word (`split()[0]` fails). */
  function HeaderPath(dir: string, line: string): (r: Option<string>)
    ensures r.Some? <==> Named(line)
  {
    var ws := Words(PyFrom(line, 1));
    if |ws| == 0 then None else Some(PathJoin(dir, ws[0] + ".fa"))
  }

  /** The contents of the file at `p`, "" for none. */
  function Get(files: map<string, string>, p: string): string
  {
    if p in files then files[p] else ""
  }

  /** Appending to the file at `p` (mode "a" creates it). */
  function Append(files: map<string, string>, p: string, text: string): map<string, string>
  {
    files[p := Get(files, p) + text]
  }

  /** Appending changes that file alone, by exactly the text appended. */
  lemma AppendGet(files: map<string, string>, p: string, text: string, q: string)
    ensures Get(Append(files, p, text), q) == Get(files, q) + (if q == p then text else "")
  {
  }

  /** The files, the file `g` currently open (None before the first
      header), and the exception that ended the loop, if one did. */
  datatype State = State(files: map<string, string>, current: Option<string>, err: Option<Error>)

  /** One pass of the loop: a header opens its file, and every line, the
      header included, is written to the open file. A header without a word
      raises IndexError; a line before any header calls `write` on None, an
      AttributeError. Once an exception is raised nothing more happens. */
  function Step(dir: string, st: State, line: string): State
  {
    if st.err.Some? then st
    else if |line| == 0 then st.(err := Some(IndexError))
    else if line[0] == '>' then
      match HeaderPath(dir, line)
      case None => st.(err := Some(IndexError))
      case Some(p) => State(Append(st.files, p, line), Some(p), None)
    else
      match st.current
      case None => st.(err := Some(AttributeError))
      case Some(p) => st.(files := Append(st.files, p, line))
  }

  function RunFrom(dir: string, st: State, ls: seq<string>): State
  {
    if |ls| == 0 then st else Step(dir, RunFrom(dir, st, ls[..|ls| - 1]), ls[|ls| - 1])
  }

  /** `splitConsensus(fa_file)` over the file's lines and the directory's
      prior contents. The function itself returns None. */
  function SplitConsensus(faFile: string, files: map<string, string>, lines: seq<string>): State
  {
    RunFrom(DirName(faFile), State(files, None, None), UntilEof(lines))
  }

  /* ---------------------------------------------------------------------
     The grouping, stated without the loop's state.
     --------------------------------------------------------------------- */

  /** The file opened by the last header among `ls`. */
  function LastGroup(dir: string, ls: seq<string>): Option<string>
  {
    if |ls| == 0 then None
    else if IsHeader(ls[|ls| - 1]) then HeaderPath(dir, ls[|ls| - 1])
    else LastGroup(dir, ls[..|ls| - 1])
  }

  /** The lines that belong to the file `p`: each line belongs to the file
      of the last header at or before it. */
  function Collected(dir: string, ls: seq<string>, p: string): string
  {
    if |ls| == 0 then ""
    else Collected(dir, ls[..|ls| - 1], p) + (if LastGroup(dir, ls) == Some(p) then ls[|ls| - 1] else "")
  }

  /** The file starts with a header (or is empty) and every header names a
      record: line by line, a header must have a word and any other line
      must have a line before it. */
  predicate WellFormed(ls: seq<string>)
  {
    |ls| == 0 ||
    (WellFormed(ls[..|ls| - 1]) && LineOk(ls[..|ls| - 1], ls[|ls| - 1]))
  }

  predicate LineOk(before: seq<string>, line: string)
  {
    if IsHeader(line) then Named(line) else |before| > 0
  }

  /** The same condition stated over all lines at once. */
  lemma {:induction false} WellFormedAll(ls: seq<string>)
    ensures WellFormed(ls) <==>
              (|ls| == 0 || IsHeader(ls[0])) && forall k :: 0 <= k < |ls| && IsHeader(ls[k]) ==> Named(ls[k])
    decreases |ls|
  {
    if |ls| > 0 {
      var init := ls[..|ls| - 1];
      WellFormedAll(init);
      assert forall k :: 0 <= k < |init| ==> init[k] == ls[k];
      if |init| > 0 {
        assert init[0] == ls[0];
      }
    }
  }

  /** A well-formed non-empty file has a group open. */
  lemma {:induction false} LastGroupOpen(dir: string, ls: seq<string>)
    requires |ls| > 0 && WellFormed(ls)
    ensures LastGroup(dir, ls).Some?
    decreases |ls|
  {
    if !IsHeader(ls[|ls| - 1]) {
      LastGroupOpen(dir, ls[..|ls| - 1]);
    }
  }

  /** What the loop does: it ends without an exception exactly when the
      file is well formed, and then every file holds its prior contents
      followed by exactly the lines of its records, in input order (a name
      seen twice collects both records), with the last record's file open. */
  lemma {:induction false} SplitSpec(dir: string, files: map<string, string>, ls: seq<string>)
    requires forall k :: 0 <= k < |ls| ==> ls[k] != ""
    ensures RunFrom(dir, State(files, None, None), ls).err.None? <==> WellFormed(ls)
    ensures WellFormed(ls) ==>
              var r := RunFrom(dir, State(files, None, None), ls);
              r.current == LastGroup(dir, ls)
              && forall p :: Get(r.files, p) == Get(files, p) + Collected(dir, ls, p)
    decreases |ls|
  {
    if |ls| > 0 {
      var init := ls[..|ls| - 1];
      var line := ls[|ls| - 1];
      assert forall k :: 0 <= k < |init| ==> init[k] == ls[k];
      SplitSpec(dir, files, init);
      var st := RunFrom(dir, State(files, None, None), init);
      if WellFormed(init) {
        if |init| > 0 {
          LastGroupOpen(dir, init);
        }
        StepOutcome(dir, init, line, st);
        if WellFormed(ls) {
          StepFiles(dir, files, ls, st);
        }
      }
    }
  }

  /** After a well-formed prefix, the next line raises exactly when it is
      not acceptable there. */
  lemma StepOutcome(dir: string, init: seq<string>, line: string, st: State)
    requires line != "" && st.err.None? && st.current == LastGroup(dir, init)
    requires |init| > 0 ==> LastGroup(dir, init).Some?
    ensures Step(dir, st, line).err.None? <==> LineOk(init, line)
  {
  }

  /** A line accepted after a well-formed prefix lands in the file of the
      last header at or before it. */
  lemma StepFiles(dir: string, files: map<string, string>, ls: seq<string>, st: State)
    requires |ls| > 0 && ls[|ls| - 1] != "" && WellFormed(ls)
    requires st.err.None? && st.current == LastGroup(dir, ls[..|ls| - 1])
    requires forall p :: Get(st.files, p) == Get(files, p) + Collected(dir, ls[..|ls| - 1], p)
    ensures var r := Step(dir, st, ls[|ls| - 1]);
            r.current == LastGroup(dir, ls)
            && forall p :: Get(r.files, p) == Get(files, p) + Collected(dir, ls, p)
  {
    var line := ls[|ls| - 1];
    var init := ls[..|ls| - 1];
    if |init| > 0 {
      LastGroupOpen(dir, init);
    }
    var q := StepTarget(dir, ls, st);
    forall p ensures Get(Append(st.files, q, line), p) == Get(files, p) + Collected(dir, ls, p) {
      AppendGet(st.files, q, line, p);
      CollectedStep(dir, ls, q, p);
      Assoc(Get(files, p), Collected(dir, init, p), if p == q then line else "");
    }
  }

  lemma Assoc(a: string, b: string, c: string)
    ensures (a + b) + c == a + (b + c)
  {
  }

  /** The accepted line is appended to the file of the last header. */
  lemma StepTarget(dir: string, ls: seq<string>, st: State) returns (q: string)
    requires |ls| > 0 && ls[|ls| - 1] != "" && LineOk(ls[..|ls| - 1], ls[|ls| - 1])
    requires |ls| > 1 ==> LastGroup(dir, ls[..|ls| - 1]).Some?
    requires st.err.None? && st.current == LastGroup(dir, ls[..|ls| - 1])
    ensures LastGroup(dir, ls) == Some(q)
    ensures Step(dir, st, ls[|ls| - 1]) == State(Append(st.files, q, ls[|ls| - 1]), Some(q), None)
  {
    q := LastGroup(dir, ls).value;
  }

  lemma CollectedStep(dir: string, ls: seq<string>, q: string, p: string)
    requires |ls| > 0 && LastGroup(dir, ls) == Some(q)
    ensures Collected(dir, ls, p) == Collected(dir, ls[..|ls| - 1], p) + (if p == q then ls[|ls| - 1] else "")
  {
  }
}
