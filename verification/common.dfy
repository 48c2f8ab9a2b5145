/** Vocabulary shared by every module of the model: the errors the modelled
    scripts can raise, a failure-compatible Result and Option, Python's slice
    semantics, and the "read lines until readline returns the empty string"
    loop that every script in the repository uses. */
module Common {

  /** The exceptions the modelled code raises, named after the Python (or
      JavaScript) error that would escape. */
  datatype Error =
    | IndexError          // list or string index out of range, or an empty split()
    | ValueError          // int()/float() of text that is not a number
    | AttributeError      // a missing method, or `None.write`
    | NameError           // a name that is not bound in the scope
    | ZeroDivisionError   // x / 0
    | TypeError           // JavaScript `undefined[1]`
    | FileNotFound        // open() of a path that does not exist

  datatype Option<+T> = None | Some(value: T) {
    predicate IsFailure() { None? }
    function PropagateFailure<U>(): Option<U>
      requires None?
    {
      None
    }
    function Extract(): T
      requires Some?
    {
      value
    }
  }

  datatype Result<+T> = Ok(value: T) | Err(error: Error) {
    predicate IsFailure() { Err? }
    function PropagateFailure<U>(): Result<U>
      requires Err?
    {
      Err(error)
    }
    function Extract(): T
      requires Ok?
    {
      value
    }
  }

  /** Python's normalisation of a slice bound `k` against a length `n`:
      negative bounds count from the end, and both sides are clamped. */
  function ClampIndex(k: int, n: nat): (r: nat)
    ensures r <= n
    ensures 0 <= k <= n ==> r == k
    ensures k < 0 && n + k >= 0 ==> r == n + k
    ensures k > n ==> r == n
    ensures n + k < 0 ==> r == 0
  {
    if k < 0 then (if n + k < 0 then 0 else n + k)
    else if k > n then n
    else k
  }

  /** Python `s[lo:hi]`. */
  function PySlice<T>(s: seq<T>, lo: int, hi: int): (r: seq<T>)
    ensures |r| <= |s|
    ensures ClampIndex(lo, |s|) <= ClampIndex(hi, |s|) ==>
              r == s[ClampIndex(lo, |s|)..ClampIndex(hi, |s|)]
    ensures ClampIndex(lo, |s|) > ClampIndex(hi, |s|) ==> r == []
  {
    var a := ClampIndex(lo, |s|);
    var b := ClampIndex(hi, |s|);
    if a <= b then s[a..b] else []
  }

  /** Python `s[lo:]`. */
  function PyFrom<T>(s: seq<T>, lo: int): (r: seq<T>)
    ensures r == s[ClampIndex(lo, |s|)..]
  {
    s[ClampIndex(lo, |s|)..]
  }

  /** Python `s[:hi]`. */
  function PyTo<T>(s: seq<T>, hi: int): (r: seq<T>)
    ensures r == s[..ClampIndex(hi, |s|)]
  {
    s[..ClampIndex(hi, |s|)]
  }

  /** Python `line[:-1]`: the line without its last character (the
      terminator, when there is one). */
  function Chop(line: string): (r: string)
    ensures |line| > 0 ==> r == line[..|line| - 1]
    ensures |line| == 0 ==> r == ""
  {
    PyTo(line, -1)
  }

  /** The lines a `while line != "": ... line = f.readline()` loop visits:
      everything before the first empty string, which is what readline
      returns at end of file. */
  function UntilEof(lines: seq<string>): (r: seq<string>)
    ensures |r| <= |lines| && r == lines[..|r|]
    ensures forall k :: 0 <= k < |r| ==> r[k] != ""
    ensures |r| < |lines| ==> lines[|r|] == ""
  {
    if |lines| == 0 || lines[0] == "" then []
    else [lines[0]] + UntilEof(lines[1..])
  }

  lemma AppendSplit<T>(x: seq<T>, y: seq<T>)
    ensures (x + y)[..|x|] == x && (x + y)[|x|..] == y
  {
  }

  lemma PrefixSnoc<T>(s: seq<T>, k: nat)
    requires 0 < k <= |s|
    ensures s[..k] == s[..k - 1] + [s[k - 1]]
  {
  }

  lemma SliceJoin<T>(s: seq<T>, a: nat, b: nat)
    requires a <= b <= |s|
    ensures s[..a] + s[a..b] == s[..b]
  {
  }

  lemma SplitRejoin<T>(a: seq<T>, b: seq<T>, i: nat)
    requires i <= |b|
    ensures a + b[..i] + b[i..] == a + b
  {
    assert b == b[..i] + b[i..];
  }

  lemma SliceOfDrop<T>(s: seq<T>, d: nat, a: nat, b: nat)
    requires a <= b <= |s| - d
    ensures s[d..][a..b] == s[d + a..d + b]
  {
  }

  lemma NotInAppend<T>(x: T, a: seq<T>, b: seq<T>)
    requires x !in a && x !in b
    ensures x !in a + b
  {
  }

  lemma NotInSlice<T>(x: T, a: seq<T>, i: nat)
    requires x !in a && i <= |a|
    ensures x !in a[i..] && x !in a[..i]
  {
    assert forall y :: y in a[i..] || y in a[..i] ==> y in a;
  }

  /** The concatenation of a list of strings (Python `"".join(parts)`). */
  function Concat(parts: seq<string>): (r: string)
  {
    if |parts| == 0 then "" else parts[0] + Concat(parts[1..])
  }

  lemma {:induction false} ConcatAppend(a: seq<string>, b: seq<string>)
    ensures Concat(a + b) == Concat(a) + Concat(b)
    decreases |a|
  {
    if |a| == 0 {
      assert a + b == b;
    } else {
      assert (a + b)[1..] == a[1..] + b;
      ConcatAppend(a[1..], b);
    }
  }

  lemma ConcatSnoc(xs: seq<string>, k: nat)
    requires 0 < k <= |xs|
    ensures Concat(xs[..k]) == Concat(xs[..k - 1]) + xs[k - 1]
  {
    PrefixSnoc(xs, k);
    ConcatAppend(xs[..k - 1], [xs[k - 1]]);
    ConcatSingle(xs[k - 1]);
  }

  lemma ConcatNone(xs: seq<string>)
    ensures Concat(xs[..0]) == ""
  {
    assert xs[..0] == [];
  }

  lemma ConcatSingle(x: string)
    ensures Concat([x]) == x
  {
  }

  /** Sum of a list of naturals. */
  function Sum(xs: seq<nat>): nat
  {
    if |xs| == 0 then 0 else Sum(xs[..|xs| - 1]) + xs[|xs| - 1]
  }

  /** All lists, one after another. */
  function Flatten<T>(xss: seq<seq<T>>): seq<T>
  {
    if |xss| == 0 then [] else Flatten(xss[..|xss| - 1]) + xss[|xss| - 1]
  }

  /** A loop that computes one result per element and stops at the first
      exception: the values in order, or the first error. */
  function CollectAll<T>(rs: seq<Result<T>>): Result<seq<T>>
  {
    if |rs| == 0 then Ok([])
    else
      match CollectAll(rs[..|rs| - 1])
      case Err(e) => Err(e)
      case Ok(prev) =>
        match rs[|rs| - 1]
        case Err(e) => Err(e)
        case Ok(v) => Ok(prev + [v])
  }

  /** CollectAll succeeds exactly when every step does, with every value in
      order, and otherwise fails with the error of the first failing step. */
  lemma {:induction false} CollectAllSpec<T>(rs: seq<Result<T>>)
    ensures CollectAll(rs).Ok? <==> forall k :: 0 <= k < |rs| ==> rs[k].Ok?
    ensures CollectAll(rs).Ok? ==>
              |CollectAll(rs).value| == |rs| && forall k :: 0 <= k < |rs| ==> CollectAll(rs).value[k] == rs[k].value
    ensures CollectAll(rs).Err? ==>
              exists k :: 0 <= k < |rs| && rs[k].Err? && CollectAll(rs).error == rs[k].error
                          && forall j :: 0 <= j < k ==> rs[j].Ok?
    decreases |rs|
  {
    if |rs| > 0 {
      var init := rs[..|rs| - 1];
      CollectAllSpec(init);
      assert forall k :: 0 <= k < |init| ==> init[k] == rs[k];
      if CollectAll(init).Err? {
        var k :| 0 <= k < |init| && init[k].Err? && CollectAll(init).error == init[k].error
                  && forall j :: 0 <= j < k ==> init[j].Ok?;
        assert rs[k].Err?;
      }
    }
  }
}
