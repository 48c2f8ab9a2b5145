/** Character classes and the small pieces of Python/JavaScript string
    behaviour the scripts rely on: `str(n)`, `int(digits)`, `float(text)`,
    `s.lower()`, `s.split()` and `s.split(sep)`. Only ASCII behaviour is
    modelled. */
module Text {
  import opened Common

  predicate IsDigit(c: char) { '0' <= c <= '9' }

  predicate AllDigits(s: string) { forall k :: 0 <= k < |s| ==> IsDigit(s[k]) }

  /** Python's `\s` (and `str.isspace`) restricted to ASCII: the six C
      whitespace characters and the four separators 0x1c..0x1f. */
  predicate PySpace(c: char)
  {
    c == ' ' || c == '\t' || c == '\n' || c == '\r' || c as int == 0x0b || c as int == 0x0c
    || (0x1c <= c as int <= 0x1f)
  }

  predicate NotPySpace(c: char) { !PySpace(c) }

  /** JavaScript's `\s` restricted to ASCII: no 0x1c..0x1f. */
  predicate JsSpace(c: char)
  {
    c == ' ' || c == '\t' || c == '\n' || c == '\r' || c as int == 0x0b || c as int == 0x0c
  }

  /** ASCII `lower()`. */
  function ToLower(c: char): (r: char)
    ensures 'A' <= c <= 'Z' ==> r as int == c as int + 32
    ensures !('A' <= c <= 'Z') ==> r == c
  {
    if 'A' <= c <= 'Z' then (c as int + 32) as char else c
  }

  function DigitChar(d: nat): (c: char)
    requires d < 10
    ensures IsDigit(c) && c as int - '0' as int == d
  {
    ('0' as int + d) as char
  }

  function DigitValue(c: char): nat
  {
    if IsDigit(c) then c as int - '0' as int else 0
  }

  /** Python `int(s)` of a run of decimal digits (leading zeros allowed). */
  function DigitsValue(s: string): nat
  {
    if |s| == 0 then 0 else DigitsValue(s[..|s| - 1]) * 10 + DigitValue(s[|s| - 1])
  }

  /** Python `str(n)` for a non-negative integer. */
  function NatToString(n: nat): (r: string)
    ensures |r| > 0 && AllDigits(r)
  {
    if n < 10 then [DigitChar(n)] else NatToString(n / 10) + [DigitChar(n % 10)]
  }

  /** Python `str(i)` for any integer. */
  function IntToString(i: int): (r: string)
    ensures i >= 0 ==> r == NatToString(i)
    ensures i < 0 ==> r == "-" + NatToString(-i)
  {
    if i < 0 then "-" + NatToString(-i) else NatToString(i)
  }

  /** `int(str(n)) == n`. */
  lemma {:induction false} NatToStringRoundTrip(n: nat)
    ensures DigitsValue(NatToString(n)) == n
    decreases n
  {
    var s := NatToString(n);
    if n >= 10 {
      NatToStringRoundTrip(n / 10);
      assert s[..|s| - 1] == NatToString(n / 10);
    }
  }

  /** The first index at or after `i` where `p` fails (or `|s|`): the end
      of the maximal run of `p`-characters starting at `i`. */
  function SkipWhile(s: string, i: nat, p: char -> bool): (j: nat)
    requires i <= |s|
    ensures i <= j <= |s|
    ensures forall k :: i <= k < j ==> p(s[k])
    ensures j == |s| || !p(s[j])
    decreases |s| - i
  {
    if i == |s| || !p(s[i]) then i else SkipWhile(s, i + 1, p)
  }

  /** Any index that ends a maximal `p`-run from `i` is the one SkipWhile finds. */
  lemma SkipWhileUnique(s: string, i: nat, p: char -> bool, j: nat)
    requires i <= j <= |s|
    requires forall k :: i <= k < j ==> p(s[k])
    requires j == |s| || !p(s[j])
    ensures SkipWhile(s, i, p) == j
  {
  }

  /** The smallest index `i <= j` such that `s[i..j]` is a run of
      `p`-characters: the start of the maximal run ending at `j`. */
  function SkipBackWhile(s: string, j: nat, p: char -> bool): (i: nat)
    requires j <= |s|
    ensures i <= j
    ensures forall k :: i <= k < j ==> p(s[k])
    ensures i == 0 || !p(s[i - 1])
    decreases j
  {
    if j == 0 || !p(s[j - 1]) then j else SkipBackWhile(s, j - 1, p)
  }

  lemma SkipBackWhileUnique(s: string, j: nat, p: char -> bool, i: nat)
    requires i <= j <= |s|
    requires forall k :: i <= k < j ==> p(s[k])
    requires i == 0 || !p(s[i - 1])
    ensures SkipBackWhile(s, j, p) == i
  {
  }

  /** A run of digits after a non-digit is found by scanning back from the end. */
  lemma SkipBackDigits(p: string, b: string)
    requires |p| > 0 && !IsDigit(p[|p| - 1]) && AllDigits(b)
    ensures SkipBackWhile(p + b, |p + b|, IsDigit) == |p|
  {
    var s := p + b;
    assert forall k :: |p| <= k < |s| ==> s[k] == b[k - |p|];
    assert s[|p| - 1] == p[|p| - 1];
    SkipBackWhileUnique(s, |s|, IsDigit, |p|);
  }

  predicate NoSpace(w: string) { forall k :: 0 <= k < |w| ==> NotPySpace(w[k]) }

  /** Python `s.split()`: the maximal runs of non-whitespace, in order. */
  function Words(s: string): (ws: seq<string>)
    ensures forall k :: 0 <= k < |ws| ==> |ws[k]| > 0 && NoSpace(ws[k])
  {
    WordsFrom(s, 0)
  }

  /** The words of `s` from index `i` on. */
  function WordsFrom(s: string, i: nat): (ws: seq<string>)
    requires i <= |s|
    ensures forall k :: 0 <= k < |ws| ==> |ws[k]| > 0 && NoSpace(ws[k])
    decreases |s| - i
  {
    match NextWord(s, i)
    case None => []
    case Some(w) => [s[w.0..w.1]] + WordsFrom(s, w.1)
  }

  /** Where the next word at or after `i` starts and ends, if there is one. */
  function NextWord(s: string, i: nat): (r: Option<(nat, nat)>)
    requires i <= |s|
    ensures r.Some? ==> i <= r.value.0 < r.value.1 <= |s|
    ensures r.Some? ==> forall k :: r.value.0 <= k < r.value.1 ==> NotPySpace(s[k])
  {
    var a := SkipWhile(s, i, PySpace);
    if a == |s| then None else Some((a, SkipWhile(s, a, NotPySpace)))
  }

  /** Scanning a run of `s` from `d + i` is scanning `s[d..]` from `i`. */
  lemma SkipWhileDrop(s: string, d: nat, i: nat, p: char -> bool)
    requires d + i <= |s|
    ensures SkipWhile(s, d + i, p) == d + SkipWhile(s[d..], i, p)
  {
    var t := s[d..];
    var j := SkipWhile(t, i, p);
    assert forall k :: d <= k < |s| ==> s[k] == t[k - d];
    SkipWhileUnique(s, d + i, p, d + j);
  }

  lemma NextWordDrop(s: string, d: nat, i: nat)
    requires d + i <= |s|
    ensures NextWord(s[d..], i).None? ==> NextWord(s, d + i).None?
    ensures NextWord(s[d..], i).Some? ==>
              NextWord(s, d + i) == Some((d + NextWord(s[d..], i).value.0, d + NextWord(s[d..], i).value.1))
  {
    var a := SkipWhile(s[d..], i, PySpace);
    SkipWhileDrop(s, d, i, PySpace);
    if a < |s| - d {
      SkipWhileDrop(s, d, a, NotPySpace);
    }
  }

  /** The words of `s` after index `d` are the words of `s[d..]`. */
  lemma {:induction false} WordsFromDrop(s: string, d: nat, i: nat)
    requires d + i <= |s|
    ensures WordsFrom(s, d + i) == WordsFrom(s[d..], i)
    decreases |s| - d - i
  {
    NextWordDrop(s, d, i);
    var r := NextWord(s[d..], i);
    if r.Some? {
      var (a, b) := r.value;
      SliceOfDrop(s, d, a, b);
      WordsFromDrop(s, d, b);
      WordsFromStep(s, d + i, d + a, d + b);
      WordsFromStep(s[d..], i, a, b);
    } else {
      WordsFromEnd(s, d + i);
      WordsFromEnd(s[d..], i);
    }
  }

  /** One unfolding of WordsFrom. */
  lemma WordsFromStep(s: string, i: nat, a: nat, b: nat)
    requires i <= |s| && NextWord(s, i) == Some((a, b))
    ensures WordsFrom(s, i) == [s[a..b]] + WordsFrom(s, b)
  {
  }

  lemma WordsFromEnd(s: string, i: nat)
    requires i <= |s| && NextWord(s, i) == None
    ensures WordsFrom(s, i) == []
  {
  }

  /** The words of a text that starts with a word followed by whitespace
      are that word followed by the words of the rest. */
  lemma WordsCons(w: string, sp: string, rest: string)
    requires |w| > 0 && NoSpace(w)
    requires |sp| > 0 && forall k :: 0 <= k < |sp| ==> PySpace(sp[k])
    ensures Words(w + sp + rest) == [w] + Words(sp + rest)
  {
    var s := w + sp + rest;
    assert forall k :: 0 <= k < |w| ==> s[k] == w[k];
    assert s[|w|] == sp[0];
    SkipWhileUnique(s, 0, PySpace, 0);
    SkipWhileUnique(s, 0, NotPySpace, |w|);
    assert NextWord(s, 0) == Some((0, |w|));
    assert s[0..|w|] == w;
    WordsFromDrop(s, |w|, 0);
    assert s[|w|..] == sp + rest;
  }

  /** Leading whitespace does not change the words. */
  lemma WordsSkipsSpace(sp: string, rest: string)
    requires forall k :: 0 <= k < |sp| ==> PySpace(sp[k])
    ensures Words(sp + rest) == Words(rest)
  {
    var s := sp + rest;
    var a := SkipWhile(s, |sp|, PySpace);
    assert forall k :: 0 <= k < |sp| ==> s[k] == sp[k];
    SkipWhileUnique(s, 0, PySpace, a);
    assert NextWord(s, 0) == NextWord(s, |sp|);
    WordsFromDrop(s, |sp|, 0);
    assert s[|sp|..] == rest;
  }

  /** Joins pieces with a separator character: the inverse of SplitOn. */
  function JoinWith(parts: seq<string>, c: char): string
  {
    if |parts| == 0 then ""
    else if |parts| == 1 then parts[0]
    else parts[0] + [c] + JoinWith(parts[1..], c)
  }

  /** The index of the first `c` in `s`, or `|s|` (Python `s.find(c)`,
      with `|s|` for "not found"). */
  function IndexOf(s: string, c: char): (i: nat)
    ensures i <= |s| && c !in s[..i] && (i < |s| ==> s[i] == c)
    decreases |s|
  {
    if |s| == 0 then 0
    else if s[0] == c then 0
    else
      var j := IndexOf(s[1..], c);
      assert s[..j + 1] == [s[0]] + s[1..][..j];
      j + 1
  }

  /** Any index before which there is no `c` and at which there is one (or
      the end) is the one IndexOf finds. */
  lemma {:induction false} IndexOfUnique(s: string, c: char, i: nat)
    requires i <= |s| && c !in s[..i] && (i < |s| ==> s[i] == c)
    ensures IndexOf(s, c) == i
    decreases |s|
  {
    if |s| > 0 && s[0] != c {
      assert s[0] in s[..i];
      assert s[1..][..i - 1] == s[1..i];
      assert forall y :: y in s[1..i] ==> y in s[..i];
      IndexOfUnique(s[1..], c, i - 1);
    }
  }

  /** Python `s.split(c)` for a one-character separator. */
  function SplitOn(s: string, c: char): (r: seq<string>)
    ensures |r| >= 1
    ensures forall k :: 0 <= k < |r| ==> c !in r[k]
    ensures JoinWith(r, c) == s
    decreases |s|
  {
    var i := IndexOf(s, c);
    if i == |s| then
      assert s[..i] == s;
      [s]
    else
      var rest := SplitOn(s[i + 1..], c);
      assert s == s[..i] + [c] + s[i + 1..];
      [s[..i]] + rest
  }

  /** Splitting a joined list gives the list back, when no part holds the
      separator. */
  lemma {:induction false} SplitOnJoin(parts: seq<string>, c: char)
    requires |parts| >= 1 && forall k :: 0 <= k < |parts| ==> c !in parts[k]
    ensures SplitOn(JoinWith(parts, c), c) == parts
    decreases |parts|
  {
    var s := JoinWith(parts, c);
    if |parts| == 1 {
      assert s == parts[0] && s[..|s|] == s;
      IndexOfUnique(s, c, |s|);
    } else {
      var rest := JoinWith(parts[1..], c);
      assert s == parts[0] + [c] + rest;
      assert s[..|parts[0]|] == parts[0];
      IndexOfUnique(s, c, |parts[0]|);
      assert s[|parts[0]| + 1..] == rest;
      SplitOnJoin(parts[1..], c);
      assert parts == [parts[0]] + parts[1..];
    }
  }

  /** A text without the separator splits into itself alone. */
  lemma SplitOnNone(b: string, c: char)
    requires c !in b
    ensures SplitOn(b, c) == [b]
  {
    assert b[..|b|] == b;
    IndexOfUnique(b, c, |b|);
  }

  /** The first part of a split is the text before the first separator. */
  lemma SplitOnFirst(a: string, c: char, b: string)
    requires c !in a
    ensures SplitOn(a + [c] + b, c)[0] == a
  {
    var s := a + [c] + b;
    assert s[..|a|] == a;
    IndexOfUnique(s, c, |a|);
  }

  /** The first separator is no later than any separator. */
  lemma IndexOfAtMost(s: string, c: char, k: nat)
    requires k < |s| && s[k] == c
    ensures IndexOf(s, c) <= k
  {
    var i := IndexOf(s, c);
    assert forall j :: 0 <= j < i ==> s[..i][j] == s[j];
  }

  /** The last part of a split is the text after the last separator. */
  lemma {:induction false} SplitOnLast(a: string, c: char, b: string)
    requires c !in b
    ensures var r := SplitOn(a + [c] + b, c); r[|r| - 1] == b
    decreases |a|
  {
    var s := a + [c] + b;
    var i := IndexOf(s, c);
    IndexOfAtMost(s, c, |a|);
    SplitOnStep(s, c);
    if i == |a| {
      assert s[i + 1..] == b;
      SplitOnNone(b, c);
    } else {
      DropThrough(a, c, b, i);
      SplitOnLast(a[i + 1..], c, b);
    }
  }

  /** A split with a separator is the part before it, then the split of
      the rest. */
  lemma SplitOnStep(s: string, c: char)
    requires IndexOf(s, c) < |s|
    ensures var i := IndexOf(s, c);
            SplitOn(s, c) == [s[..i]] + SplitOn(s[i + 1..], c)
  {
  }

  lemma DropThrough(a: string, c: char, b: string, i: nat)
    requires i < |a|
    ensures (a + [c] + b)[i + 1..] == a[i + 1..] + [c] + b
  {
  }

  /** Python `float(text)` for the forms the data files use: an optional
      sign, then digits with an optional fraction (`12`, `12.5`, `12.`,
      `.5`). */
  function ParseDecimal(t: string): (r: Option<real>)
  {
    var sign := if |t| > 0 && (t[0] == '-' || t[0] == '+') then 1 else 0;
    var body := t[sign..];
    var i := SkipWhile(body, 0, IsDigit);
    var whole := DigitsValue(body[..i]) as real;
    var value :=
      if i == |body| then (if i == 0 then None else Some(whole))
      else if body[i] != '.' then None
      else
        var frac := body[i + 1..];
        if !AllDigits(frac) || (i == 0 && |frac| == 0) then None
        else Some(whole + DigitsValue(frac) as real / Pow10(|frac|) as real);
    if value.None? then None
    else if sign == 1 && t[0] == '-' then Some(-value.value) else value
  }

  /** `float` of a run of digits is its integer value. */
  lemma ParseDecimalDigits(t: string)
    requires |t| > 0 && AllDigits(t)
    ensures ParseDecimal(t) == Some(DigitsValue(t) as real)
  {
    assert t[0..] == t && t[..|t|] == t;
    SkipWhileUnique(t, 0, IsDigit, |t|);
  }

  function Pow10(n: nat): (r: nat)
    ensures r >= 1
  {
    if n == 0 then 1 else 10 * Pow10(n - 1)
  }

  function Reverse<T>(s: seq<T>): (r: seq<T>)
    ensures |r| == |s|
    ensures forall k :: 0 <= k < |s| ==> r[k] == s[|s| - 1 - k]
  {
    if |s| == 0 then [] else Reverse(s[1..]) + [s[0]]
  }

  lemma ReverseReverse<T>(s: seq<T>)
    ensures Reverse(Reverse(s)) == s
  {
  }

  lemma ReverseAppend<T>(a: seq<T>, b: seq<T>)
    ensures Reverse(a + b) == Reverse(b) + Reverse(a)
  {
  }
}
