/** The regular expressions of the scripts are all chains of character-class
    runs and literal characters, such as `^\s*(\d+)\s+\d+\.\d+\s+\d+\.\d+`.
    In every one of them the class of a run and the class of whatever may
    follow it are disjoint, so a backtracking engine can only succeed with
    each run taken maximally: a greedy, left-to-right, non-backtracking scan
    finds the same match and the same groups. This module is that scan,
    together with the declarative reading of a pattern (`Parses`) and the
    proof that the two agree. */
module Pattern {
  import opened Common
  import opened Text

  /** One element of a pattern: `\s*` / `\s+`, `\d+`, or one literal char. */
  datatype Tok = Spaces(atLeastOne: bool) | Digits | Lit(c: char)

  /** The half-open character range `[lo, hi)` a token matched. */
  datatype Span = Span(lo: nat, hi: nat)

  /** Token `t` matches exactly `s[sp.lo..sp.hi]`, and a run stops only
      where its class stops (the maximal-munch reading). `ws` is the
      whitespace class of the regex dialect. */
  ghost predicate TokFits(s: string, t: Tok, ws: char -> bool, sp: Span)
  {
    sp.lo <= sp.hi <= |s| &&
    match t
    case Lit(c) => sp.hi == sp.lo + 1 && s[sp.lo] == c
    case Spaces(one) =>
      (one ==> sp.hi > sp.lo)
      && (forall k :: sp.lo <= k < sp.hi ==> ws(s[k]))
      && (sp.hi == |s| || !ws(s[sp.hi]))
    case Digits =>
      sp.hi > sp.lo
      && (forall k :: sp.lo <= k < sp.hi ==> IsDigit(s[k]))
      && (sp.hi == |s| || !IsDigit(s[sp.hi]))
  }

  /** The pattern `pat` matches `s` from position `i` with the consecutive
      token spans `sps`. */
  ghost predicate Parses(s: string, i: nat, pat: seq<Tok>, ws: char -> bool, sps: seq<Span>)
    decreases |pat|
  {
    |sps| == |pat| &&
    (|pat| > 0 ==>
       sps[0].lo == i && TokFits(s, pat[0], ws, sps[0])
       && Parses(s, sps[0].hi, pat[1..], ws, sps[1..]))
  }

  /** Where token `t` started at `i` ends, if it matches there at all. */
  function TokEnd(s: string, i: nat, t: Tok, ws: char -> bool): (r: Option<nat>)
    requires i <= |s|
    ensures forall j: nat :: TokFits(s, t, ws, Span(i, j)) <==> r == Some(j)
  {
    match t
    case Lit(c) =>
      if i < |s| && s[i] == c then Some(i + 1) else None
    case Spaces(one) =>
      var j := SkipWhile(s, i, ws);
      assert forall j' :: TokFits(s, t, ws, Span(i, j')) ==> j' == j by {
        forall j' | TokFits(s, t, ws, Span(i, j')) ensures j' == j {
          SkipWhileUnique(s, i, ws, j');
        }
      }
      if one && j == i then None else Some(j)
    case Digits =>
      var j := SkipWhile(s, i, IsDigit);
      assert forall j' :: TokFits(s, t, ws, Span(i, j')) ==> j' == j by {
        forall j' | TokFits(s, t, ws, Span(i, j')) ensures j' == j {
          SkipWhileUnique(s, i, IsDigit, j');
        }
      }
      if j == i then None else Some(j)
  }

  /** The greedy scan: the spans of every token of `pat` matched from `i`,
      or None. Whatever it returns is a parse (soundness); MatchAtComplete
      shows it finds every parse there is. */
  function MatchAt(s: string, i: nat, pat: seq<Tok>, ws: char -> bool): (r: Option<seq<Span>>)
    requires i <= |s|
    ensures r.Some? ==> Parses(s, i, pat, ws, r.value)
    decreases |pat|
  {
    if |pat| == 0 then Some([])
    else
      match TokEnd(s, i, pat[0], ws)
      case None => None
      case Some(j) =>
        match MatchAt(s, j, pat[1..], ws)
        case None => None
        case Some(rest) =>
          assert ([Span(i, j)] + rest)[1..] == rest;
          Some([Span(i, j)] + rest)
  }

  /** Completeness: the scan finds any parse that exists, so with soundness
      `MatchAt(s, i, pat, ws) == Some(sps)` exactly when `sps` parses. */
  lemma {:induction false} MatchAtComplete(s: string, i: nat, pat: seq<Tok>, ws: char -> bool, sps: seq<Span>)
    requires i <= |s|
    requires Parses(s, i, pat, ws, sps)
    ensures MatchAt(s, i, pat, ws) == Some(sps)
    decreases |pat|
  {
    if |pat| > 0 {
      assert sps[0] == Span(i, sps[0].hi);
      MatchAtComplete(s, sps[0].hi, pat[1..], ws, sps[1..]);
      assert sps == [sps[0]] + sps[1..];
    }
  }

  /** The text of a span (empty if the span does not fit the string). */
  function SpanText(s: string, sp: Span): string
  {
    if sp.lo <= sp.hi <= |s| then s[sp.lo..sp.hi] else ""
  }

  /** What a parse says about each of its spans: they tile `s` from `i`
      in order, and each one holds its token. */
  lemma {:induction false} ParsesSpans(s: string, i: nat, pat: seq<Tok>, ws: char -> bool, sps: seq<Span>)
    requires Parses(s, i, pat, ws, sps)
    ensures |sps| == |pat|
    ensures |sps| > 0 ==> sps[0].lo == i
    ensures forall k :: 0 <= k < |sps| ==> TokFits(s, pat[k], ws, sps[k])
    ensures forall k :: 0 <= k < |sps| - 1 ==> sps[k].hi == sps[k + 1].lo
    decreases |pat|
  {
    if |pat| > 0 {
      ParsesSpans(s, sps[0].hi, pat[1..], ws, sps[1..]);
      forall k | 0 < k < |sps| ensures TokFits(s, pat[k], ws, sps[k]) {
        assert pat[k] == pat[1..][k - 1] && sps[k] == sps[1..][k - 1];
      }
      forall k | 0 < k < |sps| - 1 ensures sps[k].hi == sps[k + 1].lo {
        assert sps[k] == sps[1..][k - 1] && sps[k + 1] == sps[1..][k];
      }
    }
  }

  /** A Digits token's text is a non-empty run of decimal digits. */
  lemma DigitsSpan(s: string, ws: char -> bool, sp: Span)
    requires TokFits(s, Digits, ws, sp)
    ensures var t := SpanText(s, sp); |t| > 0 && AllDigits(t)
  {
    var t := SpanText(s, sp);
    forall k | 0 <= k < |t| ensures IsDigit(t[k]) {
      assert t[k] == s[sp.lo + k];
    }
  }

  /** A match has one span per token. */
  lemma MatchLength(s: string, i: nat, pat: seq<Tok>, ws: char -> bool)
    requires i <= |s|
    ensures MatchAt(s, i, pat, ws).Some? ==> |MatchAt(s, i, pat, ws).value| == |pat|
  {
  }

  /** The scan matches exactly when some parse exists. */
  lemma MatchAtIff(s: string, pat: seq<Tok>, ws: char -> bool)
    ensures MatchAt(s, 0, pat, ws).Some? <==> exists sps :: Parses(s, 0, pat, ws, sps)
  {
    var m := MatchAt(s, 0, pat, ws);
    if m.Some? {
      var w := m.value;
      assert Parses(s, 0, pat, ws, w);
      assert exists sps :: Parses(s, 0, pat, ws, sps);
    } else {
      forall sps | Parses(s, 0, pat, ws, sps) ensures false {
        MatchAtComplete(s, 0, pat, ws, sps);
      }
    }
  }

  /** The text a Digits token of a match covers is a non-empty run of
      digits. */
  lemma DigitsGroup(s: string, pat: seq<Tok>, ws: char -> bool, k: nat)
    requires k < |pat| && pat[k] == Digits
    ensures MatchAt(s, 0, pat, ws).Some? ==>
              var t := SpanText(s, MatchAt(s, 0, pat, ws).value[k]); |t| > 0 && AllDigits(t)
  {
    if MatchAt(s, 0, pat, ws).Some? {
      var sps := MatchAt(s, 0, pat, ws).value;
      ParsesSpans(s, 0, pat, ws, sps);
      DigitsSpan(s, ws, sps[k]);
    }
  }

  /** Two whitespace classes that agree on every character of `s` give the
      same token ends. */
  lemma TokEndSameClass(s: string, i: nat, t: Tok, ws1: char -> bool, ws2: char -> bool)
    requires i <= |s|
    requires forall k :: 0 <= k < |s| ==> ws1(s[k]) == ws2(s[k])
    ensures TokEnd(s, i, t, ws1) == TokEnd(s, i, t, ws2)
  {
    if t.Spaces? {
      var j := SkipWhile(s, i, ws1);
      SkipWhileUnique(s, i, ws2, j);
    }
  }

  /** ... and the same matches. */
  lemma {:induction false} MatchAtSameClass(s: string, i: nat, pat: seq<Tok>, ws1: char -> bool, ws2: char -> bool)
    requires i <= |s|
    requires forall k :: 0 <= k < |s| ==> ws1(s[k]) == ws2(s[k])
    ensures MatchAt(s, i, pat, ws1) == MatchAt(s, i, pat, ws2)
    decreases |pat|
  {
    if |pat| > 0 {
      TokEndSameClass(s, i, pat[0], ws1, ws2);
      var e := TokEnd(s, i, pat[0], ws1);
      if e.Some? {
        MatchAtSameClass(s, e.value, pat[1..], ws1, ws2);
      }
    }
  }
}
