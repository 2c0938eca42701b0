/** `re.split(r'([।॥!?]+)', text)`: splitting on maximal runs of terminators
    with the run itself captured. The result alternates body, run, body, ...,
    body; it always has odd length, its pieces concatenate back to the text,
    and it is the only such alternation (so this function is a faithful model
    of the regular-expression split, not one choice among several). */
module RegexSplit {
  import opened Text

  /** The concatenation of all pieces, in order. */
  function Join(parts: seq<String>): String {
    if parts == [] then [] else parts[0] + Join(parts[1..])
  }

  lemma {:induction false} JoinAppend(p: seq<String>, q: seq<String>)
    ensures Join(p + q) == Join(p) + Join(q)
    decreases |p|
  {
    if p == [] {
      assert p + q == q;
    } else {
      assert (p + q)[1..] == p[1..] + q;
      JoinAppend(p[1..], q);
    }
  }

  lemma JoinSingle(a: String)
    ensures Join([a]) == a
  {
    assert Join([a]) == a + Join([]);
    assert a + [] == a;
  }

  lemma JoinPair(a: String, b: String)
    ensures Join([a, b]) == a + b
  {
    assert [a, b][1..] == [b];
    assert Join([b]) == b + Join([]);
  }

  /** Length of the longest terminator-free prefix of `s`: where the regex
      engine finds the next match. */
  function BodyLen(s: String): (n: nat)
    ensures n <= |s| && TerminatorFree(s[..n])
    ensures n < |s| ==> IsTerminator(s[n])
  {
    if s == [] || IsTerminator(s[0]) then 0
    else
      var n := 1 + BodyLen(s[1..]);
      assert s[..n] == [s[0]] + s[1..][..n - 1];
      n
  }

  /** Length of the longest prefix of `s` made of terminators: how far the
      greedy `+` extends a match. */
  function RunLen(s: String): (n: nat)
    ensures n <= |s| && AllTerminators(s[..n])
    ensures n < |s| ==> !IsTerminator(s[n])
    ensures s != [] && IsTerminator(s[0]) ==> n > 0
  {
    if s != [] && IsTerminator(s[0]) then
      var n := 1 + RunLen(s[1..]);
      assert s[..n] == [s[0]] + s[1..][..n - 1];
      n
    else 0
  }

  /** A well-formed result of the split: bodies (even positions) hold no
      terminator, runs (odd positions) are non-empty and hold only
      terminators, and every body strictly between two runs is non-empty,
      which is what makes each run maximal. Only the first and the last body
      may be empty. */
  ghost predicate Alternation(parts: seq<String>) {
    && |parts| % 2 == 1
    && (forall k :: 0 <= k < |parts| && k % 2 == 0 ==> TerminatorFree(parts[k]))
    && (forall k :: 0 <= k < |parts| && k % 2 == 1 ==> parts[k] != [] && AllTerminators(parts[k]))
    && (forall k :: 0 < k < |parts| - 1 && k % 2 == 0 ==> parts[k] != [])
  }

  /** The final piece of a split is a body. */
  lemma AlternationLast(parts: seq<String>)
    requires Alternation(parts)
    ensures TerminatorFree(parts[|parts| - 1])
  {
    var m := |parts| - 1;
    assert m % 2 == 0;
  }

  /** `re.split(r'([।॥!?]+)', s)`: the text up to the first terminator, the
      maximal run of terminators there, and then the split of what follows. */
  function ReSplit(s: String): (parts: seq<String>)
    ensures |parts| % 2 == 1
    decreases |s|
  {
    var b := BodyLen(s);
    if b == |s| then [s]
    else
      var r := RunLen(s[b..]);
      [s[..b], s[b..][..r]] + ReSplit(s[b..][r..])
  }

  /** The first boundary of a text that holds a terminator: the body before
      it, the maximal run there and what follows, with the split of the text
      in terms of the split of what follows. */
  lemma ReSplitFirst(s: String) returns (body: String, run: String, after: String)
    requires BodyLen(s) < |s|
    ensures s == body + (run + after)
    ensures TerminatorFree(body) && run != [] && AllTerminators(run)
    ensures after == [] || !IsTerminator(after[0])
    ensures |after| < |s|
    ensures ReSplit(s) == [body, run] + ReSplit(after)
  {
    var b := BodyLen(s);
    var rest := s[b..];
    var r := RunLen(rest);
    body, run, after := s[..b], rest[..r], rest[r..];
    assert rest == run + after;
    assert rest[0] == s[b];
    if after != [] {
      assert after[0] == rest[r];
    }
  }

  /** The pieces of the split alternate between bodies and maximal runs. */
  lemma {:induction false} ReSplitAlternates(s: String)
    ensures Alternation(ReSplit(s))
    ensures s != [] && !IsTerminator(s[0]) ==> ReSplit(s)[0] != []
    decreases |s|
  {
    if BodyLen(s) < |s| {
      var body, run, after := ReSplitFirst(s);
      ReSplitAlternates(after);
      AlternationCons(body, run, ReSplit(after));
    } else {
      assert s[..|s|] == s;
    }
  }

  /** The split loses nothing: its pieces concatenate back to the text. */
  lemma {:induction false} ReSplitJoin(s: String)
    ensures Join(ReSplit(s)) == s
    decreases |s|
  {
    if BodyLen(s) == |s| {
      JoinSingle(s);
    } else {
      var body, run, after := ReSplitFirst(s);
      ReSplitJoin(after);
      JoinCons(body, run, ReSplit(after));
    }
  }

  /** Putting a body and a run in front of a well-formed split keeps it
      well formed, provided the old first body may now stand between runs. */
  lemma AlternationCons(body: String, run: String, tail: seq<String>)
    requires TerminatorFree(body)
    requires run != [] && AllTerminators(run)
    requires Alternation(tail)
    requires |tail| > 1 ==> tail[0] != []
    ensures Alternation([body, run] + tail)
  {
    var parts := [body, run] + tail;
    forall k | 2 <= k < |parts| ensures parts[k] == tail[k - 2] { }
  }

  lemma JoinCons(body: String, run: String, tail: seq<String>)
    ensures Join([body, run] + tail) == body + (run + Join(tail))
  {
    JoinAppend([body, run], tail);
    JoinPair(body, run);
  }

  /** A terminator-free prefix followed by a terminator (or by nothing) is
      exactly the first body the engine finds. */
  lemma {:induction false} BodyLenOf(b: String, c: String)
    requires TerminatorFree(b)
    requires c == [] || IsTerminator(c[0])
    ensures BodyLen(b + c) == |b|
    decreases |b|
  {
    if b == [] {
      assert b + c == c;
    } else {
      assert (b + c)[1..] == b[1..] + c;
      BodyLenOf(b[1..], c);
    }
  }

  /** A run of terminators followed by a non-terminator (or by nothing) is
      exactly the run the greedy match takes. */
  lemma {:induction false} RunLenOf(t: String, c: String)
    requires AllTerminators(t)
    requires c == [] || !IsTerminator(c[0])
    ensures RunLen(t + c) == |t|
    decreases |t|
  {
    if t == [] {
      assert t + c == c;
    } else {
      assert (t + c)[1..] == t[1..] + c;
      RunLenOf(t[1..], c);
    }
  }

  /** Splitting `body + run + rest` where `run` is a maximal run of
      terminators: the body and the run come first and the rest is split on
      its own. */
  lemma ReSplitStep(body: String, run: String, rest: String)
    requires TerminatorFree(body)
    requires run != [] && AllTerminators(run)
    requires rest == [] || !IsTerminator(rest[0])
    ensures ReSplit(body + run + rest) == [body, run] + ReSplit(rest)
  {
    var s := body + run + rest;
    assert s == body + (run + rest);
    BodyLenOf(body, run + rest);
    assert s[|body|..] == run + rest;
    RunLenOf(run, rest);
    assert (run + rest)[..|run|] == run;
    assert (run + rest)[|run|..] == rest;
  }

  /** Text without terminators is not split at all. */
  lemma ReSplitNoTerminator(s: String)
    requires TerminatorFree(s)
    ensures ReSplit(s) == [s]
  {
    BodyLenOf(s, []);
    assert s + [] == s;
  }

  /** The split is determined by its properties: any alternation of bodies
      and maximal runs that concatenates to `s` is `ReSplit(s)`. */
  lemma {:induction false} ReSplitUnique(s: String, parts: seq<String>)
    requires Alternation(parts)
    requires Join(parts) == s
    ensures parts == ReSplit(s)
    decreases |parts|
  {
    if |parts| == 1 {
      JoinSingle(parts[0]);
      ReSplitNoTerminator(s);
    } else {
      var tail := parts[2..];
      AlternationTail(parts);
      ReSplitUnique(Join(tail), tail);
      JoinStartsWithBody(tail);
      JoinSplitOff(parts);
      ReSplitStep(parts[0], parts[1], Join(tail));
    }
  }

  lemma JoinSplitOff(parts: seq<String>)
    requires |parts| > 1
    ensures parts == [parts[0], parts[1]] + parts[2..]
    ensures Join(parts) == parts[0] + parts[1] + Join(parts[2..])
  {
    assert parts == [parts[0], parts[1]] + parts[2..];
    JoinCons(parts[0], parts[1], parts[2..]);
  }

  /** The `j`-th body of a split and the run after it. */
  lemma AlternationPair(parts: seq<String>, j: nat)
    requires Alternation(parts) && 2 * j + 1 < |parts|
    ensures TerminatorFree(parts[2 * j]) && parts[2 * j + 1] != [] && AllTerminators(parts[2 * j + 1])
  {
    assert (2 * j) % 2 == 0 && (2 * j + 1) % 2 == 1;
  }

  /** Dropping the first body and run of a split leaves a split. */
  lemma AlternationTail(parts: seq<String>)
    requires Alternation(parts) && |parts| > 1
    ensures Alternation(parts[2..])
    ensures |parts| > 3 ==> parts[2] != []
    ensures TerminatorFree(parts[0]) && parts[1] != [] && AllTerminators(parts[1])
  {
    var tail := parts[2..];
    forall k | 0 <= k < |tail| ensures tail[k] == parts[k + 2] { }
  }

  /** A split whose first body is empty only when it is the whole split
      concatenates to a text that does not begin with a terminator. */
  lemma JoinStartsWithBody(parts: seq<String>)
    requires Alternation(parts)
    requires |parts| > 1 ==> parts[0] != []
    ensures Join(parts) == [] || !IsTerminator(Join(parts)[0])
  {
    if |parts| == 1 {
      JoinSingle(parts[0]);
    } else {
      assert Join(parts) == parts[0] + Join(parts[1..]);
      assert Join(parts)[0] == parts[0][0];
    }
  }

  /** The number of maximal terminator runs in `s`, counted left to right:
      a run starts at a terminator that does not follow another one.
      `afterTerminator` says whether the character before `s` was one. */
  function RunsFrom(s: String, afterTerminator: bool): nat
    decreases |s|
  {
    if s == [] then 0
    else
      (if IsTerminator(s[0]) && !afterTerminator then 1 else 0)
      + RunsFrom(s[1..], IsTerminator(s[0]))
  }

  function RunCount(s: String): nat {
    RunsFrom(s, false)
  }

  lemma {:induction false} RunsFromBody(b: String, c: String)
    requires TerminatorFree(b)
    ensures RunsFrom(b + c, false) == RunsFrom(c, false)
    decreases |b|
  {
    if b == [] {
      assert b + c == c;
    } else {
      assert (b + c)[1..] == b[1..] + c;
      RunsFromBody(b[1..], c);
    }
  }

  lemma {:induction false} RunsFromRun(t: String, c: String)
    requires AllTerminators(t)
    ensures RunsFrom(t + c, true) == RunsFrom(c, true)
    decreases |t|
  {
    if t == [] {
      assert t + c == c;
    } else {
      assert (t + c)[1..] == t[1..] + c;
      RunsFromRun(t[1..], c);
    }
  }

  /** A body, a maximal run and what follows hold one run more than what
      follows. */
  lemma RunCountStep(body: String, run: String, after: String)
    requires TerminatorFree(body)
    requires run != [] && AllTerminators(run)
    requires after == [] || !IsTerminator(after[0])
    ensures RunCount(body + (run + after)) == 1 + RunCount(after)
  {
    RunsFromBody(body, run + after);
    assert (run + after)[0] == run[0];
    assert (run + after)[1..] == run[1..] + after;
    RunsFromRun(run[1..], after);
    assert RunsFrom(after, true) == RunsFrom(after, false);
  }

  /** The split yields one run per maximal run of terminators in the text,
      and one body more than runs. */
  lemma {:induction false} ReSplitCountsRuns(s: String)
    ensures |ReSplit(s)| == 2 * RunCount(s) + 1
    decreases |s|
  {
    if BodyLen(s) == |s| {
      assert s == s[..|s|] + [];
      RunsFromBody(s[..|s|], []);
    } else {
      var body, run, after := ReSplitFirst(s);
      ReSplitCountsRuns(after);
      RunCountStep(body, run, after);
    }
  }
}
