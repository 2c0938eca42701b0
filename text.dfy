/** Characters and the string helpers the segmenter relies on: the terminator
    set, Python's notion of whitespace, `str.strip()` and the "words" of a text
    (everything that is neither whitespace nor a terminator). */
module Text {

  type String = seq<char>

  /** The sentence terminators of the split pattern `[।॥!?]`:
      U+0964 DEVANAGARI DANDA, U+0965 DEVANAGARI DOUBLE DANDA, '!' and '?'. */
  predicate IsTerminator(c: char) {
    c == '\U{0964}' || c == '\U{0965}' || c == '!' || c == '?'
  }

  /** The characters for which Python's `str.isspace()` holds, which are the
      ones `str.strip()` without arguments removes. */
  const Whitespace: set<char> := {
    ' ', '\t', '\n', '\U{0b}', '\U{0c}', '\r', '\U{1c}', '\U{1d}', '\U{1e}', '\U{1f}',
    '\U{85}', '\U{a0}', '\U{1680}',
    '\U{2000}', '\U{2001}', '\U{2002}', '\U{2003}', '\U{2004}', '\U{2005}', '\U{2006}',
    '\U{2007}', '\U{2008}', '\U{2009}', '\U{200a}',
    '\U{2028}', '\U{2029}', '\U{202f}', '\U{205f}', '\U{3000}'
  }

  predicate IsSpace(c: char) {
    c in Whitespace
  }

  predicate Blank(s: String) {
    forall i :: 0 <= i < |s| ==> IsSpace(s[i])
  }

  predicate TerminatorFree(s: String) {
    forall i :: 0 <= i < |s| ==> !IsTerminator(s[i])
  }

  predicate AllTerminators(s: String) {
    forall i :: 0 <= i < |s| ==> IsTerminator(s[i])
  }

  /** `s` is empty or begins and ends with a non-whitespace character. */
  predicate Trimmed(s: String) {
    s == [] || (!IsSpace(s[0]) && !IsSpace(s[|s| - 1]))
  }

  /** `s.strip()`: `s` without its leading and trailing whitespace. */
  function Strip(s: String): String
    decreases |s|
  {
    if s != [] && IsSpace(s[0]) then Strip(s[1..])
    else if s != [] && IsSpace(s[|s| - 1]) then Strip(s[..|s| - 1])
    else s
  }

  /** The result of `Strip` begins and ends with a non-whitespace character,
      and it is empty exactly when `s` is blank. */
  lemma {:induction false} StripTrims(s: String)
    ensures Trimmed(Strip(s))
    ensures Strip(s) == [] <==> Blank(s)
    decreases |s|
  {
    if s != [] && IsSpace(s[0]) {
      StripTrims(s[1..]);
      assert Blank(s) <==> Blank(s[1..]) by {
        assert forall i :: 0 < i < |s| ==> s[i] == s[1..][i - 1];
      }
    } else if s != [] && IsSpace(s[|s| - 1]) {
      StripTrims(s[..|s| - 1]);
      assert Blank(s) <==> Blank(s[..|s| - 1]) by {
        assert forall i :: 0 <= i < |s| - 1 ==> s[i] == s[..|s| - 1][i];
      }
    }
  }

  /** `r` sits in `s` at position `i` with only whitespace around it. */
  predicate Framed(s: String, i: int, r: String) {
    0 <= i <= |s| - |r| && r == s[i..i + |r|] && Blank(s[..i]) && Blank(s[i + |r|..])
  }

  /** What `Strip` removes is whitespace only: the result is the part of `s`
      between a blank prefix and a blank suffix. */
  lemma {:induction false} StripIsSlice(s: String)
    ensures exists i :: Framed(s, i, Strip(s))
    decreases |s|
  {
    var r := Strip(s);
    if s != [] && IsSpace(s[0]) {
      var t := s[1..];
      StripIsSlice(t);
      var i :| Framed(t, i, r);
      FramedCons(s, i, r);
    } else if s != [] && IsSpace(s[|s| - 1]) {
      var t := s[..|s| - 1];
      StripIsSlice(t);
      var i :| Framed(t, i, r);
      FramedSnoc(s, i, r);
    } else {
      assert Framed(s, 0, r);
    }
  }

  lemma FramedCons(s: String, i: int, r: String)
    requires s != [] && IsSpace(s[0]) && Framed(s[1..], i, r)
    ensures Framed(s, i + 1, r)
  {
    var t := s[1..];
    assert forall k :: 0 <= k < |r| ==> r[k] == t[i + k] == s[i + 1 + k];
    assert s[i + 1..i + 1 + |r|] == r;
    assert s[i + 1 + |r|..] == t[i + |r|..];
    assert s[..i + 1] == [s[0]] + t[..i];
  }

  lemma FramedSnoc(s: String, i: int, r: String)
    requires s != [] && IsSpace(s[|s| - 1]) && Framed(s[..|s| - 1], i, r)
    ensures Framed(s, i, r)
  {
    var t := s[..|s| - 1];
    assert s[i..i + |r|] == t[i..i + |r|];
    assert s[..i] == t[..i];
    assert s[i + |r|..] == t[i + |r|..] + [s[|s| - 1]];
  }

  /** No terminator is whitespace. */
  lemma BlankIsTerminatorFree(s: String)
    requires Blank(s)
    ensures TerminatorFree(s)
  {
  }

  /** Leading whitespace does not matter to `Strip`. */
  lemma {:induction false} StripBlankPrefix(sp: String, t: String)
    requires Blank(sp)
    ensures Strip(sp + t) == Strip(t)
    decreases |sp|
  {
    if sp != [] {
      assert (sp + t)[0] == sp[0];
      assert (sp + t)[1..] == sp[1..] + t;
      StripBlankPrefix(sp[1..], t);
    } else {
      assert sp + t == t;
    }
  }

  /** Trailing whitespace after a text that begins with a non-whitespace
      character is peeled off one character at a time. */
  lemma {:induction false} StripWordThenBlank(t: String, sp: String)
    requires t != [] && !IsSpace(t[0])
    requires Blank(sp)
    ensures Strip(t + sp) == Strip(t)
    decreases |sp|
  {
    if sp != [] {
      var u := t + sp;
      assert u[0] == t[0] && u[|u| - 1] == sp[|sp| - 1];
      assert u[..|u| - 1] == t + sp[..|sp| - 1];
      StripWordThenBlank(t, sp[..|sp| - 1]);
    } else {
      assert t + sp == t;
    }
  }

  /** Trailing whitespace does not matter to `Strip`. */
  lemma {:induction false} StripBlankSuffix(t: String, sp: String)
    requires Blank(sp)
    ensures Strip(t + sp) == Strip(t)
    decreases |t|
  {
    if t == [] {
      assert t + sp == sp;
      StripTrims(sp);
    } else if IsSpace(t[0]) {
      assert (t + sp)[0] == t[0];
      assert (t + sp)[1..] == t[1..] + sp;
      StripBlankSuffix(t[1..], sp);
    } else {
      StripWordThenBlank(t, sp);
    }
  }

  /** Stripping a string that is already trimmed changes nothing; in
      particular `Strip` is idempotent. */
  lemma StripOfTrimmed(s: String)
    requires Trimmed(s)
    ensures Strip(s) == s
  {
  }

  /** Stripping keeps a text free of terminators. */
  lemma {:induction false} TerminatorFreeStrip(s: String)
    requires TerminatorFree(s)
    ensures TerminatorFree(Strip(s))
    decreases |s|
  {
    if s != [] && IsSpace(s[0]) {
      assert forall i :: 0 <= i < |s| - 1 ==> s[1..][i] == s[i + 1];
      TerminatorFreeStrip(s[1..]);
    } else if s != [] && IsSpace(s[|s| - 1]) {
      assert forall i :: 0 <= i < |s| - 1 ==> s[..|s| - 1][i] == s[i];
      TerminatorFreeStrip(s[..|s| - 1]);
    }
  }

  /** The characters of `s` that are neither whitespace nor terminators, in order. */
  function Words(s: String): (w: String)
    ensures |w| <= |s|
    ensures forall c :: c in w ==> c in s && !IsSpace(c) && !IsTerminator(c)
  {
    if s == [] then []
    else (if IsSpace(s[0]) || IsTerminator(s[0]) then [] else [s[0]]) + Words(s[1..])
  }

  lemma {:induction false} WordsAppend(a: String, b: String)
    ensures Words(a + b) == Words(a) + Words(b)
    decreases |a|
  {
    if a != [] {
      assert (a + b)[0] == a[0];
      assert (a + b)[1..] == a[1..] + b;
      WordsAppend(a[1..], b);
      var h := if IsSpace(a[0]) || IsTerminator(a[0]) then [] else [a[0]];
      assert Words(a + b) == h + Words(a[1..] + b);
      assert Words(a) == h + Words(a[1..]);
    } else {
      assert a + b == b;
    }
  }

  /** A blank string and a run of terminators contain no words. */
  lemma {:induction false} WordsOfSeparators(s: String)
    requires forall i :: 0 <= i < |s| ==> IsSpace(s[i]) || IsTerminator(s[i])
    ensures Words(s) == []
    decreases |s|
  {
    if s != [] {
      WordsOfSeparators(s[1..]);
    }
  }

  /** Stripping removes only whitespace, so it keeps every word. */
  lemma {:induction false} WordsOfStrip(s: String)
    ensures Words(Strip(s)) == Words(s)
    decreases |s|
  {
    if s != [] && IsSpace(s[0]) {
      WordsOfStrip(s[1..]);
    } else if s != [] && IsSpace(s[|s| - 1]) {
      WordsOfStrip(s[..|s| - 1]);
      WordsDropLast(s);
    }
  }

  lemma WordsDropLast(s: String)
    requires s != [] && IsSpace(s[|s| - 1])
    ensures Words(s) == Words(s[..|s| - 1])
  {
    var t, c := s[..|s| - 1], s[|s| - 1];
    assert s == t + [c];
    WordsAppend(t, [c]);
    assert Words([c]) == [] + Words([]);
  }
}
