/** `split_sentences`: cut a Hindi text into sentences at maximal runs of
    terminators. Each body of the split is stripped; a blank body is dropped
    together with the run that follows it, any other body keeps that run as
    its punctuation; the final body, if it is not blank, is emitted on its own.
    `Segment` states the result as a value and `SplitSentences` computes it
    with the source's index loop. */
module Segmenter {
  import opened Text
  import opened RegexSplit

  /** What a body and the run after it contribute: the stripped body with
      the whole run attached, or nothing when the body is blank. */
  function PairSentence(body: String, run: String): seq<String> {
    var sentence := Strip(body);
    if sentence != [] then [sentence + run] else []
  }

  /** What the final body contributes: itself stripped, unless it is blank. */
  function LastSentence(body: String): seq<String> {
    var sentence := Strip(body);
    if sentence != [] then [sentence] else []
  }

  /** The sentences of a split, pair by pair and then the final body. */
  function Assemble(parts: seq<String>): seq<String>
    decreases |parts|
  {
    if parts == [] then []
    else if |parts| == 1 then LastSentence(parts[0])
    else PairSentence(parts[0], parts[1]) + Assemble(parts[2..])
  }

  /** The list `split_sentences(text)` returns. */
  function Segment(text: String): seq<String> {
    Assemble(ReSplit(text))
  }

  /** A sentence as the segmenter emits it: a non-empty terminator-free body
      that begins and ends with a non-whitespace character, then a possibly
      empty run of terminators. */
  predicate WellFormedSentence(x: String) {
    var n := BodyLen(x);
    0 < n && !IsSpace(x[0]) && !IsSpace(x[n - 1]) && AllTerminators(x[n..])
  }

  /** A well-formed sentence that ends in at least one terminator. */
  predicate Terminated(x: String) {
    WellFormedSentence(x) && BodyLen(x) < |x|
  }

  /** The last non-whitespace character of `text` is a terminator. */
  ghost predicate EndsWithTerminator(text: String) {
    exists i :: 0 <= i < |text| && IsTerminator(text[i]) && Blank(text[i + 1..])
  }

  /** `split_sentences(text)`: split the text, then collect its sentences. */
  method SplitSentences(text: String) returns (complete: seq<String>)
    ensures complete == Segment(text)
  {
    var sentences := ReSplit(text);
    complete := CollectSentences(sentences);
  }

  /** The sentences of the first `n` body/run pairs of a split. */
  function Pairs(parts: seq<String>, n: nat): seq<String>
    requires 2 * n < |parts|
  {
    if n == 0 then [] else Pairs(parts, n - 1) + PairSentence(parts[2 * n - 2], parts[2 * n - 1])
  }

  method CollectSentences(sentences: seq<String>) returns (complete: seq<String>)
    requires |sentences| % 2 == 1
    ensures complete == Assemble(sentences)
  {
    complete := [];
    var i := 0;
    ghost var pairs := 0;
    while i < |sentences| - 1
      invariant i == 2 * pairs && 2 * pairs < |sentences|
      invariant complete == Pairs(sentences, pairs)
    {
      var sentence := Strip(sentences[i]);
      // the split has odd length, so the `else` never applies
      assert i + 1 < |sentences|;
      var punctuation := if i + 1 < |sentences| then sentences[i + 1] else [];
      if sentence != [] {
        complete := complete + [sentence + punctuation];
      }
      i := i + 2;
      pairs := pairs + 1;
    }
    var last := Strip(sentences[|sentences| - 1]);
    if last != [] {
      complete := complete + [last];
    }
    AssembleFromPairs(sentences, pairs);
    assert sentences[i..] == [sentences[i]];
  }

  /** The split's sentences are those of its first `n` pairs followed by
      those of the rest. */
  lemma {:induction false} AssembleFromPairs(parts: seq<String>, n: nat)
    requires 2 * n < |parts|
    ensures Assemble(parts) == Pairs(parts, n) + Assemble(parts[2 * n..])
  {
    if n == 0 {
      assert parts[0..] == parts;
    } else {
      var front, pair, rest := Pairs(parts, n - 1), PairSentence(parts[2 * n - 2], parts[2 * n - 1]), Assemble(parts[2 * n..]);
      AssembleFromPairs(parts, n - 1);
      assert Assemble(parts) == front + Assemble(parts[2 * n - 2..]);
      AssembleStep(parts, 2 * n - 2);
      assert Assemble(parts[2 * n - 2..]) == pair + rest;
      assert Assemble(parts) == front + (pair + rest);
      assert front + (pair + rest) == front + pair + rest;
      assert Pairs(parts, n) == front + pair;
    }
  }

  /** One step of the loop: a pair at an even position is followed by the
      rest of the split. */
  lemma AssembleStep(parts: seq<String>, i: nat)
    requires i + 1 < |parts|
    ensures Assemble(parts[i..]) == PairSentence(parts[i], parts[i + 1]) + Assemble(parts[i + 2..])
  {
    assert parts[i..][2..] == parts[i + 2..];
  }

  /** A trimmed terminator-free body followed by a run of terminators is a
      terminated sentence that is its own strip. */
  lemma TerminatedSentence(sentence: String, run: String)
    requires sentence != [] && Trimmed(sentence) && TerminatorFree(sentence)
    requires run != [] && AllTerminators(run)
    ensures Terminated(sentence + run) && Strip(sentence + run) == sentence + run
  {
    var x := sentence + run;
    BodyLenOf(sentence, run);
    assert x[..|sentence|] == sentence && x[|sentence|..] == run;
    assert x[|x| - 1] == run[|run| - 1];
    assert x[0] == sentence[0];
    StripOfTrimmed(x);
  }

  /** A trimmed terminator-free body alone is a well-formed sentence without
      a terminator, and its own strip. */
  lemma BareSentence(sentence: String)
    requires sentence != [] && Trimmed(sentence) && TerminatorFree(sentence)
    ensures WellFormedSentence(sentence) && !Terminated(sentence) && Strip(sentence) == sentence
  {
    BodyLenOf(sentence, []);
    assert sentence + [] == sentence;
    StripOfTrimmed(sentence);
  }

  /** A pair contributes at most one sentence, terminated and its own strip. */
  lemma PairSentenceShape(body: String, run: String)
    requires TerminatorFree(body)
    requires run != [] && AllTerminators(run)
    ensures forall x :: x in PairSentence(body, run) ==> Terminated(x) && Strip(x) == x
  {
    if Strip(body) != [] {
      StripTrims(body);
      TerminatorFreeStrip(body);
      TerminatedSentence(Strip(body), run);
    }
  }

  /** The final body contributes at most one sentence, without a terminator
      and its own strip. */
  lemma LastSentenceShape(body: String)
    requires TerminatorFree(body)
    ensures forall x :: x in LastSentence(body) ==> WellFormedSentence(x) && !Terminated(x) && Strip(x) == x
  {
    if Strip(body) != [] {
      StripTrims(body);
      TerminatorFreeStrip(body);
      BareSentence(Strip(body));
    }
  }

  /** Every sentence of the first `n` pairs is terminated and its own strip. */
  lemma {:induction false} PairsShapes(parts: seq<String>, n: nat)
    requires Alternation(parts) && 2 * n < |parts|
    ensures forall x :: x in Pairs(parts, n) ==> Terminated(x) && Strip(x) == x
  {
    if n > 0 {
      PairsShapes(parts, n - 1);
      AlternationPair(parts, n - 1);
      PairSentenceShape(parts[2 * n - 2], parts[2 * n - 1]);
    }
  }

  /** The sentences of a text are those of all pairs of its split, then
      those of the final body. */
  lemma SegmentAsPairs(text: String) returns (parts: seq<String>, m: nat)
    ensures parts == ReSplit(text) && Alternation(parts) && |parts| == 2 * m + 1
    ensures Segment(text) == Pairs(parts, m) + LastSentence(parts[2 * m])
  {
    parts := ReSplit(text);
    ReSplitAlternates(text);
    m := |parts| / 2;
    AssembleFromPairs(parts, m);
    assert parts[2 * m..] == [parts[2 * m]];
  }

  /** Every sentence is non-empty and its own strip, so the writer's second
      `strip()` and its `if sentence` change nothing. Every sentence is a
      stripped terminator-free body followed by one run of terminators;
      only the last one may lack the run. */
  lemma SegmentShapes(text: String)
    ensures forall x :: x in Segment(text) ==> x != [] && Strip(x) == x && WellFormedSentence(x)
    ensures forall k :: 0 <= k < |Segment(text)| - 1 ==> Terminated(Segment(text)[k])
  {
    var parts, m := SegmentAsPairs(text);
    PairsShapes(parts, m);
    AlternationLast(parts);
    LastSentenceShape(parts[2 * m]);
    var front, last := Pairs(parts, m), LastSentence(parts[2 * m]);
    forall k | 0 <= k < |Segment(text)| - 1 ensures Terminated(Segment(text)[k]) {
      assert Segment(text)[k] == front[k];
    }
  }

  /** A text whose last non-whitespace character is a terminator leaves no
      unterminated fragment: every sentence ends in a terminator. */
  lemma TerminatedTextLeavesNoFragment(text: String)
    requires EndsWithTerminator(text)
    ensures forall x :: x in Segment(text) ==> Terminated(x)
  {
    var parts, m := SegmentAsPairs(text);
    ReSplitJoin(text);
    JoinLast(parts);
    AlternationLast(parts);
    BlankAfterLastTerminator(text, Join(parts[..2 * m]), parts[2 * m]);
    StripTrims(parts[2 * m]);
    PairsShapes(parts, m);
    assert Segment(text) == Pairs(parts, m) + [];
  }

  lemma JoinLast(parts: seq<String>)
    requires parts != []
    ensures Join(parts) == Join(parts[..|parts| - 1]) + parts[|parts| - 1]
  {
    var m := |parts| - 1;
    assert parts == parts[..m] + [parts[m]];
    JoinAppend(parts[..m], [parts[m]]);
    JoinSingle(parts[m]);
  }

  /** When the text ends with a terminator and trailing whitespace, a
      terminator-free tail of it can only be whitespace. */
  lemma BlankAfterLastTerminator(text: String, front: String, last: String)
    requires EndsWithTerminator(text)
    requires text == front + last && TerminatorFree(last)
    ensures Blank(last)
  {
    var i :| 0 <= i < |text| && IsTerminator(text[i]) && Blank(text[i + 1..]);
    var p := |front|;
    forall j | 0 <= j < |last| ensures IsSpace(last[j]) {
      assert last[j] == text[p + j];
      assert text[p + j] == text[i + 1..][p + j - i - 1];
    }
  }

  /** Text without any terminator is one sentence, the stripped text, or
      none when the text is blank; in particular the empty text has none. */
  lemma NoTerminatorText(text: String)
    requires TerminatorFree(text)
    ensures Segment(text) == if Strip(text) != [] then [Strip(text)] else []
    ensures |Segment(text)| <= 1
  {
    ReSplitNoTerminator(text);
  }

  /** A run of any number of terminators after a non-blank body is a single
      boundary: it is attached whole to that body and the rest of the text
      is segmented on its own. */
  lemma RunIsOneBoundary(body: String, run: String, rest: String)
    requires TerminatorFree(body) && Strip(body) != []
    requires run != [] && AllTerminators(run)
    requires rest == [] || !IsTerminator(rest[0])
    ensures Segment(body + run + rest) == [Strip(body) + run] + Segment(rest)
  {
    ReSplitStep(body, run, rest);
    assert ([body, run] + ReSplit(rest))[2..] == ReSplit(rest);
  }

  /** A blank body is dropped together with the run that follows it, so
      terminators at the start of the text disappear. */
  lemma BlankBodyDropped(body: String, run: String, rest: String)
    requires Blank(body)
    requires run != [] && AllTerminators(run)
    requires rest == [] || !IsTerminator(rest[0])
    ensures Segment(body + run + rest) == Segment(rest)
  {
    assert TerminatorFree(body);
    StripTrims(body);
    ReSplitStep(body, run, rest);
    assert ([body, run] + ReSplit(rest))[2..] == ReSplit(rest);
  }

  lemma {:induction false} AssembleCount(parts: seq<String>)
    requires |parts| % 2 == 1
    ensures 2 * |Assemble(parts)| <= |parts| + 1
    decreases |parts|
  {
    if |parts| > 1 {
      AssembleCount(parts[2..]);
    }
  }

  /** There are at most as many sentences as maximal terminator runs, plus
      one for a trailing fragment. */
  lemma SentenceCountBound(text: String)
    ensures |Segment(text)| <= RunCount(text) + 1
  {
    AssembleCount(ReSplit(text));
    ReSplitCountsRuns(text);
  }

  /** A pair's sentence holds the words of the body and its run. */
  lemma PairWords(body: String, run: String)
    requires AllTerminators(run)
    ensures Words(Join(PairSentence(body, run))) == Words(body + run)
  {
    WordsAppend(body, run);
    WordsOfSeparators(run);
    WordsOfStrip(body);
    StripTrims(body);
    if Strip(body) == [] {
      WordsOfSeparators(body);
      assert Join([]) == [];
    } else {
      JoinPair(Strip(body) + run, []);
      assert Strip(body) + run + [] == Strip(body) + run;
      WordsAppend(Strip(body), run);
    }
  }

  /** The final sentence holds the words of the final body. */
  lemma LastWords(body: String)
    ensures Words(Join(LastSentence(body))) == Words(body)
  {
    WordsOfStrip(body);
    StripTrims(body);
    if Strip(body) == [] {
      WordsOfSeparators(body);
      assert Join([]) == [];
    } else {
      JoinSingle(Strip(body));
    }
  }

  /** The words of consecutive lists of pieces, joined, are those of each. */
  lemma JoinWords(a: seq<String>, b: seq<String>)
    ensures Words(Join(a + b)) == Words(Join(a)) + Words(Join(b))
  {
    JoinAppend(a, b);
    WordsAppend(Join(a), Join(b));
  }

  lemma {:induction false} AssembleWords(parts: seq<String>)
    requires Alternation(parts)
    ensures Words(Join(Assemble(parts))) == Words(Join(parts))
    decreases |parts|
  {
    if |parts| == 1 {
      LastWords(parts[0]);
      assert parts == [parts[0]];
      JoinSingle(parts[0]);
    } else {
      var tail := parts[2..];
      AlternationTail(parts);
      AssembleWords(tail);
      JoinWords(PairSentence(parts[0], parts[1]), Assemble(tail));
      PairWords(parts[0], parts[1]);
      JoinSplitOff(parts);
      WordsAppend(parts[0] + parts[1], Join(tail));
    }
  }

  /** Every sentence begins with a word character. */
  lemma SentenceHasWord(x: String)
    requires WellFormedSentence(x)
    ensures Words(x) != [] && Words(x)[0] == x[0]
  {
    assert x[..BodyLen(x)][0] == x[0];
  }

  /** Document order, and nothing lost but separators: the sentences, read
      one after the other, hold exactly the characters of the text that are
      neither whitespace nor terminators, in the same order. */
  lemma WordsPreserved(text: String)
    ensures Words(Join(Segment(text))) == Words(text)
  {
    ReSplitAlternates(text);
    ReSplitJoin(text);
    AssembleWords(ReSplit(text));
  }

  /** The empty text has no sentences. */
  lemma EmptyTextExample()
    ensures Segment("") == []
  {
    NoTerminatorText("");
  }

  /** A non-blank body that is its own strip, as a sentence without spaces
      around it. */
  predicate Clean(body: String) {
    body != [] && Trimmed(body) && TerminatorFree(body)
  }

  /** Two sentences, each closed by its own run of terminators and the
      second one preceded by whitespace, come out in order, without that
      whitespace and with their runs attached. */
  lemma TwoSentences(a: String, d1: String, sp: String, b: String, d2: String)
    requires Clean(a) && Clean(b) && Blank(sp)
    requires d1 != [] && AllTerminators(d1) && d2 != [] && AllTerminators(d2)
    ensures Segment(a + d1 + (sp + b) + d2) == [a + d1, b + d2]
  {
    var second := sp + b;
    StripOfTrimmed(a);
    StripOfTrimmed(b);
    StripBlankPrefix(sp, b);
    BlankIsTerminatorFree(sp);
    assert TerminatorFree(second);
    EmptyTextExample();
    RunIsOneBoundary(second, d2, []);
    assert second + d2 + [] == second + d2;
    assert (second + d2)[0] == second[0];
    RunIsOneBoundary(a, d1, second + d2);
    assert a + d1 + (second + d2) == a + d1 + second + d2;
  }

  /** Text after the last run of terminators is kept as a final sentence
      without punctuation. */
  lemma TrailingFragment(a: String, d: String, b: String)
    requires Clean(a) && Clean(b)
    requires d != [] && AllTerminators(d)
    ensures Segment(a + d + b) == [a + d, b]
  {
    StripOfTrimmed(a);
    StripOfTrimmed(b);
    NoTerminatorText(b);
    RunIsOneBoundary(a, d, b);
  }

  /** Whitespace around a sentence is removed, and terminators with nothing
      but whitespace before them are dropped. */
  lemma SpacesAndLeadingPunctuation(sp: String, d: String, a: String, e: String)
    requires Blank(sp) && Clean(a)
    requires d != [] && AllTerminators(d) && e != [] && AllTerminators(e)
    ensures Segment(sp + d + (sp + a + sp + e + sp)) == [a + e]
  {
    var body := sp + a + sp;
    BlankIsTerminatorFree(sp);
    StripTrims(sp);
    NoTerminatorText(sp);
    StripBlankPrefix(sp, a + sp);
    StripBlankSuffix(a, sp);
    StripOfTrimmed(a);
    assert sp + (a + sp) == body;
    assert TerminatorFree(body);
    RunIsOneBoundary(body, e, sp);
    assert (body + e + sp)[0] == if sp != [] then sp[0] else a[0];
    BlankBodyDropped(sp, d, body + e + sp);
    assert sp + a + sp + e + sp == body + e + sp;
  }
}
