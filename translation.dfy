/** The two translation pipelines around the segmenter: `translate_pdf`
    (extracted PDF text) and `translate_file` (a text file). Both segment the
    text, send every non-blank stripped sentence to the translation service in
    order, and write each translation followed by one space. The service is a
    parameter: it maps the index of a call and the text sent to the outcome of
    that call, so nothing here performs a request. */
module Translation {
  import opened Text
  import opened RegexSplit
  import opened Segmenter

  datatype Option<T> = None | Some(value: T)

  /** What one request to the translation service yields. */
  datatype Outcome =
    | Raised                  // the request or the decoding raised an exception
    | Falsy                   // the decoded `result` or `result[0]` is empty
    | FirstSegment(text: String) // `result[0][0][0]`, the first translated segment

  /** The outcome of the `n`-th request (counted from 0) for `text`. */
  type Service = (nat, String) -> Outcome

  /** `translate_hindi_to_english` / `hindi_to_english`: the first translated
      segment when the service returns one, otherwise the input itself. */
  function Translate(text: String, outcome: Outcome): (r: String)
    ensures outcome.FirstSegment? ==> r == outcome.text
    ensures !outcome.FirstSegment? ==> r == text
  {
    match outcome
    case FirstSegment(t) => t
    case _ => text
  }

  /** The texts sent to the service for a list of sentences: each sentence
      stripped, blank ones skipped, in order. */
  function Requests(sentences: seq<String>): seq<String> {
    if sentences == [] then []
    else
      var sentence := Strip(sentences[|sentences| - 1]);
      Requests(sentences[..|sentences| - 1]) + (if sentence != [] then [sentence] else [])
  }

  /** What is written for the requests `r`: for each in order, its
      translation by the call with the same index, then one space. */
  function Rendered(r: seq<String>, service: Service): String {
    if r == [] then []
    else
      var k := |r| - 1;
      Rendered(r[..k], service) + Translate(r[k], service(k, r[k])) + " "
  }

  /** The loop of `translate_file` and `translate_pdf` over the sentences:
      strip each one, skip it when blank, otherwise translate it and append
      the translation and a space to the output. `requests` records the
      texts sent to the service, in order. */
  method WriteTranslations(sentences: seq<String>, service: Service) returns (written: String, requests: seq<String>)
    ensures requests == Requests(sentences)
    ensures written == Rendered(requests, service)
  {
    written := [];
    requests := [];
    var k := 0;
    while k < |sentences|
      invariant 0 <= k <= |sentences|
      invariant requests == Requests(sentences[..k])
      invariant written == Rendered(requests, service)
    {
      var sentence := Strip(sentences[k]);
      if sentence != [] {
        var translated := Translate(sentence, service(|requests|, sentence));
        written := written + translated + " ";
        assert (requests + [sentence])[..|requests|] == requests;
        requests := requests + [sentence];
      }
      assert sentences[..k + 1][..k] == sentences[..k];
      k := k + 1;
    }
    assert sentences[..k] == sentences;
  }

  /** `translate_file`: segment the whole content and write the
      translations. */
  method TranslateFile(content: String, service: Service) returns (written: String, requests: seq<String>)
    ensures requests == Segment(content)
    ensures written == Rendered(Segment(content), service)
  {
    var sentences := SplitSentences(content);
    written, requests := WriteTranslations(sentences, service);
    SegmentRequests(content);
  }

  /** `translate_pdf`: stop without writing anything when extraction gave
      no text (`None` or the empty string); otherwise segment the text and
      write the translations. */
  method TranslatePdf(extracted: Option<String>, service: Service) returns (written: Option<String>, requests: seq<String>)
    ensures written.None? <==> extracted.None? || extracted.value == []
    ensures written.None? ==> requests == []
    ensures written.Some? ==> requests == Segment(extracted.value)
    ensures written.Some? ==> written.value == Rendered(Segment(extracted.value), service)
  {
    if extracted.None? || extracted.value == [] {
      return None, [];
    }
    var sentences := SplitSentences(extracted.value);
    var out;
    out, requests := WriteTranslations(sentences, service);
    SegmentRequests(extracted.value);
    written := Some(out);
  }

  /** Sentences that are non-blank and their own strip are sent as they
      are. */
  lemma {:induction false} RequestsOfStripped(sentences: seq<String>)
    requires forall x :: x in sentences ==> x != [] && Strip(x) == x
    ensures Requests(sentences) == sentences
    decreases |sentences|
  {
    if sentences != [] {
      var k := |sentences| - 1;
      assert forall x :: x in sentences[..k] ==> x in sentences;
      RequestsOfStripped(sentences[..k]);
      assert sentences[k] in sentences;
      assert sentences == sentences[..k] + [sentences[k]];
    }
  }

  /** The writer's second `strip()` and its `if sentence` change nothing on
      the segmenter's output: one request per sentence, with the sentence
      itself, in document order. */
  lemma SegmentRequests(text: String)
    ensures Requests(Segment(text)) == Segment(text)
  {
    SegmentShapes(text);
    RequestsOfStripped(Segment(text));
  }

  /** Every request contributes at least its space, so the output is empty
      exactly when nothing was sent, and otherwise ends with a space. */
  lemma RenderedShape(r: seq<String>, service: Service)
    ensures Rendered(r, service) == [] <==> r == []
    ensures r != [] ==> Rendered(r, service)[|Rendered(r, service)| - 1] == ' '
  {
  }

  /** Each sentence followed by one space: what is written when no request
      yields a translation. */
  function Spaced(r: seq<String>): String {
    if r == [] then [] else Spaced(r[..|r| - 1]) + r[|r| - 1] + " "
  }

  /** A failed or empty response contributes the sentence itself: when no
      call yields a translated segment, the output is the requests, each
      followed by a space. */
  lemma {:induction false} RenderedFallback(r: seq<String>, service: Service)
    requires forall k :: 0 <= k < |r| ==> !service(k, r[k]).FirstSegment?
    ensures Rendered(r, service) == Spaced(r)
    decreases |r|
  {
    if r != [] {
      var k := |r| - 1;
      assert forall j :: 0 <= j < k ==> r[..k][j] == r[j];
      RenderedFallback(r[..k], service);
    }
  }

  /** The piece written for each request, in order: its translation and
      one space. */
  function Pieces(r: seq<String>, service: Service): seq<String> {
    seq(|r|, k requires 0 <= k < |r| => Translate(r[k], service(k, r[k])) + " ")
  }

  /** The output is the in-order concatenation of the pieces, one per
      request. */
  lemma {:induction false} RenderedIsJoinOfPieces(r: seq<String>, service: Service)
    ensures Rendered(r, service) == Join(Pieces(r, service))
    decreases |r|
  {
    if r != [] {
      var k := |r| - 1;
      RenderedIsJoinOfPieces(r[..k], service);
      var piece := Translate(r[k], service(k, r[k])) + " ";
      assert Pieces(r, service) == Pieces(r[..k], service) + [piece];
      JoinAppend(Pieces(r[..k], service), [piece]);
      JoinSingle(piece);
    }
  }

  /** A failed call costs only its own sentence: when two services agree on
      every call but call `i`, and call `i` fails under the second, the
      output under the second differs only in piece `i`, which is the
      request itself and a space. */
  lemma OnePositionFails(r: seq<String>, s1: Service, s2: Service, i: nat)
    requires i < |r|
    requires forall k :: 0 <= k < |r| && k != i ==> s1(k, r[k]) == s2(k, r[k])
    requires !s2(i, r[i]).FirstSegment?
    ensures Rendered(r, s2) == Join(Pieces(r, s2))
    ensures |Pieces(r, s2)| == |Pieces(r, s1)| == |r|
    ensures forall k :: 0 <= k < |r| && k != i ==> Pieces(r, s2)[k] == Pieces(r, s1)[k]
    ensures Pieces(r, s2)[i] == r[i] + " "
  {
    RenderedIsJoinOfPieces(r, s2);
  }

  /** A text yields no sentence, and so no request and an empty output,
      exactly when it holds nothing but whitespace and terminators. */
  lemma NoSentencesIffNoWords(text: String)
    ensures Segment(text) == [] <==> Words(text) == []
  {
    WordsPreserved(text);
    if Segment(text) != [] {
      var x := Segment(text)[0];
      SegmentShapes(text);
      assert x in Segment(text);
      SentenceHasWord(x);
      assert Join(Segment(text)) == x + Join(Segment(text)[1..]);
      WordsAppend(x, Join(Segment(text)[1..]));
    }
  }
}
