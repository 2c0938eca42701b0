# Hindi sentence segmenter and translation loop

A Dafny model of the sentence segmenter `split_sentences` of the Hindi-to-English
translators, and of the loops that send each sentence to the translation service
and write the results. The segmenter has two identical copies, in
`HindiToEngGoogle/translate.py` and `HindiToEng/fileTranslate.py`. The loops are
`translate_pdf` and `translate_file`.

The segmenter splits the text with `re.split(r'([।॥!?]+)', text)`. Then it walks the
pieces two at a time: a body, and the run of terminators after it. Each body is
stripped. A blank body is dropped together with its run; any other body gets its
run attached. The final body is emitted stripped, unless it is blank.

The writers strip each sentence again and skip blank ones. They translate every
remaining sentence and write the translation followed by one space. When the
request fails, or its response is empty, the translator returns its input
unchanged.

Files and modules:

- `text.dfy` (`Text`) holds the characters and strings. It defines the terminator set
  (U+0964 DEVANAGARI DANDA, U+0965 DEVANAGARI DOUBLE DANDA, `!`, `?`) and the
  whitespace set of Python's `str.isspace`. It also defines `Strip`, which models
  `str.strip()`, and `Words`, the characters that are neither whitespace nor
  terminators.
- `regex_split.dfy` (`RegexSplit`) holds `ReSplit`, the capturing split on maximal
  terminator runs. The lemmas prove that its result is an alternation of bodies and
  maximal runs, that it concatenates back to the text, and that it is the only
  alternation that does.
- `segmenter.dfy` (`Segmenter`) holds `Segment`, the specification of what
  `split_sentences` returns. `SplitSentences` and `CollectSentences` compute it with
  the source's step-2 index loop. The lemmas state the properties of the result.
- `translation.dfy` (`Translation`) holds the translator's fallback rule `Translate`.
  `WriteTranslations` is the per-sentence write loop. `TranslateFile` and
  `TranslatePdf` are the two pipelines, with the translation service passed in as a
  function from call index and text to the outcome of that call.

A run of terminators that follows a blank body is dropped along with the body, so
`"।A"` yields `["A"]` and terminators at the start of the text are lost.
`BlankBodyDropped` states this, and `WordsPreserved` states what survives: every
character that is neither whitespace nor a terminator, in document order.

## Model

| member | source | states |
|---|---|---|
| Text.Strip | HindiToEngGoogle/translate.py:78 | `str.strip()`: drops whitespace characters from both ends until each end is a non-whitespace character or the text is empty |
| Text.StripTrims | HindiToEngGoogle/translate.py:78 | a stripped body begins and ends with a non-whitespace character, and it is empty exactly when the body is blank, so `if sentence` tests for a blank body |
| Text.StripIsSlice | HindiToEng/fileTranslate.py:47 | `strip()` only removes whitespace around the text: the result sits in the text between a blank prefix and a blank suffix |
| Text.StripBlankPrefix | HindiToEng/fileTranslate.py:47 | leading whitespace makes no difference to `strip()` |
| Text.StripBlankSuffix | HindiToEng/fileTranslate.py:55 | trailing whitespace makes no difference to `strip()` |
| Text.StripOfTrimmed | HindiToEngGoogle/translate.py:137 | stripping a text that is already trimmed changes nothing (strip is idempotent) |
| Text.TerminatorFreeStrip | HindiToEngGoogle/translate.py:78 | stripping a body keeps it free of terminators |
| Text.WordsOfStrip | HindiToEng/fileTranslate.py:47 | stripping keeps every character that is neither whitespace nor a terminator |
| Text.WordsAppend | HindiToEng/fileTranslate.py:51 | the words of a concatenation are the words of each part, in order |
| RegexSplit.BodyLen | HindiToEngGoogle/translate.py:74 | the split finds the next match at the end of the longest terminator-free prefix |
| RegexSplit.RunLen | HindiToEngGoogle/translate.py:74 | the greedy `+` takes the longest run of terminators, and at least one terminator when the text starts with one |
| RegexSplit.ReSplit | HindiToEngGoogle/translate.py:74 | `re.split` with a capturing group returns a list of odd length |
| RegexSplit.ReSplitAlternates | HindiToEngGoogle/translate.py:74 | the split alternates terminator-free bodies and non-empty terminator runs, and a body between two runs is never empty, so each run is maximal |
| RegexSplit.ReSplitJoin | HindiToEng/fileTranslate.py:43 | the pieces of the split concatenate back to the text |
| RegexSplit.ReSplitUnique | HindiToEngGoogle/translate.py:74 | any alternation of bodies and maximal runs that concatenates to the text is the split, so `ReSplit` is the regex split and not one choice among several |
| RegexSplit.ReSplitStep | HindiToEng/fileTranslate.py:43 | a body followed by a maximal run becomes the first two pieces, and the rest is split on its own |
| RegexSplit.ReSplitNoTerminator | HindiToEngGoogle/translate.py:74 | a text without terminators is not split |
| RegexSplit.ReSplitCountsRuns | HindiToEng/fileTranslate.py:43 | the split has two pieces per maximal terminator run in the text, plus one |
| Segmenter.Segment | HindiToEngGoogle/translate.py:69-87 | the list `split_sentences` returns: the sentences assembled from the regex split of the text |
| Segmenter.PairSentence | HindiToEngGoogle/translate.py:78-82 | what one loop iteration appends: the stripped body with its whole run attached, or nothing when the body is blank |
| Segmenter.LastSentence | HindiToEngGoogle/translate.py:84-85 | what the final append adds: the final body stripped, or nothing when it is blank |
| Segmenter.Assemble | HindiToEngGoogle/translate.py:76-85 | the sentences of a split: pair by pair at even indices, then the final body |
| Segmenter.SplitSentences | HindiToEngGoogle/translate.py:69-87 | `split_sentences` returns exactly `Segment(text)` |
| Segmenter.CollectSentences | HindiToEng/fileTranslate.py:45-57 | the step-2 loop and the final append build exactly the sentences of the split's pairs, then of the final body |
| Segmenter.AssembleFromPairs | HindiToEngGoogle/translate.py:77-82 | after n iterations the sentences are those of the first n pairs, and the rest of the split still has to follow |
| Segmenter.AssembleStep | HindiToEng/fileTranslate.py:46-51 | one iteration at an even index handles the pair at that index, then the rest of the split |
| Segmenter.PairSentenceShape | HindiToEngGoogle/translate.py:78-82 | a pair contributes at most one sentence, which is terminated and its own strip |
| Segmenter.LastSentenceShape | HindiToEngGoogle/translate.py:84-85 | the final body contributes at most one sentence, which is well formed, has no terminator and is its own strip |
| Segmenter.PairsShapes | HindiToEng/fileTranslate.py:46-51 | every sentence built from the pairs is terminated and its own strip |
| Segmenter.SegmentShapes | HindiToEng/fileTranslate.py:47-55 | every sentence is non-empty, equal to its own strip, and a trimmed terminator-free body followed by a run of terminators; every sentence except possibly the last has a non-empty run |
| Segmenter.TerminatedTextLeavesNoFragment | HindiToEngGoogle/translate.py:84-85 | when the last non-whitespace character of the text is a terminator, every sentence ends in a terminator |
| Segmenter.NoTerminatorText | HindiToEngGoogle/translate.py:74-85 | a text without terminators yields `[text.strip()]`, or `[]` when that is empty, so at most one sentence |
| Segmenter.EmptyTextExample | HindiToEngGoogle/translate.py:69-87 | the empty text yields no sentence |
| Segmenter.RunIsOneBoundary | HindiToEngGoogle/translate.py:74-82 | a run of several terminators after a non-blank body is attached whole to that body, and the rest of the text is segmented on its own |
| Segmenter.BlankBodyDropped | HindiToEngGoogle/translate.py:78-82 | a blank body is dropped together with the run after it, so leading terminators disappear |
| Segmenter.AssembleCount | HindiToEng/fileTranslate.py:46-55 | the loop and the final append emit at most one sentence per pair plus one |
| Segmenter.SentenceCountBound | HindiToEng/fileTranslate.py:43-55 | there are at most as many sentences as maximal terminator runs, plus one |
| Segmenter.PairWords | HindiToEng/fileTranslate.py:47-51 | a pair's sentence holds exactly the words of its body and run |
| Segmenter.LastWords | HindiToEng/fileTranslate.py:54-55 | the final sentence holds exactly the words of the final body |
| Segmenter.AssembleWords | HindiToEng/fileTranslate.py:45-55 | the sentences of a split, read in order, hold exactly the words of its pieces |
| Segmenter.WordsPreserved | HindiToEng/fileTranslate.py:43-57 | document order, and only separators are lost: the sentences read in order hold exactly the non-whitespace, non-terminator characters of the text |
| Segmenter.SentenceHasWord | HindiToEng/fileTranslate.py:50-51 | every emitted sentence begins with a character that is neither whitespace nor a terminator |
| Segmenter.TwoSentences | HindiToEngGoogle/translate.py:74-85 | two bodies closed by runs, the second after whitespace, give the two sentences in order with their runs |
| Segmenter.TrailingFragment | HindiToEng/fileTranslate.py:53-55 | text after the last run is kept as a final sentence without punctuation, so `A।।B` gives `A।।` and `B` |
| Segmenter.SpacesAndLeadingPunctuation | HindiToEngGoogle/translate.py:78-85 | whitespace around a body is removed and terminators with only whitespace before them are dropped |
| Translation.Translate | HindiToEng/fileTranslate.py:27-32 | the translator returns the first translated segment when there is one; when the request raised or the response or its first element is empty, it returns its input unchanged |
| Translation.Requests | HindiToEngGoogle/translate.py:137-138 | the texts sent to the service: each sentence stripped, blank ones skipped, in order |
| Translation.Rendered | HindiToEngGoogle/translate.py:139-140 | the text written: for each request in order, its translation by the call with the same index, then one space |
| Translation.WriteTranslations | HindiToEngGoogle/translate.py:135-140 | the write loop sends the stripped non-blank sentences in order, one call each, and writes `Rendered` of those requests |
| Translation.TranslateFile | HindiToEng/fileTranslate.py:59-82 | `translate_file` sends exactly the segmenter's sentences, in order, and writes their translations, each followed by a space |
| Translation.TranslatePdf | HindiToEngGoogle/translate.py:121-140 | `translate_pdf` writes nothing and sends nothing when extraction gave no text; otherwise it behaves like `translate_file` on the extracted text |
| Translation.RequestsOfStripped | HindiToEngGoogle/translate.py:137-138 | sentences that are non-blank and their own strip are sent as they are, one call each |
| Translation.SegmentRequests | HindiToEng/fileTranslate.py:79-81 | on the segmenter's output the second `strip()` and the `if sentence` change nothing: one request per sentence, with the sentence itself |
| Translation.RenderedShape | HindiToEng/fileTranslate.py:77-82 | the output is empty exactly when nothing was sent, and otherwise it ends with a space |
| Translation.RenderedFallback | HindiToEngGoogle/translate.py:105-108 | when no call yields a translated segment, the output is the sentences themselves, each followed by a space |
| Translation.OnePositionFails | HindiToEngGoogle/translate.py:105-108 | a failed call costs only its own sentence: if two services agree except at call i, where the second fails, the outputs differ only in piece i, which is the request itself and a space |
| Translation.RenderedIsJoinOfPieces | HindiToEngGoogle/translate.py:136-140 | the output is the in-order concatenation of the pieces |
| Translation.NoSentencesIffNoWords | HindiToEng/fileTranslate.py:72-82 | a text yields no sentence, so no request and an empty output, exactly when it holds nothing but whitespace and terminators |

## Left out

- PDF text extraction (pdfplumber, PyPDF2, the `pip install` retry) is not modelled. Nor is `pdfToKutridev.py`. `TranslatePdf` takes the extraction result as a parameter, `None` or a string.
- The HTTP request and the JSON decoding are not modelled. The service is a parameter that gives the outcome of each call: it raised, the response or its first element was empty, or the first translated segment came back.
- An `IndexError` from `result[0][0][0]` on a malformed response is caught as an exception. The model folds it into the `Raised` outcome.
- `HindiToEng/Texttranslate.py` is not part of this model. It contains only network and MarianMT wrappers.
- The file reads and writes are not modelled. The output file is modelled as the string written to it. The environment settings, progress printing, `glob` discovery and `sys.exit` are left out too.
- The `FileNotFoundError` and general exception handlers around the pipelines are left out. They only print a message.
- Translation.Translate: a non-string first segment is not modelled. The outcome carries a string.
- Text.Strip: whitespace is Python's `str.isspace` set written out. Unicode normalisation and surrogate handling are not modelled, because `String` is a sequence of code points.
- Segmenter.CollectSentences: it requires the odd length that the regex split guarantees, because the loop is only ever applied to a split.
