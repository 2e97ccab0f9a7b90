/**
 * The `TextAnalyzer` HTTP handler: how it picks the text, the statistics it
 * computes from it, the preview it stores, and the response it returns.
 * Every statistic is a pure function of the text.
 */
module TextAnalyzer {
  import opened Wrappers
  import opened PyStr

  /** Characters that may appear in a preview before it is cut. */
  const PreviewLength: nat := 100
  /** Appended to a preview that was cut. */
  const TruncationMarker: string := "..."
  /** The separator between paragraphs (a blank line). */
  const ParagraphBreak: string := "\n\n"

  /** The character class of the pattern `[.!?]+` that ends a sentence. */
  predicate IsSentenceEnd(c: char) {
    c == '.' || c == '!' || c == '?'
  }

  /**
   * `text.split()`: the whitespace-delimited tokens. Each is non-empty and
   * holds no whitespace; there are none exactly when the text is blank; and
   * laid end to end they are the text's non-whitespace characters, in order.
   */
  function Words(text: string): (ws: seq<string>)
    ensures forall k :: 0 <= k < |ws| ==> ws[k] != [] && AllSatisfy(ws[k], IsWordChar)
    ensures ws == [] <==> AllSpace(text)
    ensures Concat(ws) == Filter(text, IsWordChar)
    ensures |ws| == RunStarts(text, IsWordChar, false)
  {
    RunsEmptyIff(text, IsWordChar);
    RunsConcat(text, IsWordChar);
    RunsCount(text, IsWordChar);
    Runs(text, IsWordChar)
  }

  /** `" ".join(ws).split() == ws` for tokens that hold no whitespace. */
  lemma WordsOfJoin(ws: seq<string>)
    requires forall k :: 0 <= k < |ws| ==> ws[k] != [] && AllSatisfy(ws[k], IsWordChar)
    ensures Words(Join(ws, " ")) == ws
  {
    RunsOfJoin(ws, " ", IsWordChar);
  }

  /**
   * Whitespace separates tokens: the tokens of `a + [c] + b` for a whitespace
   * `c` are those of `a` followed by those of `b`. With `WordsOfToken` this
   * determines `Words` on every text.
   */
  lemma WordsSplitAt(a: string, c: char, b: string)
    requires IsSpace(c)
    ensures Words(a + [c] + b) == Words(a) + Words(b)
  {
    RunsSplitAt(a, c, b, IsWordChar);
  }

  /** A non-empty text without whitespace is a single token, itself. */
  lemma WordsOfToken(w: string)
    requires w != [] && AllSatisfy(w, IsWordChar)
    ensures Words(w) == [w]
  {
    RunsOfRun(w, IsWordChar);
  }

  /**
   * `len(re.findall(r"[.!?]+", text)) or 1`: the number of maximal runs of
   * sentence punctuation, or 1 when the text has none.
   */
  function SentenceCount(text: string): (n: nat)
    ensures n >= 1
    ensures NoneSatisfy(text, IsSentenceEnd) ==> n == 1
    ensures !NoneSatisfy(text, IsSentenceEnd) ==> n == RunStarts(text, IsSentenceEnd, false)
  {
    var matches := Runs(text, IsSentenceEnd);
    RunsEmptyIff(text, IsSentenceEnd);
    RunsCount(text, IsSentenceEnd);
    if |matches| == 0 then 1 else |matches|
  }

  /** Independent count of the parts holding a non-whitespace character. */
  function CountNonBlank(parts: seq<string>): (n: nat)
    ensures n <= |parts|
    ensures n == 0 <==> forall k :: 0 <= k < |parts| ==> AllSpace(parts[k])
  {
    if parts == [] then 0
    else
      var m := CountNonBlank(parts[..|parts| - 1]);
      assert forall k :: 0 <= k < |parts| - 1 ==> parts[..|parts| - 1][k] == parts[k];
      m + (if AllSpace(parts[|parts| - 1]) then 0 else 1)
  }

  /**
   * `[p for p in parts if p.strip()]`: the parts that are not blank, in order.
   * Every non-blank part is kept, nothing else is, and there are as many as
   * `CountNonBlank` counts.
   */
  function NonBlank(parts: seq<string>): (r: seq<string>)
    ensures |r| <= |parts|
    ensures |r| == CountNonBlank(parts)
    ensures forall k :: 0 <= k < |r| ==> r[k] in parts && !AllSpace(r[k])
    ensures forall k :: 0 <= k < |parts| && !AllSpace(parts[k]) ==> parts[k] in r
    ensures r == [] <==> forall k :: 0 <= k < |parts| ==> AllSpace(parts[k])
  {
    if parts == [] then []
    else
      var rest := NonBlank(parts[1..]);
      assert forall p :: p in parts[1..] ==> p in parts;
      CountNonBlankPrepend(parts);
      assert forall k :: 1 <= k < |parts| ==> parts[k] == parts[1..][k - 1];
      if Strip(parts[0]) != [] then [parts[0]] + rest else rest
  }

  /** Counting the non-blank parts from the back agrees with filtering from the front. */
  lemma {:induction false} CountNonBlankPrepend(parts: seq<string>)
    requires parts != []
    ensures CountNonBlank(parts) == (if AllSpace(parts[0]) then 0 else 1) + CountNonBlank(parts[1..])
    decreases |parts|
  {
    if |parts| > 1 {
      var init := parts[..|parts| - 1];
      CountNonBlankPrepend(init);
      assert init[0] == parts[0];
      assert init[1..] == parts[1..][..|parts[1..]| - 1];
      assert parts[1..][|parts[1..]| - 1] == parts[|parts| - 1];
    }
  }

  /** Dropping the blank parts keeps the order: filtering splits over `+`. */
  lemma {:induction false} NonBlankAppend(a: seq<string>, b: seq<string>)
    ensures NonBlank(a + b) == NonBlank(a) + NonBlank(b)
    decreases |a|
  {
    if a == [] {
      assert a + b == b;
    } else {
      assert (a + b)[0] == a[0];
      assert (a + b)[1..] == a[1..] + b;
      NonBlankAppend(a[1..], b);
    }
  }

  /** A single part is kept exactly when it is not blank. */
  lemma NonBlankSingle(p: string)
    ensures NonBlank([p]) == if AllSpace(p) then [] else [p]
  {
    assert [p][1..] == [];
  }

  /**
   * `len([p for p in text.split("\n\n") if p.strip()])`: the number of
   * non-blank pieces between blank-line separators, so at most one more than
   * the number of separators, and 0 exactly when the text is blank.
   */
  function ParagraphCount(text: string): (n: nat)
    ensures n == CountNonBlank(SplitOn(text, ParagraphBreak))
    ensures n <= CountOf(text, ParagraphBreak) + 1
    ensures n == 0 <==> AllSpace(text)
  {
    var parts := SplitOn(text, ParagraphBreak);
    SplitOnCount(text, ParagraphBreak);
    JoinSplitOn(text, ParagraphBreak);
    AllSpaceJoin(parts, ParagraphBreak);
    |NonBlank(parts)|
  }

  /**
   * The index `max(ws, key=len)` picks: a longest token, and the first one of
   * that length.
   */
  function FirstLongest(ws: seq<string>): (k: nat)
    requires ws != []
    ensures k < |ws|
    ensures forall j :: 0 <= j < |ws| ==> |ws[j]| <= |ws[k]|
    ensures forall j :: 0 <= j < k ==> |ws[j]| < |ws[k]|
    decreases |ws|
  {
    if |ws| == 1 then 0
    else
      var k := FirstLongest(ws[..|ws| - 1]);
      if |ws[|ws| - 1]| > |ws[k]| then |ws| - 1 else k
  }

  /**
   * `max(words, key=len) if words else ""`: empty without words; otherwise a
   * word at least as long as every other, with no earlier word that long.
   */
  function LongestWord(ws: seq<string>): (w: string)
    ensures ws == [] ==> w == []
    ensures ws != [] ==> w in ws && forall j :: 0 <= j < |ws| ==> |ws[j]| <= |w|
    ensures ws != [] ==> exists k :: 0 <= k < |ws| && ws[k] == w && forall j :: 0 <= j < k ==> |ws[j]| < |w|
  {
    if ws == [] then [] else ws[FirstLongest(ws)]
  }

  /**
   * `text[:100] + "..." if len(text) > 100 else text`: the whole text when it
   * is short; otherwise its first 100 characters and the marker.
   */
  function TextPreview(text: string): (p: string)
    ensures |p| <= PreviewLength + |TruncationMarker|
    ensures |text| <= PreviewLength ==> p == text
    ensures |text| > PreviewLength ==>
      |p| == PreviewLength + |TruncationMarker| && p[..PreviewLength] == text[..PreviewLength]
      && p[PreviewLength..] == TruncationMarker
  {
    if |text| > PreviewLength then text[..PreviewLength] + TruncationMarker else text
  }

  /** The `analysis` object of a response (the two floating-point fields left out). */
  datatype Analysis = Analysis(
    wordCount: nat,
    characterCount: nat,
    characterCountNoSpaces: nat,
    sentenceCount: nat,
    paragraphCount: nat,
    longestWord: string)

  /**
   * All statistics of one text. Beyond each field's own definition, the fields
   * agree with each other: only ASCII spaces separate the two character
   * counts, there is always a sentence, and a text without words has neither
   * a longest word nor a paragraph.
   */
  function Analyze(text: string): (a: Analysis)
    ensures a.wordCount == |Words(text)|
    ensures a.characterCount == |text|
    ensures a.characterCountNoSpaces == |RemoveChar(text, ' ')|
    ensures a.sentenceCount == SentenceCount(text)
    ensures a.paragraphCount == ParagraphCount(text)
    ensures a.longestWord == LongestWord(Words(text))
    ensures a.characterCountNoSpaces == a.characterCount - Occurrences(text, ' ')
    ensures a.characterCountNoSpaces <= a.characterCount
    ensures a.sentenceCount >= 1
    ensures a.wordCount == 0 <==> a.longestWord == []
    ensures a.wordCount == 0 <==> a.paragraphCount == 0
    ensures a.wordCount == 0 <==> AllSpace(text)
  {
    var words := Words(text);
    Analysis(
      wordCount := |words|,
      characterCount := |text|,
      characterCountNoSpaces := |RemoveChar(text, ' ')|,
      sentenceCount := SentenceCount(text),
      paragraphCount := ParagraphCount(text),
      longestWord := LongestWord(words))
  }

  /**
   * The text the handler analyses: the `text` query parameter unless it is
   * missing or empty, else the `text` field of the JSON body (absent when the
   * body is not JSON), else nothing.
   */
  function ResolveText(queryText: Option<string>, bodyText: Option<string>): (t: Option<string>)
    ensures t.Some? ==> t.value != []
    ensures t.Some? <==> (queryText.Some? && queryText.value != []) || (bodyText.Some? && bodyText.value != [])
    ensures queryText.Some? && queryText.value != [] ==> t == queryText
    ensures t.Some? && t != queryText ==> t == bodyText
  {
    if queryText.Some? && queryText.value != [] then queryText
    else if bodyText.Some? && bodyText.value != [] then bodyText
    else None
  }

  /** The `metadata` object of a response. */
  datatype Metadata = Metadata(analyzedAt: string, textPreview: string)

  /** One analysis: its identifier, statistics and metadata. */
  datatype AnalysisRecord = AnalysisRecord(id: string, analysis: Analysis, metadata: Metadata)

  /** The handler's two outcomes: 400 with usage instructions, or 200 with the record. */
  datatype AnalyzeResponse =
    | NoTextProvided
    | Analyzed(record: AnalysisRecord, storageWarning: Option<string>)

  /** The HTTP status of a response. */
  function StatusCode(resp: AnalyzeResponse): (code: int) {
    if resp.NoTextProvided? then 400 else 200
  }

  /**
   * The whole handler. The identifier, the timestamp and the outcome of the
   * table write are inputs (`storeFailure` is the text of the exception, if
   * any). Only missing text gives 400. The record is determined by the
   * resolved text, the id and the timestamp alone, so a failed write still
   * gives 200 with the same record and only adds the warning.
   */
  function HandleAnalyze(queryText: Option<string>, bodyText: Option<string>,
                         id: string, analyzedAt: string, storeFailure: Option<string>): (resp: AnalyzeResponse)
    ensures StatusCode(resp) == (if ResolveText(queryText, bodyText).None? then 400 else 200)
    ensures resp.Analyzed? ==>
      && resp.record.id == id
      && resp.record.metadata.analyzedAt == analyzedAt
      && resp.storageWarning == storeFailure
      && resp.record.analysis.sentenceCount >= 1
      && |resp.record.metadata.textPreview| <= PreviewLength + |TruncationMarker|
    ensures resp.Analyzed? ==>
      && ResolveText(queryText, bodyText).Some?
      && resp.record.analysis == Analyze(ResolveText(queryText, bodyText).value)
      && resp.record.metadata.textPreview == TextPreview(ResolveText(queryText, bodyText).value)
  {
    match ResolveText(queryText, bodyText)
    case None => NoTextProvided
    case Some(text) =>
      var record := AnalysisRecord(id, Analyze(text), Metadata(analyzedAt, TextPreview(text)));
      Analyzed(record, storeFailure)
  }
}
