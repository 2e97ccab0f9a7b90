/**
 * The analysis of one concrete request, worked out from the definitions:
 * `{"text": "Hello world. How are you?"}`.
 */
module TextAnalyzerExamples {
  import opened PyStr
  import opened TextAnalyzer

  lemma GreetingTokensHaveNoSpace(ws: seq<string>)
    requires ws == ["Hello", "world.", "How", "are", "you?"]
    ensures forall k :: 0 <= k < |ws| ==> ws[k] != [] && AllSatisfy(ws[k], IsWordChar)
  {
  }

  lemma GreetingIsJoined(text: string, ws: seq<string>)
    requires text == "Hello world. How are you?"
    requires ws == ["Hello", "world.", "How", "are", "you?"]
    ensures Join(ws, " ") == text
  {
    assert ws[1..] == ["world.", "How", "are", "you?"];
    assert ws[2..] == ["How", "are", "you?"];
    assert ws[3..] == ["are", "you?"];
    assert ws[4..] == ["you?"];
    assert Join(ws[3..], " ") == "are you?";
    assert Join(ws[1..], " ") == "world. How are you?";
  }

  lemma GreetingWords(text: string)
    requires text == "Hello world. How are you?"
    ensures Words(text) == ["Hello", "world.", "How", "are", "you?"]
  {
    var ws := ["Hello", "world.", "How", "are", "you?"];
    GreetingIsJoined(text, ws);
    GreetingTokensHaveNoSpace(ws);
    WordsOfJoin(ws);
  }

  /** `"world."` (6 characters) is longer than `"Hello"` (5), so it is the longest word. */
  lemma GreetingLongestWord(text: string)
    requires text == "Hello world. How are you?"
    ensures |Words(text)| == 5 && LongestWord(Words(text)) == "world."
  {
    var ws := Words(text);
    GreetingWords(text);
    var k := FirstLongest(ws);
    assert |ws[k]| >= |ws[1]| == 6;
  }

  lemma RunsOfMark(c: char, t: string, p: char -> bool)
    requires p(c) && (t == [] || !p(t[0]))
    ensures Runs([c] + t, p) == [[c]] + Runs(t, p)
  {
    RunLengthOfPrefix([c], t, p);
    assert ([c] + t)[..1] == [c] && ([c] + t)[1..] == t;
  }

  /** Two single marks, each after a stretch without marks, make two runs. */
  lemma RunsOfTwoMarks(a: string, c1: char, b: string, c2: char, p: char -> bool)
    requires NoneSatisfy(a, p) && NoneSatisfy(b, p) && b != []
    requires p(c1) && p(c2)
    ensures Runs(a + ([c1] + (b + [c2])), p) == [[c1], [c2]]
  {
    RunsSkip(a, [c1] + (b + [c2]), p);
    RunsOfMark(c1, b + [c2], p);
    RunsSkip(b, [c2], p);
    RunsOfMark(c2, [], p);
    assert [c2] + [] == [c2];
  }

  lemma GreetingPieces(text: string)
    requires text == "Hello world. How are you?"
    ensures text == "Hello world" + (['.'] + (" How are you" + ['?']))
    ensures NoneSatisfy("Hello world", IsSentenceEnd) && NoneSatisfy(" How are you", IsSentenceEnd)
  {
  }

  lemma GreetingSentences(text: string)
    requires text == "Hello world. How are you?"
    ensures Runs(text, IsSentenceEnd) == [".", "?"]
  {
    GreetingPieces(text);
    RunsOfTwoMarks("Hello world", '.', " How are you", '?', IsSentenceEnd);
  }

  lemma GreetingParagraphs(text: string)
    requires text == "Hello world. How are you?"
    ensures ParagraphCount(text) == 1
  {
    CountOfAbsent(text, ParagraphBreak);
    assert !IsSpace(text[0]);
  }

  /** The statistics of the example request. */
  lemma GreetingAnalysis(text: string)
    requires text == "Hello world. How are you?"
    ensures var a := Analyze(text);
      && a.wordCount == 5 && a.characterCount == 25 && a.sentenceCount == 2
      && a.paragraphCount == 1 && a.longestWord == "world."
  {
    GreetingLongestWord(text);
    GreetingSentences(text);
    GreetingParagraphs(text);
  }

  /** Tokens end at whitespace and nowhere else: `"ab c".split() == ["ab", "c"]`. */
  lemma TokensEndAtSpace(text: string)
    requires text == "ab c"
    ensures Words(text) == ["ab", "c"]
  {
    assert text == "ab" + [' '] + "c";
    WordsSplitAt("ab", ' ', "c");
    WordsOfToken("ab");
    WordsOfToken("c");
  }

  /** Two non-blank pieces around a blank line are two paragraphs. */
  lemma TwoParagraphs(text: string)
    requires text == "a\n\nb"
    ensures ParagraphCount(text) == 2
  {
    var parts := ["a", "b"];
    assert text[..2][0] == 'a' && ParagraphBreak[0] == '\n';
    assert text[1..][..2] == ParagraphBreak && text[1..][2..] == "b";
    assert SplitOn(text[1..], ParagraphBreak) == [[], "b"];
    assert [text[0]] + [] == "a";
    assert SplitOn(text, ParagraphBreak) == parts;
    assert !IsSpace(parts[0][0]) && !IsSpace(parts[1][0]);
    assert parts[..1] == ["a"];
  }
}
