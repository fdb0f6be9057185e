/**
 * `generateLocalSummary` (backend/utils/summarizer.js:47-74): the extractive
 * fallback summarizer, as a specification function and as the method that
 * computes it the way the source does.
 */
module LocalSummarizer {
  import opened Text
  import opened Scoring
  import opened Selection

  /** The kept sentences of a text, in original order (lines 60-69). */
  function Selected(text: string, sentenceCount: nat): seq<Scored> {
    Keep(ScoredSentences(text), sentenceCount)
  }

  /** `.map(s => s.sentence)`. */
  function Texts(s: seq<Scored>): seq<string> {
    seq(|s|, k requires 0 <= k < |s| => s[k].sentence)
  }

  /** `.map(s => s.index)`. */
  function Indices(s: seq<Scored>): seq<nat> {
    seq(|s|, k requires 0 <= k < |s| => s[k].index)
  }

  /** The positions, in the sentence list, of the selected sentences. */
  function SelectedIndices(text: string, sentenceCount: nat): seq<nat> {
    Indices(Selected(text, sentenceCount))
  }

  /** The trimmed sentences at the positions `idx`, in that order. */
  function TrimmedAt(sentences: seq<string>, idx: seq<nat>): seq<string> {
    seq(|idx|, p requires 0 <= p < |idx| => if idx[p] < |sentences| then Trim(sentences[idx[p]]) else "")
  }

  /** What `generateLocalSummary(text, sentenceCount)` returns. */
  function LocalSummary(text: string, sentenceCount: nat): string {
    var sentences := SplitSentences(text);
    if sentences == [] then text
    else
      var joined := Join(Texts(Selected(text, sentenceCount)));
      if joined != "" then joined else Trim(sentences[0])
  }

  /** `generateLocalSummary`, step by step: table, scores, two in-place sorts, join. */
  method GenerateLocalSummary(text: string, sentenceCount: nat := 3) returns (summary: string)
    ensures summary == LocalSummary(text, sentenceCount)
    ensures text != "" ==> summary != ""
  {
    if text != "" {
      NonEmpty(text, sentenceCount);
    }
    var sentences := SplitSentences(text);
    if |sentences| == 0 {
      return text;
    }
    var wordFreq := BuildFrequencyTable(TextWords(text));
    var scored := ScoreSentences(sentences, wordFreq);
    var kept := SelectSentences(scored, sentenceCount);
    var joined := Join(Texts(kept));
    summary := if joined != "" then joined else Trim(sentences[0]);
  }

  /** Lines 66-69 on an array: sort by score in place, copy the prefix, sort it by index in place. */
  method SelectSentences(scored: seq<Scored>, sentenceCount: nat) returns (kept: seq<Scored>)
    ensures kept == Keep(scored, sentenceCount)
  {
    var a := new Scored[|scored|](i requires 0 <= i < |scored| => scored[i]);
    assert a[..] == scored;
    SortInPlace(a, ByScore);
    var k := Min(sentenceCount, a.Length);
    var prefix := a[..k];
    var top := new Scored[k](i requires 0 <= i < k => prefix[i]);
    assert top[..] == prefix;
    SortInPlace(top, ByIndex);
    kept := top[..];
  }

  /** Text in which the sentence pattern finds nothing comes back unchanged. */
  lemma PassThrough(text: string, sentenceCount: nat)
    requires !HasSentenceEnd(text)
    ensures LocalSummary(text, sentenceCount) == text
  {
    NoSentencesIff(text);
  }

  /** Exactly `min(sentenceCount, number of sentences)` sentences are selected. */
  lemma SelectedCount(text: string, sentenceCount: nat)
    ensures |Selected(text, sentenceCount)| == Min(sentenceCount, |SplitSentences(text)|)
  {
    KeepCount(ScoredSentences(text), sentenceCount);
  }

  /**
   * Every selected sentence beats every unselected one: a higher score, or an
   * equal score and an earlier position.
   */
  lemma SelectedDominate(text: string, sentenceCount: nat, i: nat, j: nat)
    requires i < |SplitSentences(text)| && j < |SplitSentences(text)|
    requires ScoredSentences(text)[i] in Selected(text, sentenceCount)
    requires ScoredSentences(text)[j] !in Selected(text, sentenceCount)
    ensures ScoredSentences(text)[i].score >= ScoredSentences(text)[j].score
    ensures ScoredSentences(text)[i].score == ScoredSentences(text)[j].score ==> i < j
  {
    var scored := ScoredSentences(text);
    assert Indexed(scored);
    KeepDominates(scored, sentenceCount, i, j);
  }

  /**
   * The summary is the selected sentences, trimmed, in original order, joined
   * by single spaces: a subsequence of the trimmed sentence list of length
   * `min(sentenceCount, number of sentences)`. With `sentenceCount >= 1` the
   * `|| sentences[0].trim()` fallback is never taken.
   */
  lemma SummaryIsOrderedSubsequence(text: string, sentenceCount: nat)
    requires SplitSentences(text) != [] && sentenceCount >= 1
    ensures |SelectedIndices(text, sentenceCount)| == Min(sentenceCount, |SplitSentences(text)|)
    ensures forall p, q :: 0 <= p < q < |SelectedIndices(text, sentenceCount)| ==>
      SelectedIndices(text, sentenceCount)[p] < SelectedIndices(text, sentenceCount)[q]
    ensures forall p :: 0 <= p < |SelectedIndices(text, sentenceCount)| ==>
      SelectedIndices(text, sentenceCount)[p] < |SplitSentences(text)|
    ensures Join(Texts(Selected(text, sentenceCount))) != ""
    ensures LocalSummary(text, sentenceCount)
      == Join(TrimmedAt(SplitSentences(text), SelectedIndices(text, sentenceCount)))
  {
    var sentences := SplitSentences(text);
    var scored := ScoredSentences(text);
    var sel := Selected(text, sentenceCount);
    var idx := SelectedIndices(text, sentenceCount);
    assert Indexed(scored);
    KeepInOrder(scored, sentenceCount);
    KeepCount(scored, sentenceCount);
    SelectedTexts(text, sentenceCount);
    FirstSelectedNonEmpty(text, sentenceCount);
    JoinHeadNonEmpty(Texts(sel));
  }

  /** The texts of the selected entries are the trimmed sentences at their positions. */
  lemma SelectedTexts(text: string, sentenceCount: nat)
    ensures Texts(Selected(text, sentenceCount))
      == TrimmedAt(SplitSentences(text), SelectedIndices(text, sentenceCount))
  {
    var scored := ScoredSentences(text);
    var sel := Selected(text, sentenceCount);
    var want := TrimmedAt(SplitSentences(text), SelectedIndices(text, sentenceCount));
    assert Indexed(scored);
    KeepInOrder(scored, sentenceCount);
    forall p | 0 <= p < |sel|
      ensures Texts(sel)[p] == want[p]
    {
      assert sel[p] == scored[sel[p].index];
    }
  }

  /** With `sentenceCount >= 1` the first selected text is a non-empty trimmed sentence. */
  lemma FirstSelectedNonEmpty(text: string, sentenceCount: nat)
    requires SplitSentences(text) != [] && sentenceCount >= 1
    ensures Texts(Selected(text, sentenceCount)) != [] && Texts(Selected(text, sentenceCount))[0] != ""
  {
    var sentences := SplitSentences(text);
    var scored := ScoredSentences(text);
    var sel := Selected(text, sentenceCount);
    assert Indexed(scored);
    KeepInOrder(scored, sentenceCount);
    KeepCount(scored, sentenceCount);
    var i := sel[0].index;
    assert sel[0] == scored[i];
    SentencesAreSentences(text);
    assert sentences[i] in sentences;
    TrimmedSentence(sentences[i]);
  }

  /** A join whose first part is non-empty is non-empty. */
  lemma JoinHeadNonEmpty(parts: seq<string>)
    requires parts != [] && parts[0] != ""
    ensures Join(parts) != ""
  {
  }

  /** With no sentences to keep the fallback to the first trimmed sentence is what is returned. */
  lemma ZeroCountFallsBack(text: string)
    requires SplitSentences(text) != []
    ensures LocalSummary(text, 0) == Trim(SplitSentences(text)[0])
  {
  }

  /** For non-empty text the summary is non-empty. */
  lemma NonEmpty(text: string, sentenceCount: nat)
    requires text != ""
    ensures LocalSummary(text, sentenceCount) != ""
  {
    var sentences := SplitSentences(text);
    if sentences != [] {
      SentencesAreSentences(text);
      assert sentences[0] in sentences;
      TrimmedSentence(sentences[0]);
    }
  }
}
