/**
 * Word frequencies and sentence scores of `generateLocalSummary`
 * (backend/utils/summarizer.js:51-64).
 */
module Scoring {
  import opened Text

  /** One entry of `scoredSentences`: the trimmed sentence, its score and its position. */
  datatype Scored = Scored(sentence: string, score: nat, index: nat)

  /** Tokens longer than three characters are the only ones counted. */
  predicate IsContentWord(w: string) {
    |w| > 3
  }

  /** The table `wordFreq` should hold once the `forEach` loop has run over `words`. */
  function FrequencyTable(words: seq<string>): map<string, nat> {
    map w | w in words && IsContentWord(w) :: multiset(words)[w]
  }

  /** `wordFreq[word] || 0`. */
  function Lookup(freq: map<string, nat>, w: string): nat {
    if w in freq then freq[w] else 0
  }

  /** The `forEach` loop that fills `wordFreq`, one token at a time. */
  method BuildFrequencyTable(words: seq<string>) returns (freq: map<string, nat>)
    ensures forall w :: w in freq <==> w in words && IsContentWord(w)
    ensures forall w :: w in freq ==> freq[w] == multiset(words)[w]
    ensures freq == FrequencyTable(words)
  {
    freq := map[];
    var i := 0;
    while i < |words|
      invariant 0 <= i <= |words|
      invariant forall w :: w in freq <==> w in words[..i] && IsContentWord(w)
      invariant forall w :: w in freq ==> freq[w] == multiset(words[..i])[w]
    {
      var word := words[i];
      if IsContentWord(word) {
        freq := freq[word := Lookup(freq, word) + 1];
      }
      assert words[..i + 1] == words[..i] + [word];
      i := i + 1;
    }
    assert words[..i] == words;
  }

  /** `words.reduce((sum, word) => sum + (wordFreq[word] || 0), 0)`. */
  function SumLookups(tokens: seq<string>, freq: map<string, nat>): nat {
    if tokens == [] then 0 else Lookup(freq, tokens[0]) + SumLookups(tokens[1..], freq)
  }

  /** The score of one sentence: its lower-cased tokens looked up in the table. */
  function Score(sentence: string, freq: map<string, nat>): nat {
    SumLookups(Words(Lower(sentence)), freq)
  }

  /** The tokens of the whole text, lower-cased first. */
  function TextWords(text: string): seq<string> {
    Words(Lower(text))
  }

  /** `sentences.map((sentence, index) => ({ sentence: sentence.trim(), score, index }))`. */
  function ScoreSentences(sentences: seq<string>, freq: map<string, nat>): seq<Scored> {
    seq(|sentences|, i requires 0 <= i < |sentences| =>
      Scored(Trim(sentences[i]), Score(sentences[i], freq), i))
  }

  /** The scored sentences of a text, with the table built from the whole text. */
  function ScoredSentences(text: string): seq<Scored> {
    ScoreSentences(SplitSentences(text), FrequencyTable(TextWords(text)))
  }

  /**
   * Independent statement of a score: every token of the sentence, repeats
   * included, adds the number of times it occurs among the tokens of the text
   * when it is longer than three characters, and nothing otherwise.
   */
  function ContentWeight(tokens: seq<string>, textWords: seq<string>): nat {
    if tokens == [] then 0
    else (if |tokens[0]| > 3 then multiset(textWords)[tokens[0]] else 0)
         + ContentWeight(tokens[1..], textWords)
  }

  /** Looking a token up in the table gives its count in the text, or 0 for a short token. */
  lemma LookupFrequency(words: seq<string>, w: string)
    ensures Lookup(FrequencyTable(words), w) == if |w| > 3 then multiset(words)[w] else 0
  {
  }

  lemma {:induction false} SumLookupsIsContentWeight(tokens: seq<string>, words: seq<string>)
    ensures SumLookups(tokens, FrequencyTable(words)) == ContentWeight(tokens, words)
  {
    if tokens != [] {
      LookupFrequency(words, tokens[0]);
      SumLookupsIsContentWeight(tokens[1..], words);
    }
  }

  /** A sentence's score sums the text-wide counts of its long tokens. */
  lemma ScoreIsContentWeight(sentence: string, text: string)
    ensures Score(sentence, FrequencyTable(TextWords(text)))
         == ContentWeight(Words(Lower(sentence)), TextWords(text))
  {
    SumLookupsIsContentWeight(Words(Lower(sentence)), TextWords(text));
  }

  /** A sentence with no token longer than three characters scores 0. */
  lemma {:induction false} ShortTokensScoreZero(tokens: seq<string>, words: seq<string>)
    requires forall k :: 0 <= k < |tokens| ==> |tokens[k]| <= 3
    ensures SumLookups(tokens, FrequencyTable(words)) == 0
  {
    if tokens != [] {
      LookupFrequency(words, tokens[0]);
      ShortTokensScoreZero(tokens[1..], words);
    }
  }
}
