# Summarizer core, modelled in Dafny

This project models the server-side core of the AI summarizer: the request handler
`summarizeText` and the local extractive summarizer `generateLocalSummary`, both in
`backend/utils/summarizer.js`. The handler takes a text and first asks a remote
summarization service for a summary. If that fails in any way it falls back to the local
summarizer. It then stores the summary with `Summary.create` and answers with the stored entry.

The local summarizer works in these steps:

1. Split the text into sentences with `/[^.!?]+[.!?]+/g`.
2. Count the lower-cased word tokens (`/\b\w+\b/g`) that are longer than three characters.
3. Score each sentence by the counts of its own tokens.
4. Sort the sentences by score, descending, with a stable sort.
5. Keep the first `min(sentenceCount, n)` of them (`sentenceCount` defaults to 3).
6. Put the kept ones back in their original order, trim them and join them with single spaces.

Files and modules:

- `wrappers.dfy` (`Wrappers`): `Option`.
- `text.dfy` (`Text`): the two patterns as recursive functions (`SplitSentences`,
  `Words`), ASCII `Lower`, JavaScript `Trim`, `Join(" ")`, and lemmas about the shape and
  coverage of the sentence matches and about the word tokens.
- `scoring.dfy` (`Scoring`): the `Scored` entry, the frequency table. The table is a
  specification function (`FrequencyTable`, built on `multiset` counts) and a loop that
  fills a `map` the way the `forEach` does (`BuildFrequencyTable`). Also the score and an
  independent statement of what a score is (`ContentWeight`).
- `selection.dfy` (`Selection`): the two `sort` calls. The comparator is `Compare`, the
  source's comparator written out; a positive value moves the element left, as in
  `Array.prototype.sort`. The pure stable insertion sort `Sort` specifies the in-place
  insertion sort `SortInPlace` on an `array`. Every stable sort with the same consistent
  comparator leaves the same array, so this matches what the engine's own sort produces.
  Lemmas: `Sort` is a permutation, and it is strictly ordered by score and then by
  original index (this is stability). The lemmas about the kept prefix are stated in
  this module too.
- `summarizer.dfy` (`LocalSummarizer`): `LocalSummary` (what `generateLocalSummary`
  returns) and the method `GenerateLocalSummary`, which computes it step by step, with
  the properties listed below.
- `resolution.dfy` (`Resolution`): `SummarizeText`, a method over abstract collaborator
  outcomes:
  - the outcome of the remote call: it threw, or it answered with `ok` and an optional
    string `summary`;
  - the outcomes of the first and second `Summary.create` call.

  It returns the HTTP reply, the number of remote calls, and the list of create calls
  made. Each create call is tagged with where its summary came from.

Behaviour of the code worth noting:

- Whitespace-only text is not rejected by the server. Only the front end trims before
  sending (`frontend/src/App.jsx:33`). The model's validation rejects only a missing or
  empty text.
- A failure of the `Summary.create` call on the remote-success path (line 27) does not
  become an error reply. It sits inside the inner `try`, so the inner `catch` swallows it
  and the handler makes a second `create` with the local summary. The model has this
  second call.
- For `Short. Text.` both sentences score 1, because `short` and `text` are longer than
  three characters; the summary is `Short. Text.`.
- The `|| sentences[0].trim()` fallback of line 73 is reached only with a count below 1
  or not a number (`Math.min` then gives `NaN` and `slice(0, NaN)` is empty);
  among the natural numbers the model takes, only with 0 (`ZeroCountFallsBack`). With the
  default 3 it is never reached (`SummaryIsOrderedSubsequence`).

## Model

| member | source | states |
|---|---|---|
| `Text.SplitSentences` | backend/utils/summarizer.js:48 | `text.match(/[^.!?]+[.!?]+/g) \|\| []`: the global scan, stepping over a terminator where no match can start; its properties are `NoSentencesIff`, `SentencesAreSentences` and `SentencesCover` |
| `Text.Words` | backend/utils/summarizer.js:51 | `match(/\b\w+\b/g) \|\| []` on lower-cased text (also line 61): the maximal runs of word characters, in order; its properties are `WordsAreWords`, `NoWordsIff` and `FirstWordMaximal` |
| `Text.Lower` | backend/utils/summarizer.js:51 | `toLowerCase` on ASCII letters (also line 61) |
| `Text.Trim` | backend/utils/summarizer.js:63 | `trim()`: the result is the contiguous middle piece of the input; everything removed before and after it is ECMAScript white space or line terminators, and the result neither starts nor ends with such a character |
| `Text.Join` | backend/utils/summarizer.js:71 | `join(" ")`: the parts separated by single spaces |
| `Text.SentencesCover` | backend/utils/summarizer.js:48 | laid end to end, the matches are exactly the piece of the text that starts after its leading terminators, and no terminator follows that piece: only the leading terminators and a terminator-free tail are dropped |
| `Text.WordsAreWords` | backend/utils/summarizer.js:51 | every token is a non-empty run of `[A-Za-z0-9_]` characters |
| `Text.NoWordsIff` | backend/utils/summarizer.js:51 | the word pattern finds nothing exactly when the text holds no word character |
| `Text.FirstWordMaximal` | backend/utils/summarizer.js:51 | the first token starts at the first word character and is followed by a non-word character or the end, and the other tokens are those of the remaining text: the tokens are the maximal runs |
| `Text.NoSentencesIff` | backend/utils/summarizer.js:48 | the sentence pattern finds no match exactly when no `.`, `!` or `?` directly follows a non-terminator character |
| `Text.SentencesAreSentences` | backend/utils/summarizer.js:48 | every match is a non-empty run of non-terminators followed by a non-empty run of terminators |
| `Text.FirstSentence` | backend/utils/summarizer.js:48 | the match found from a non-terminator position is one run of non-terminators followed by one run of terminators, both taken greedily |
| `Text.TrimmedSentence` | backend/utils/summarizer.js:63 | a trimmed sentence is non-empty and still ends with its terminator |
| `Scoring.FrequencyTable` | backend/utils/summarizer.js:51-58 | `wordFreq` after the `forEach`: each token longer than three characters maps to its number of occurrences; `BuildFrequencyTable` is proved to compute it |
| `Scoring.Score` | backend/utils/summarizer.js:61-62 | the `reduce` over a sentence's lower-cased tokens adding `wordFreq[word] \|\| 0`; `ScoreIsContentWeight` states its meaning |
| `Scoring.ScoreSentences` | backend/utils/summarizer.js:60-64 | the `map` building `{sentence: sentence.trim(), score, index}` for each sentence at its position |
| `Scoring.BuildFrequencyTable` | backend/utils/summarizer.js:52-58 | after the loop the table's keys are exactly the tokens longer than three characters, and each maps to its number of occurrences among all tokens |
| `Scoring.LookupFrequency` | backend/utils/summarizer.js:55-62 | `wordFreq[word] \|\| 0` is the token's count in the text when it is longer than three characters and 0 otherwise |
| `Scoring.ScoreIsContentWeight` | backend/utils/summarizer.js:60-63 | a sentence's score is the sum, over its lower-cased tokens with repeats, of each long token's count in the whole text |
| `Scoring.ShortTokensScoreZero` | backend/utils/summarizer.js:55-62 | a sentence whose tokens are all at most three characters long scores 0 |
| `Selection.Sort` | backend/utils/summarizer.js:67-69 | the stable sort under the comparator `Compare`; `SortElements` and `SortOrdered` state it is a permutation and ordered |
| `Selection.Keep` | backend/utils/summarizer.js:66-69 | sort by score, keep the first `min(sentenceCount, length)`, sort by index; `KeepCount`, `KeepDominates` and `KeepInOrder` state what is kept |
| `Selection.SortInPlace` | backend/utils/summarizer.js:67-69 | the in-place insertion sort leaves the array equal to the stable sort of its old contents under the source's comparator |
| `Selection.InsertInPlace` | backend/utils/summarizer.js:67-69 | one insertion pass moves `a[i]` into the sorted prefix at the place a stable sort gives it, leaving the rest of the array as it was |
| `Selection.SortElements` | backend/utils/summarizer.js:67-69 | sorting keeps the length and the multiset of entries |
| `Selection.SortOrdered` | backend/utils/summarizer.js:67-69 | on entries in index order, the score sort orders by score descending and keeps equal scores in their original order; the index sort orders by index ascending |
| `Selection.KeepCount` | backend/utils/summarizer.js:68 | exactly `min(sentenceCount, number of entries)` entries are kept |
| `Selection.KeepDominates` | backend/utils/summarizer.js:66-68 | every kept entry has a score at least that of every entry left out, and on equal scores the kept one comes earlier |
| `Selection.KeepInOrder` | backend/utils/summarizer.js:66-69 | the kept entries are entries of the scored list, in strictly increasing original position |
| `LocalSummarizer.LocalSummary` | backend/utils/summarizer.js:47-74 | what `generateLocalSummary` returns: the text itself without sentences, else the joined selection or, when that is empty, the first sentence trimmed; `SummaryIsOrderedSubsequence`, `PassThrough`, `ZeroCountFallsBack` and `NonEmpty` state its properties |
| `LocalSummarizer.SelectSentences` | backend/utils/summarizer.js:66-69 | the two in-place sorts around the slice compute the kept entries in original order |
| `LocalSummarizer.GenerateLocalSummary` | backend/utils/summarizer.js:47-74 | the step-by-step computation returns `LocalSummary`, and a non-empty text gets a non-empty summary |
| `LocalSummarizer.PassThrough` | backend/utils/summarizer.js:48-49 | a text in which no terminator follows a non-terminator is returned unchanged |
| `LocalSummarizer.SelectedCount` | backend/utils/summarizer.js:47-68 | exactly `min(sentenceCount, number of sentences)` sentences are selected |
| `LocalSummarizer.SelectedDominate` | backend/utils/summarizer.js:60-68 | a selected sentence scores at least as much as any unselected one, and on equal scores it comes earlier in the text |
| `LocalSummarizer.SummaryIsOrderedSubsequence` | backend/utils/summarizer.js:63-73 | with `sentenceCount >= 1` the summary is the selected sentences, each trimmed, joined by single spaces, at strictly increasing positions of the sentence list; the join is non-empty, so the line-73 fallback is not taken |
| `LocalSummarizer.ZeroCountFallsBack` | backend/utils/summarizer.js:68-73 | with `sentenceCount` 0 the join is empty and the first sentence, trimmed, is returned |
| `LocalSummarizer.NonEmpty` | backend/utils/summarizer.js:48-49 | every non-empty text gets a non-empty summary |
| `Resolution.SummarizeText` | backend/utils/summarizer.js:4-44 | a missing or empty text gets 400 `Text is required` with no remote call and no create. Otherwise there is one remote call, and one or two creates that all store the request's text. The remote summary is stored only when the response is ok and carries a non-empty summary, and only by the first create. Every other stored summary is the local one. A second create happens exactly when the success-path create failed. The reply is 200 with the last create's entry and a non-empty summary, or 500 `Summarization failed` with that create's message, and 500 only when every create failed. |

## Left out

- `getHistory` and `deleteSummary` (backend/utils/summarizer.js:78-87): database calls with no logic of their own. `deleteSummary` answers `{success: true}` whether or not a document with that id existed.
- The HTTP request to the remote service, its URL, headers, API key and JSON encoding: the model takes the outcome of the call as an input.
- Mongoose and MongoDB: an outcome of each `Summary.create` call is an input. The stored document's id and timestamp come from the database.
- Express, CORS, dotenv, the route table, the schema and the React front end: these are wiring and presentation.
- `console` logging: it has no effect on the result.
- Strings are sequences of Dafny `char`, which are Unicode scalar values, not UTF-16 code units as in JavaScript: a character outside the Basic Multilingual Plane is one `char` here and two code units there, and a lone surrogate (which a `\ud800` escape in the JSON body produces) cannot be represented. No result of the core changes, because every length the code measures is that of an ASCII token.
- `toLowerCase` is modelled on ASCII letters only. A non-ASCII character whose lower case is an ASCII letter (the Kelvin sign becomes `k`) would add word characters in the source and does not in the model.
- `wordFreq` is a plain object in the source. A token such as `constructor` finds a value inherited from `Object.prototype`, so its count and the scores become non-numeric. The model uses a clean map.
- Non-string values of `text` or `data.summary`: the model has an optional string for each. A truthy non-string summary is stored by the source and is not expressible here.
- `sentenceCount` is a natural number. Negative or fractional counts, which `slice` would interpret, are not modelled; the handler always uses the default 3.
- Scores are unbounded integers. JavaScript numbers are doubles, exact only up to 2^53, and no text reaches that.
- The asynchronous execution of the handler: the model runs its steps in their awaited order.
- `Selection.SortOrdered`: states the stability of the score sort only for input in index order, which is the only input it gets in the source. General stability for arbitrary arrays is not stated.
