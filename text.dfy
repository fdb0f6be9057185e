/**
 * Character classes and the string pipelines of the local summarizer
 * (backend/utils/summarizer.js): the sentence pattern `/[^.!?]+[.!?]+/g`,
 * the word pattern `/\b\w+\b/g`, `toLowerCase`, `trim` and `join(" ")`.
 * A Dafny `char` is a Unicode scalar value, where a JavaScript string is a
 * sequence of UTF-16 code units; every length the summarizer measures is that
 * of an ASCII token, on which the two agree.
 */
module Text {

  /** A sentence terminator: one of the characters of `[.!?]`. */
  predicate IsTerminator(c: char) {
    c == '.' || c == '!' || c == '?'
  }

  /** The characters of `\w` in a pattern without the `u` flag: `[A-Za-z0-9_]`. */
  predicate IsWordChar(c: char) {
    ('a' <= c <= 'z') || ('A' <= c <= 'Z') || ('0' <= c <= '9') || c == '_'
  }

  /** What `String.prototype.trim` removes: ECMAScript WhiteSpace and LineTerminator. */
  predicate IsSpace(c: char) {
    var n := c as int;
    n == 0x09 || n == 0x0A || n == 0x0B || n == 0x0C || n == 0x0D || n == 0x20 ||
    n == 0xA0 || n == 0x1680 || (0x2000 <= n <= 0x200A) || n == 0x2028 || n == 0x2029 ||
    n == 0x202F || n == 0x205F || n == 0x3000 || n == 0xFEFF
  }

  /** ASCII lower-casing of one character. */
  function LowerChar(c: char): char {
    if 'A' <= c <= 'Z' then (c as int + 32) as char else c
  }

  /** `toLowerCase`, restricted to ASCII letters. */
  function Lower(s: string): string {
    seq(|s|, i requires 0 <= i < |s| => LowerChar(s[i]))
  }

  /** Drops leading `IsSpace` characters: what is left is the suffix from the first other character. */
  function TrimStart(s: string): (r: string)
    ensures |r| <= |s| && r == s[|s| - |r|..]
    ensures forall k :: 0 <= k < |s| - |r| ==> IsSpace(s[k])
    ensures r != [] ==> !IsSpace(r[0])
  {
    if s != [] && IsSpace(s[0]) then TrimStart(s[1..]) else s
  }

  /** Drops trailing `IsSpace` characters: what is left is the prefix up to the last other character. */
  function TrimEnd(s: string): (r: string)
    ensures |r| <= |s| && r == s[..|r|]
    ensures forall k :: |r| <= k < |s| ==> IsSpace(s[k])
    ensures r != [] ==> !IsSpace(r[|r| - 1])
  {
    if s != [] && IsSpace(s[|s| - 1]) then TrimEnd(s[..|s| - 1]) else s
  }

  /** `r` is the piece of `s` at `a`, and everything of `s` before and after it is white space. */
  predicate MiddlePiece(s: string, a: nat, r: string) {
    a + |r| <= |s| && r == s[a..a + |r|] &&
    (forall k :: 0 <= k < a ==> IsSpace(s[k])) &&
    (forall k :: a + |r| <= k < |s| ==> IsSpace(s[k]))
  }

  /** `String.prototype.trim`: the middle piece of `s` left after removing white space, and only white space, from both ends. */
  function Trim(s: string): (r: string)
    ensures |r| <= |s|
    ensures r != [] ==> !IsSpace(r[0]) && !IsSpace(r[|r| - 1])
    ensures MiddlePiece(s, |s| - |TrimStart(s)|, r)
  {
    TrimMiddle(s);
    TrimEnd(TrimStart(s))
  }

  /** Trimming the end of what `TrimStart` left removes white space from the end of `s`. */
  lemma {:induction false} TrimMiddle(s: string)
    ensures MiddlePiece(s, |s| - |TrimStart(s)|, TrimEnd(TrimStart(s)))
  {
    MiddleOfSuffix(s, TrimStart(s), TrimEnd(TrimStart(s)));
  }

  /** A prefix `e` of a suffix `t` of `s`, both cut off at white space only, is a middle piece. */
  lemma MiddleOfSuffix(s: string, t: string, e: string)
    requires |t| <= |s| && t == s[|s| - |t|..]
    requires forall k :: 0 <= k < |s| - |t| ==> IsSpace(s[k])
    requires |e| <= |t| && e == t[..|e|]
    requires forall k :: |e| <= k < |t| ==> IsSpace(t[k])
    ensures MiddlePiece(s, |s| - |t|, e)
  {
    var a := |s| - |t|;
    assert e == s[a..a + |e|];
    forall k | a + |e| <= k < |s|
      ensures IsSpace(s[k])
    {
      assert s[k] == t[k - a];
    }
  }

  /** `Array.prototype.join(" ")` on strings. */
  function Join(parts: seq<string>): string {
    if parts == [] then ""
    else if |parts| == 1 then parts[0]
    else parts[0] + " " + Join(parts[1..])
  }

  /** Length of the longest prefix of `s` holding no terminator (what `[^.!?]+` consumes greedily). */
  function NonTerminatorRun(s: string): (n: nat)
    ensures n <= |s|
    ensures forall k :: 0 <= k < n ==> !IsTerminator(s[k])
    ensures n < |s| ==> IsTerminator(s[n])
  {
    if s == [] || IsTerminator(s[0]) then 0 else 1 + NonTerminatorRun(s[1..])
  }

  /** Length of the longest prefix of `s` made of terminators (what `[.!?]+` consumes greedily). */
  function TerminatorRun(s: string): (n: nat)
    ensures n <= |s|
    ensures forall k :: 0 <= k < n ==> IsTerminator(s[k])
    ensures n < |s| ==> !IsTerminator(s[n])
  {
    if s == [] || !IsTerminator(s[0]) then 0 else 1 + TerminatorRun(s[1..])
  }

  /** Length of the longest prefix of `s` made of word characters (what `\w+` consumes greedily). */
  function WordRun(s: string): (n: nat)
    ensures n <= |s|
    ensures forall k :: 0 <= k < n ==> IsWordChar(s[k])
    ensures n < |s| ==> !IsWordChar(s[n])
  {
    if s == [] || !IsWordChar(s[0]) then 0 else 1 + WordRun(s[1..])
  }

  /**
   * `s.match(/[^.!?]+[.!?]+/g) || []`. A match cannot start on a terminator, so
   * the scan steps over one; from any other position the greedy runs either
   * reach a terminator (a match) or the end of the text (no further match).
   */
  function SplitSentences(s: string): seq<string>
    decreases |s|
  {
    if s == [] then []
    else if IsTerminator(s[0]) then SplitSentences(s[1..])
    else
      var q := NonTerminatorRun(s);
      if q == |s| then []
      else
        var r := q + TerminatorRun(s[q..]);
        [s[..r]] + SplitSentences(s[r..])
  }

  /** Length of the longest prefix of `s` holding no word character (what `\b` skips to). */
  function NonWordRun(s: string): (n: nat)
    ensures n <= |s|
    ensures forall k :: 0 <= k < n ==> !IsWordChar(s[k])
    ensures n < |s| ==> IsWordChar(s[n])
  {
    if s == [] || IsWordChar(s[0]) then 0 else 1 + NonWordRun(s[1..])
  }

  /** The matches laid end to end. */
  function Concat(xs: seq<string>): string {
    if xs == [] then "" else xs[0] + Concat(xs[1..])
  }

  /** `s.match(/\b\w+\b/g) || []`: the maximal runs of word characters, in order. */
  function Words(s: string): seq<string>
    decreases |s|
  {
    if s == [] then []
    else if !IsWordChar(s[0]) then Words(s[1..])
    else
      var q := WordRun(s);
      [s[..q]] + Words(s[q..])
  }

  /** Somewhere in `s` a terminator directly follows a non-terminator. */
  predicate HasSentenceEnd(s: string) {
    exists i :: 1 <= i < |s| && !IsTerminator(s[i - 1]) && IsTerminator(s[i])
  }

  /** A sentence as the pattern matches it: non-terminators, then terminators. */
  predicate IsSentence(x: string) {
    var q := NonTerminatorRun(x);
    0 < q < |x| && forall k :: q <= k < |x| ==> IsTerminator(x[k])
  }

  /** The pattern finds no sentence exactly when no terminator follows a non-terminator. */
  lemma {:induction false} NoSentencesIff(s: string)
    ensures SplitSentences(s) == [] <==> !HasSentenceEnd(s)
    decreases |s|
  {
    if s == [] {
    } else if IsTerminator(s[0]) {
      NoSentencesIff(s[1..]);
      if HasSentenceEnd(s) {
        var i :| 1 <= i < |s| && !IsTerminator(s[i - 1]) && IsTerminator(s[i]);
        assert i >= 2;
        assert s[1..][i - 2] == s[i - 1] && s[1..][i - 1] == s[i];
      }
      if HasSentenceEnd(s[1..]) {
        var i :| 1 <= i < |s[1..]| && !IsTerminator(s[1..][i - 1]) && IsTerminator(s[1..][i]);
        assert s[i] == s[1..][i - 1] && s[i + 1] == s[1..][i];
      }
    } else {
      var q := NonTerminatorRun(s);
      if q == |s| {
        assert forall i :: 1 <= i < |s| ==> !IsTerminator(s[i]);
      } else {
        assert 1 <= q && !IsTerminator(s[q - 1]) && IsTerminator(s[q]);
      }
    }
  }

  /** Every match of the sentence pattern has the pattern's shape. */
  lemma {:induction false} SentencesAreSentences(s: string)
    ensures forall x :: x in SplitSentences(s) ==> IsSentence(x)
    decreases |s|
  {
    if s == [] {
    } else if IsTerminator(s[0]) {
      SentencesAreSentences(s[1..]);
    } else {
      var q := NonTerminatorRun(s);
      if q < |s| {
        var r := q + TerminatorRun(s[q..]);
        FirstSentence(s);
        SentencesAreSentences(s[r..]);
      }
    }
  }

  /** The first match, taken from a non-terminator, has the pattern's shape. */
  lemma FirstSentence(s: string)
    requires s != [] && !IsTerminator(s[0]) && NonTerminatorRun(s) < |s|
    ensures IsSentence(s[..NonTerminatorRun(s) + TerminatorRun(s[NonTerminatorRun(s)..])])
  {
    var q := NonTerminatorRun(s);
    var r := q + TerminatorRun(s[q..]);
    var x := s[..r];
    NonTerminatorPrefix(s, r);
    assert forall k :: q <= k < r ==> x[k] == s[q..][k - q];
  }

  /** Cutting `s` after its first terminator run does not change the non-terminator run. */
  lemma {:induction false} NonTerminatorPrefix(s: string, r: nat)
    requires NonTerminatorRun(s) < r <= |s|
    ensures NonTerminatorRun(s[..r]) == NonTerminatorRun(s)
    decreases |s|
  {
    if !IsTerminator(s[0]) {
      assert s[..r][1..] == s[1..][..r - 1];
      NonTerminatorPrefix(s[1..], r - 1);
    }
  }

  /** The first and last characters of a sentence are not removed by `trim`. */
  lemma TrimmedSentence(x: string)
    requires IsSentence(x)
    ensures Trim(x) != "" && IsTerminator(Trim(x)[|Trim(x)| - 1])
  {
    TrimStartKeepsLast(x);
  }

  /** `TrimStart` leaves a suffix that still ends with a non-space last character. */
  lemma {:induction false} TrimStartKeepsLast(x: string)
    requires x != [] && !IsSpace(x[|x| - 1])
    ensures TrimStart(x) != [] && TrimStart(x)[|TrimStart(x)| - 1] == x[|x| - 1]
    ensures TrimEnd(TrimStart(x)) == TrimStart(x)
    decreases |x|
  {
    if IsSpace(x[0]) {
      TrimStartKeepsLast(x[1..]);
    }
  }

  /**
   * The matches are consecutive pieces of `s`: laid end to end they are the
   * piece that starts right after the leading terminators, and what follows
   * the last one holds no terminator. Only those two parts are dropped.
   */
  lemma {:induction false} SentencesCover(s: string)
    ensures Covers(s, TerminatorRun(s), Concat(SplitSentences(s)))
    decreases |s|
  {
    if s == [] {
    } else if IsTerminator(s[0]) {
      SentencesCover(s[1..]);
      CoverSkip(s);
    } else if NonTerminatorRun(s) < |s| {
      var q := NonTerminatorRun(s);
      var r := q + TerminatorRun(s[q..]);
      SentencesCover(s[r..]);
      CoverMatch(s, r, Concat(SplitSentences(s[r..])));
    }
  }

  /** `c` is the piece of `s` from `a` on, and nothing after it is a terminator. */
  predicate Covers(s: string, a: nat, c: string) {
    a + |c| <= |s| && s[a..a + |c|] == c &&
    forall k :: a + |c| <= k < |s| ==> !IsTerminator(s[k])
  }

  /** A leading terminator is stepped over by the scan and by the run of terminators alike. */
  lemma {:induction false} CoverSkip(s: string)
    requires s != [] && IsTerminator(s[0])
    requires Covers(s[1..], TerminatorRun(s[1..]), Concat(SplitSentences(s[1..])))
    ensures Covers(s, TerminatorRun(s), Concat(SplitSentences(s)))
  {
    CoverShift(s, 1, TerminatorRun(s[1..]), Concat(SplitSentences(s[1..])));
  }

  /** A match `s[..r]` followed by the cover of the rest is a cover of the whole. */
  lemma {:induction false} CoverMatch(s: string, r: nat, c: string)
    requires s != [] && !IsTerminator(s[0]) && NonTerminatorRun(s) < |s|
    requires r == NonTerminatorRun(s) + TerminatorRun(s[NonTerminatorRun(s)..])
    requires c == Concat(SplitSentences(s[r..]))
    requires Covers(s[r..], TerminatorRun(s[r..]), c)
    ensures Covers(s, TerminatorRun(s), Concat(SplitSentences(s)))
  {
    FirstMatch(s, r);
    ConcatCons(s[..r], SplitSentences(s[r..]));
    CoverPrepend(s, r, c);
  }

  /** From a non-terminator the matches are the first one and those of what follows it. */
  lemma {:induction false} FirstMatch(s: string, r: nat)
    requires s != [] && !IsTerminator(s[0]) && NonTerminatorRun(s) < |s|
    requires r == NonTerminatorRun(s) + TerminatorRun(s[NonTerminatorRun(s)..])
    ensures SplitSentences(s) == [s[..r]] + SplitSentences(s[r..])
    ensures TerminatorRun(s) == 0 && TerminatorRun(s[r..]) == 0
  {
    var q := NonTerminatorRun(s);
    assert r < |s| ==> s[r..][0] == s[q..][r - q];
  }

  /** A cover from the start of `s[r..]` extends to one from the start of `s`. */
  lemma {:induction false} CoverPrepend(s: string, r: nat, c: string)
    requires r <= |s| && Covers(s[r..], 0, c)
    ensures Covers(s, 0, s[..r] + c)
  {
    CoverShift(s, r, 0, c);
    assert s[..r] + s[r..r + |c|] == s[..r + |c|];
  }

  /** `Concat` of a list with a first element. */
  lemma {:induction false} ConcatCons(x: string, xs: seq<string>)
    ensures Concat([x] + xs) == x + Concat(xs)
  {
    assert ([x] + xs)[1..] == xs;
  }

  /** A cover of the suffix `s[d..]` found at offset `a` is one of `s` at offset `d + a`. */
  lemma {:induction false} CoverShift(s: string, d: nat, a: nat, c: string)
    requires d <= |s| && Covers(s[d..], a, c)
    ensures Covers(s, d + a, c)
  {
    assert s[d..][a..a + |c|] == s[d + a..d + a + |c|];
    forall k | d + a + |c| <= k < |s|
      ensures !IsTerminator(s[k])
    {
      assert s[k] == s[d..][k - d];
    }
  }

  /** Every match of the word pattern is a non-empty run of word characters. */
  lemma {:induction false} WordsAreWords(s: string)
    ensures forall w :: w in Words(s) ==> w != [] && forall k :: 0 <= k < |w| ==> IsWordChar(w[k])
    decreases |s|
  {
    if s == [] {
    } else if !IsWordChar(s[0]) {
      WordsAreWords(s[1..]);
    } else {
      WordsAreWords(s[WordRun(s)..]);
    }
  }

  /** The word pattern finds nothing exactly when `s` holds no word character. */
  lemma {:induction false} NoWordsIff(s: string)
    ensures Words(s) == [] <==> forall k :: 0 <= k < |s| ==> !IsWordChar(s[k])
    decreases |s|
  {
    if s != [] && !IsWordChar(s[0]) {
      NoWordsIff(s[1..]);
      assert forall k :: 1 <= k < |s| ==> s[k] == s[1..][k - 1];
    }
  }

  /**
   * The first word sits right after the leading non-word characters, is
   * followed by a non-word character or the end of `s`, and the other words
   * are those of what follows it: the words are the maximal runs.
   */
  lemma {:induction false} FirstWordMaximal(s: string)
    requires Words(s) != []
    ensures NonWordRun(s) + |Words(s)[0]| <= |s|
    ensures s[NonWordRun(s)..NonWordRun(s) + |Words(s)[0]|] == Words(s)[0]
    ensures NonWordRun(s) + |Words(s)[0]| < |s| ==> !IsWordChar(s[NonWordRun(s) + |Words(s)[0]|])
    ensures Words(s)[1..] == Words(s[NonWordRun(s) + |Words(s)[0]|..])
    decreases |s|
  {
    if !IsWordChar(s[0]) {
      FirstWordMaximal(s[1..]);
      var a := NonWordRun(s[1..]);
      var w := Words(s)[0];
      assert s[1..][a..a + |w|] == s[a + 1..a + 1 + |w|];
      assert s[1..][a + |w|..] == s[a + 1 + |w|..];
      assert a + |w| < |s[1..]| ==> s[1..][a + |w|] == s[a + 1 + |w|];
    } else {
      var q := WordRun(s);
      var xs := [s[..q]] + Words(s[q..]);
      assert xs[0] == s[..q] && xs[1..] == Words(s[q..]);
    }
  }
}
