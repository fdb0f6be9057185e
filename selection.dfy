/**
 * The two in-place sorts of `generateLocalSummary` (backend/utils/summarizer.js:66-69):
 * by score, descending, then the kept prefix by original index, ascending.
 * `Array.prototype.sort` is stable, and with a consistent comparator every
 * stable sort produces the same array; the model uses insertion sort.
 */
module Selection {
  import opened Scoring

  /** Which of the two comparators is in use. */
  datatype Key = ByScore | ByIndex

  /**
   * The comparator passed to `sort`: `(a, b) => b.score - a.score` or
   * `(a, b) => a.index - b.index`. A positive value puts `b` before `a`.
   */
  function Compare(key: Key, a: Scored, b: Scored): int {
    match key
    case ByScore => b.score - a.score
    case ByIndex => a.index - b.index
  }

  /**
   * The strict order a stable sort produces: by score, descending, with equal
   * scores kept in original (index) order; or by index alone.
   */
  predicate Before(key: Key, x: Scored, y: Scored) {
    match key
    case ByScore => x.score > y.score || (x.score == y.score && x.index < y.index)
    case ByIndex => x.index < y.index
  }

  ghost predicate Ordered(key: Key, s: seq<Scored>) {
    forall i, j :: 0 <= i < j < |s| ==> Before(key, s[i], s[j])
  }

  ghost predicate DistinctIndices(s: seq<Scored>) {
    forall i, j :: 0 <= i < j < |s| ==> s[i].index != s[j].index
  }

  /**
   * Where one insertion step of a stable sort puts `x` in the sorted prefix
   * `t`: scanning from the right, past every element the comparator says must
   * come after `x`, up to the first that need not.
   */
  function InsertPosition(key: Key, t: seq<Scored>, x: Scored): (p: nat)
    ensures p <= |t|
    decreases |t|
  {
    if t == [] then 0
    else if Compare(key, t[|t| - 1], x) > 0 then InsertPosition(key, t[..|t| - 1], x)
    else |t|
  }

  /** One insertion step: `x` placed at its insertion position. */
  function Insert(key: Key, t: seq<Scored>, x: Scored): seq<Scored> {
    var p := InsertPosition(key, t, x);
    t[..p] + [x] + t[p..]
  }

  /** The array `sort` leaves: each element inserted, left to right, into the sorted prefix. */
  function Sort(key: Key, s: seq<Scored>): seq<Scored>
    decreases |s|
  {
    if s == [] then [] else Insert(key, Sort(key, s[..|s| - 1]), s[|s| - 1])
  }

  /** `a.sort(comparator)`: a stable insertion sort in place. */
  method SortInPlace(a: array<Scored>, key: Key)
    modifies a
    ensures a[..] == Sort(key, old(a[..]))
  {
    ghost var orig := a[..];
    var i := 0;
    assert orig[..0] == [] && orig[0..] == orig;
    while i < a.Length
      invariant 0 <= i <= a.Length
      invariant a[..] == Sort(key, orig[..i]) + orig[i..]
    {
      ghost var t := Sort(key, orig[..i]);
      SortElements(key, orig[..i]);
      SplitAt(t, orig, i);
      InsertInPlace(a, key, i, t, orig[i + 1..]);
      SortStep(key, orig, i);
      i := i + 1;
    }
    assert orig[..a.Length] == orig;
  }

  /** The sorted prefix grows by one insertion; the unsorted rest loses its first element. */
  lemma SortStep(key: Key, orig: seq<Scored>, i: nat)
    requires i < |orig|
    ensures Sort(key, orig[..i + 1]) == Insert(key, Sort(key, orig[..i]), orig[i])
  {
    assert orig[..i + 1][..i] == orig[..i];
  }

  /** Splitting the unsorted rest at its first element. */
  lemma SplitAt(t: seq<Scored>, orig: seq<Scored>, i: nat)
    requires i < |orig|
    ensures t + orig[i..] == t + [orig[i]] + orig[i + 1..]
  {
    assert orig[i..] == [orig[i]] + orig[i + 1..];
  }

  /**
   * One pass of the insertion sort: `a[i]` moves into the sorted prefix `a[..i]`.
   * `t` and `rest` name the prefix and the part after `a[i]`.
   */
  method InsertInPlace(a: array<Scored>, key: Key, i: nat, ghost t: seq<Scored>, ghost rest: seq<Scored>)
    requires i < a.Length && |t| == i
    requires a[..] == t + [a[i]] + rest
    modifies a
    ensures a[..] == Insert(key, t, old(a[i])) + rest
  {
    var x := a[i];
    ghost var p := InsertPosition(key, t, x);
    var j := i;
    assert t[..j] == t && t[j..] == [];
    while j > 0 && Compare(key, a[j - 1], x) > 0
      invariant 0 <= j <= i
      invariant a[..] == t[..j] + [x] + t[j..] + rest
      invariant p == InsertPosition(key, t[..j], x)
    {
      ghost var before := a[..];
      var y := a[j - 1];
      LeftNeighbour(t, x, rest, j);
      PositionPasses(key, t, x, j);
      SwapStep(t, x, rest, j);
      a[j - 1] := x;
      a[j] := y;
      assert a[..] == before[j - 1 := x][j := y];
      j := j - 1;
    }
    if j > 0 {
      LeftNeighbour(t, x, rest, j);
    }
    PositionStops(key, t, x, j);
  }

  /** The element left of `x` is the last element of the part of `t` before it. */
  lemma LeftNeighbour(t: seq<Scored>, x: Scored, rest: seq<Scored>, j: nat)
    requires 0 < j <= |t|
    ensures (t[..j] + [x] + t[j..] + rest)[j - 1] == t[j - 1]
  {
  }

  /** `x` passes an element that must follow it: the position is that of the shorter prefix. */
  lemma PositionPasses(key: Key, t: seq<Scored>, x: Scored, j: nat)
    requires 0 < j <= |t| && Compare(key, t[j - 1], x) > 0
    ensures InsertPosition(key, t[..j], x) == InsertPosition(key, t[..j - 1], x)
  {
    assert t[..j][..j - 1] == t[..j - 1];
  }

  /** `x` stops at the front or behind an element it need not precede. */
  lemma PositionStops(key: Key, t: seq<Scored>, x: Scored, j: nat)
    requires j <= |t| && (j == 0 || Compare(key, t[j - 1], x) <= 0)
    ensures InsertPosition(key, t[..j], x) == j
  {
  }

  /** Swapping `x` with its left neighbour moves it one place left. */
  lemma SwapStep(t: seq<Scored>, x: Scored, rest: seq<Scored>, j: nat)
    requires 0 < j <= |t|
    ensures (t[..j] + [x] + t[j..] + rest)[j - 1 := x][j := t[j - 1]]
         == t[..j - 1] + [x] + t[j - 1..] + rest
  {
    var l := (t[..j] + [x] + t[j..] + rest)[j - 1 := x][j := t[j - 1]];
    var r := t[..j - 1] + [x] + t[j - 1..] + rest;
    assert |l| == |r|;
    forall k | 0 <= k < |l|
      ensures l[k] == r[k]
    {
    }
  }

  /**
   * The insertion position splits `t` into a left part whose last element
   * need not follow `x` and a right part whose elements must.
   */
  lemma {:induction false} InsertPositionSplits(key: Key, t: seq<Scored>, x: Scored)
    ensures InsertPosition(key, t, x) > 0 ==> Compare(key, t[InsertPosition(key, t, x) - 1], x) <= 0
    ensures forall m :: InsertPosition(key, t, x) <= m < |t| ==> Compare(key, t[m], x) > 0
    decreases |t|
  {
    if t != [] && Compare(key, t[|t| - 1], x) > 0 {
      InsertPositionSplits(key, t[..|t| - 1], x);
    }
  }

  /** Inserting keeps every element and adds `x`. */
  lemma InsertElements(key: Key, t: seq<Scored>, x: Scored)
    ensures |Insert(key, t, x)| == |t| + 1
    ensures multiset(Insert(key, t, x)) == multiset(t) + multiset{x}
  {
    var p := InsertPosition(key, t, x);
    assert t == t[..p] + t[p..];
  }

  /** Sorting is a permutation. */
  lemma {:induction false} SortElements(key: Key, s: seq<Scored>)
    ensures |Sort(key, s)| == |s|
    ensures multiset(Sort(key, s)) == multiset(s)
    decreases |s|
  {
    if s != [] {
      SortElements(key, s[..|s| - 1]);
      InsertElements(key, Sort(key, s[..|s| - 1]), s[|s| - 1]);
      assert s == s[..|s| - 1] + [s[|s| - 1]];
    }
  }

  /** `Before` is transitive for both comparators. */
  lemma BeforeTransitive(key: Key, x: Scored, y: Scored, z: Scored)
    requires Before(key, x, y) && Before(key, y, z)
    ensures Before(key, x, z)
  {
  }

  /** Inserting into an ordered prefix keeps it ordered, given what the sort knows about `x`. */
  lemma InsertOrdered(key: Key, t: seq<Scored>, x: Scored)
    requires Ordered(key, t)
    requires forall e :: e in t ==> e.index != x.index
    requires key == ByScore ==> forall e :: e in t ==> e.index < x.index
    ensures Ordered(key, Insert(key, t, x))
  {
    var p := InsertPosition(key, t, x);
    InsertPositionSplits(key, t, x);
    var u := Insert(key, t, x);
    forall k | 0 <= k < |t|
      ensures k < p ==> Before(key, t[k], x)
      ensures p <= k ==> Before(key, x, t[k])
    {
      assert t[k] in t;
      if k < p {
        assert t[p - 1] in t;
        if k < p - 1 {
          BeforeTransitive(key, t[k], t[p - 1], x);
        }
      }
    }
    forall i, j | 0 <= i < j < |u|
      ensures Before(key, u[i], u[j])
    {
      if j < p || i > p {
        assert Before(key, t[if i < p then i else i - 1], t[if j < p then j else j - 1]);
      }
    }
  }

  /**
   * When the input is in index order (as `scoredSentences` is) or, for the
   * index comparator, merely has distinct indices, the sorted array is
   * strictly ordered by `Before`: this is where stability shows.
   */
  lemma {:induction false} SortOrdered(key: Key, s: seq<Scored>)
    requires DistinctIndices(s)
    requires key == ByScore ==> forall i, j :: 0 <= i < j < |s| ==> s[i].index < s[j].index
    ensures Ordered(key, Sort(key, s))
    decreases |s|
  {
    if s != [] {
      var init := s[..|s| - 1];
      var x := s[|s| - 1];
      SortOrdered(key, init);
      SortElements(key, init);
      var t := Sort(key, init);
      forall e | e in t
        ensures e.index != x.index
        ensures key == ByScore ==> e.index < x.index
      {
        assert e in multiset(init);
        var k :| 0 <= k < |init| && init[k] == e;
        assert s[k] == e;
      }
      InsertOrdered(key, t, x);
    }
  }

  function Min(a: nat, b: nat): nat {
    if a < b then a else b
  }

  /**
   * Lines 66-69: sort by score, keep `Math.min(sentenceCount, scored.length)`
   * entries, sort those by index.
   */
  function Keep(scored: seq<Scored>, sentenceCount: nat): seq<Scored> {
    SortElements(ByScore, scored);
    Sort(ByIndex, Sort(ByScore, scored)[..Min(sentenceCount, |scored|)])
  }

  /** Every entry sits at its own position, as `sentences.map((sentence, index) => ...)` builds them. */
  ghost predicate Indexed(scored: seq<Scored>) {
    forall i :: 0 <= i < |scored| ==> scored[i].index == i
  }

  /** Every entry of `s` is the entry of `scored` at its own index. */
  ghost predicate AtOwnIndex(scored: seq<Scored>, s: seq<Scored>) {
    forall k :: 0 <= k < |s| ==> s[k].index < |scored| && scored[s[k].index] == s[k]
  }

  /** The entries of a sub-multiset of an indexed sequence sit at their own index. */
  lemma AtOwnIndexFromElements(scored: seq<Scored>, s: seq<Scored>)
    requires Indexed(scored)
    requires multiset(s) <= multiset(scored)
    ensures AtOwnIndex(scored, s)
  {
    forall k | 0 <= k < |s|
      ensures s[k].index < |scored| && scored[s[k].index] == s[k]
    {
      assert s[k] in multiset(scored);
      var m :| 0 <= m < |scored| && scored[m] == s[k];
    }
  }

  /** Facts about the score-sorted array shared by the selection lemmas. */
  lemma SortedByScore(scored: seq<Scored>)
    requires Indexed(scored)
    ensures |Sort(ByScore, scored)| == |scored|
    ensures Ordered(ByScore, Sort(ByScore, scored))
    ensures multiset(Sort(ByScore, scored)) == multiset(scored)
    ensures AtOwnIndex(scored, Sort(ByScore, scored))
  {
    SortOrdered(ByScore, scored);
    SortElements(ByScore, scored);
    AtOwnIndexFromElements(scored, Sort(ByScore, scored));
  }

  /** Exactly `min(sentenceCount, |scored|)` entries are kept. */
  lemma {:induction false} KeepCount(scored: seq<Scored>, sentenceCount: nat)
    ensures |Keep(scored, sentenceCount)| == Min(sentenceCount, |scored|)
    ensures sentenceCount >= |scored| ==> multiset(Keep(scored, sentenceCount)) == multiset(scored)
  {
    var sorted := Sort(ByScore, scored);
    SortElements(ByScore, scored);
    SortElements(ByIndex, sorted[..Min(sentenceCount, |scored|)]);
    assert sorted[..|scored|] == sorted;
  }

  /**
   * Every kept entry beats every entry left out: a higher score, or an equal
   * score and an earlier position.
   */
  lemma KeepDominates(scored: seq<Scored>, sentenceCount: nat, i: nat, j: nat)
    requires Indexed(scored)
    requires i < |scored| && j < |scored|
    requires scored[i] in Keep(scored, sentenceCount) && scored[j] !in Keep(scored, sentenceCount)
    ensures scored[i].score >= scored[j].score
    ensures scored[i].score == scored[j].score ==> i < j
  {
    var sorted := Sort(ByScore, scored);
    var k := Min(sentenceCount, |scored|);
    var sel := Keep(scored, sentenceCount);
    SortedByScore(scored);
    SortElements(ByIndex, sorted[..k]);
    assert scored[i] in multiset(sel) && scored[j] !in multiset(sel);
    PrefixDominates(scored, sorted, k, sel, scored[i], scored[j]);
  }

  /** The dominance argument, on plain sequences: a prefix of an ordered permutation. */
  lemma PrefixDominates(scored: seq<Scored>, sorted: seq<Scored>, k: nat, sel: seq<Scored>, x: Scored, y: Scored)
    requires Ordered(ByScore, sorted) && multiset(sorted) == multiset(scored)
    requires k <= |sorted| && multiset(sel) == multiset(sorted[..k])
    requires x in multiset(sel) && y in multiset(scored) && y !in multiset(sel)
    ensures Before(ByScore, x, y)
  {
    var top := sorted[..k];
    assert x in multiset(top);
    var p :| 0 <= p < k && top[p] == x;
    assert y in multiset(sorted);
    var q :| 0 <= q < |sorted| && sorted[q] == y;
    assert forall m :: 0 <= m < k ==> sorted[m] == top[m] && top[m] in multiset(top);
    assert q >= k;
    OrderedAt(ByScore, sorted, p, q);
  }

  lemma OrderedAt(key: Key, s: seq<Scored>, p: nat, q: nat)
    requires Ordered(key, s) && p < q < |s|
    ensures Before(key, s[p], s[q])
  {
  }

  /** The kept entries are entries of `scored`, in their original order. */
  lemma KeepInOrder(scored: seq<Scored>, sentenceCount: nat)
    requires Indexed(scored)
    ensures AtOwnIndex(scored, Keep(scored, sentenceCount))
    ensures forall p, q :: 0 <= p < q < |Keep(scored, sentenceCount)| ==>
      Keep(scored, sentenceCount)[p].index < Keep(scored, sentenceCount)[q].index
  {
    var sorted := Sort(ByScore, scored);
    var k := Min(sentenceCount, |scored|);
    var sel := Keep(scored, sentenceCount);
    SortedByScore(scored);
    PrefixFacts(scored, sorted, k);
    SortOrdered(ByIndex, sorted[..k]);
    SortElements(ByIndex, sorted[..k]);
    AtOwnIndexFromElements(scored, sel);
    assert Ordered(ByIndex, sel);
  }

  /** A prefix of a faithful ordered permutation has distinct indices and no new elements. */
  lemma PrefixFacts(scored: seq<Scored>, sorted: seq<Scored>, k: nat)
    requires Ordered(ByScore, sorted) && AtOwnIndex(scored, sorted)
    requires multiset(sorted) == multiset(scored) && k <= |sorted|
    ensures DistinctIndices(sorted[..k])
    ensures multiset(sorted[..k]) <= multiset(scored)
  {
    var top := sorted[..k];
    forall p, q | 0 <= p < q < |top|
      ensures top[p].index != top[q].index
    {
      OrderedAt(ByScore, sorted, p, q);
    }
    assert sorted == top + sorted[k..];
  }
}
