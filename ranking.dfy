/**
 * The final reordering of the records by importance score, highest first
 * (app.py line 110). Python's sort is stable also with reverse=True, so
 * records of equal score keep the order of their rows. The sort is stated
 * by two predicates, proved of a functional reference sort and of the
 * in-place sort the handler runs, and shown to fix the result uniquely.
 */
module Ranking {
  import opened Scoring

  /** Scores never increase from left to right. */
  predicate SortedDesc(s: seq<Scored>) {
    forall p, q :: 0 <= p < q < |s| ==> s[p].importance10 >= s[q].importance10
  }

  /** The records of `s` whose score is `k`, in the order of `s`. */
  function WithScore(s: seq<Scored>, k: int): seq<Scored>
    decreases |s|
  {
    if s == [] then []
    else (if s[0].importance10 == k then [s[0]] else []) + WithScore(s[1..], k)
  }

  /** `t` reorders `s` keeping the relative order of records of equal score. */
  ghost predicate StableReorder(s: seq<Scored>, t: seq<Scored>) {
    forall k :: WithScore(s, k) == WithScore(t, k)
  }

  lemma {:induction false} WithScoreAppend(s: seq<Scored>, t: seq<Scored>, k: int)
    ensures WithScore(s + t, k) == WithScore(s, k) + WithScore(t, k)
    decreases |s|
  {
    if s == [] {
      assert s + t == t;
    } else {
      assert (s + t)[1..] == s[1..] + t;
      WithScoreAppend(s[1..], t, k);
    }
  }

  lemma {:induction false} WithScoreMembers(s: seq<Scored>, k: int, x: Scored)
    ensures x in WithScore(s, k) <==> x in s && x.importance10 == k
    decreases |s|
  {
    if s != [] {
      WithScoreMembers(s[1..], k, x);
      assert x in s <==> x == s[0] || x in s[1..];
    }
  }

  lemma {:induction false} WithScoreCount(s: seq<Scored>, x: Scored)
    ensures multiset(WithScore(s, x.importance10))[x] == multiset(s)[x]
    decreases |s|
  {
    if s != [] {
      WithScoreCount(s[1..], x);
      assert s == [s[0]] + s[1..];
    }
  }

  /** A stable reordering is a permutation. */
  lemma StableReorderIsPermutation(s: seq<Scored>, t: seq<Scored>)
    requires StableReorder(s, t)
    ensures multiset(s) == multiset(t)
  {
    forall x ensures multiset(s)[x] == multiset(t)[x] {
      WithScoreCount(s, x);
      WithScoreCount(t, x);
    }
  }

  /** Exchanging two neighbours of different score is a stable reordering. */
  lemma SwapNeighbours(s: seq<Scored>, j: int)
    requires 0 < j < |s| && s[j - 1].importance10 != s[j].importance10
    ensures StableReorder(s[j - 1 := s[j]][j := s[j - 1]], s)
  {
    var t := s[j - 1 := s[j]][j := s[j - 1]];
    var pre, x, y, post := s[..j - 1], s[j - 1], s[j], s[j + 1..];
    assert s == pre + [x, y] + post;
    assert t == pre + [y, x] + post;
    forall k ensures WithScore(t, k) == WithScore(s, k) {
      WithScoreAppend(pre + [x, y], post, k);
      WithScoreAppend(pre, [x, y], k);
      WithScoreAppend(pre + [y, x], post, k);
      WithScoreAppend(pre, [y, x], k);
      assert WithScore([x, y], k) == WithScore([y, x], k) by {
        assert [x, y][1..] == [y];
        assert [y, x][1..] == [x];
      }
    }
  }

  /** Stable descending order is unique: two sorted stable reorderings of
      each other are equal. */
  lemma {:induction false} StableSortUnique(s: seq<Scored>, t: seq<Scored>)
    requires SortedDesc(s) && SortedDesc(t) && StableReorder(s, t)
    ensures s == t
    decreases |s|
  {
    StableReorderIsPermutation(s, t);
    assert |s| == |multiset(s)| == |multiset(t)| == |t|;
    if s != [] {
      var a, b := s[0].importance10, t[0].importance10;
      WithScoreMembers(t, b, t[0]);
      WithScoreMembers(s, b, t[0]);
      WithScoreMembers(s, a, s[0]);
      WithScoreMembers(t, a, s[0]);
      assert a == b;
      assert WithScore(s, a) == [s[0]] + WithScore(s[1..], a);
      assert WithScore(t, a) == [t[0]] + WithScore(t[1..], a);
      assert s[0] == WithScore(s, a)[0] == WithScore(t, a)[0] == t[0];
      forall k ensures WithScore(s[1..], k) == WithScore(t[1..], k) {
        var h := if a == k then [s[0]] else [];
        assert WithScore(s, k) == h + WithScore(s[1..], k);
        assert WithScore(t, k) == h + WithScore(t[1..], k);
        assert WithScore(s, k) == WithScore(t, k);
        assert WithScore(s[1..], k) == WithScore(s, k)[|h|..];
        assert WithScore(t[1..], k) == WithScore(t, k)[|h|..];
      }
      StableSortUnique(s[1..], t[1..]);
      assert s == [s[0]] + s[1..] && t == [t[0]] + t[1..];
    }
  }

  /** Puts `x` after every record of `s` that scores at least as much. */
  function Insert(x: Scored, s: seq<Scored>): (r: seq<Scored>)
    ensures multiset(r) == multiset(s) + multiset{x}
    decreases |s|
  {
    if s == [] || s[0].importance10 < x.importance10 then [x] + s
    else
      assert s == [s[0]] + s[1..];
      [s[0]] + Insert(x, s[1..])
  }

  lemma {:induction false} InsertSorted(x: Scored, s: seq<Scored>)
    requires SortedDesc(s)
    ensures SortedDesc(Insert(x, s))
    decreases |s|
  {
    if s != [] && s[0].importance10 >= x.importance10 {
      InsertSorted(x, s[1..]);
      var r := Insert(x, s[1..]);
      forall y | y in r ensures y.importance10 <= s[0].importance10 {
        assert y in multiset(r);
      }
      assert forall q :: 0 < q < |r| + 1 ==> ([s[0]] + r)[q] == r[q - 1];
    }
  }

  lemma {:induction false} InsertWithScore(x: Scored, s: seq<Scored>, k: int)
    requires SortedDesc(s)
    ensures WithScore(Insert(x, s), k) == WithScore(s, k) + WithScore([x], k)
    decreases |s|
  {
    if s == [] {
    } else if s[0].importance10 < x.importance10 {
      assert ([x] + s)[1..] == s;
      if k == x.importance10 {
        forall y | y in s ensures y.importance10 != k { }
        NoneWithScore(s, k);
      }
    } else {
      InsertWithScore(x, s[1..], k);
      assert ([s[0]] + Insert(x, s[1..]))[1..] == Insert(x, s[1..]);
    }
  }

  lemma {:induction false} NoneWithScore(s: seq<Scored>, k: int)
    requires forall y :: y in s ==> y.importance10 != k
    ensures WithScore(s, k) == []
    decreases |s|
  {
    if s != [] {
      NoneWithScore(s[1..], k);
    }
  }

  /** The reference sort: insertion of the records one by one, in row order. */
  function Ranked(s: seq<Scored>): seq<Scored>
    decreases |s|
  {
    if s == [] then [] else Insert(s[|s| - 1], Ranked(s[..|s| - 1]))
  }

  /** The reference sort orders by score, highest first, and is stable. */
  lemma {:induction false} RankedIsStableSort(s: seq<Scored>)
    ensures SortedDesc(Ranked(s)) && StableReorder(Ranked(s), s)
    decreases |s|
  {
    if s != [] {
      var init, last := s[..|s| - 1], s[|s| - 1];
      RankedIsStableSort(init);
      InsertSorted(last, Ranked(init));
      assert s == init + [last];
      forall k ensures WithScore(Ranked(s), k) == WithScore(s, k) {
        InsertWithScore(last, Ranked(init), k);
        WithScoreAppend(init, [last], k);
      }
    }
  }

  /** Any sorted stable reordering is the reference sort. */
  lemma StableSortIsRanked(s: seq<Scored>, t: seq<Scored>)
    requires SortedDesc(t) && StableReorder(t, s)
    ensures t == Ranked(s)
  {
    RankedIsStableSort(s);
    StableSortUnique(t, Ranked(s));
  }

  lemma StableReorderTrans(s: seq<Scored>, t: seq<Scored>, u: seq<Scored>)
    requires StableReorder(s, t) && StableReorder(t, u)
    ensures StableReorder(s, u)
  {
  }

  /** Cancels a common tail: reorderings that agree after the prefix
      reorder the prefixes. */
  lemma StableReorderPrefix(s: seq<Scored>, t: seq<Scored>, u: seq<Scored>)
    requires StableReorder(s + u, t + u)
    ensures StableReorder(s, t)
  {
    forall k ensures WithScore(s, k) == WithScore(t, k) {
      WithScoreAppend(s, u, k);
      WithScoreAppend(t, u, k);
      var ws, wt, wu := WithScore(s, k), WithScore(t, k), WithScore(u, k);
      assert ws + wu == wt + wu;
      assert ws == (ws + wu)[..|ws|] && wt == (wt + wu)[..|wt|];
    }
  }

  /** A sorted stable reordering of `s + [x]` is the insertion of x into s. */
  lemma SortedReorderIsInsert(t: seq<Scored>, s: seq<Scored>, x: Scored)
    requires SortedDesc(s) && SortedDesc(t) && StableReorder(t, s + [x])
    ensures t == Insert(x, s)
  {
    InsertSorted(x, s);
    forall k ensures WithScore(t, k) == WithScore(Insert(x, s), k) {
      InsertWithScore(x, s, k);
      WithScoreAppend(s, [x], k);
    }
    StableSortUnique(t, Insert(x, s));
  }

  /** What an insertion pass leaves in the prefix up to i: the record that
      was at i inserted into the sorted prefix before it. */
  lemma InsertedPrefix(before: seq<Scored>, after: seq<Scored>, i: int)
    requires 0 <= i < |before| == |after|
    requires forall p, q :: 0 <= p < q < i ==> before[p].importance10 >= before[q].importance10
    requires forall p, q :: 0 <= p < q <= i ==> after[p].importance10 >= after[q].importance10
    requires StableReorder(after, before) && after[i + 1..] == before[i + 1..]
    ensures after[..i + 1] == Insert(before[i], before[..i])
  {
    var t, s, x, u := after[..i + 1], before[..i], before[i], after[i + 1..];
    assert SortedDesc(s) && SortedDesc(t);
    assert after == t + u;
    assert before == s + [x] + u;
    StableReorderPrefix(t, s + [x], u);
    SortedReorderIsInsert(t, s, x);
  }

  /** Before pass i the prefix of length i is sorted. */
  lemma RankedPrefixSorted(orig: seq<Scored>, before: seq<Scored>, i: int)
    requires 0 <= i <= |before| && i <= |orig| && before[..i] == Ranked(orig[..i])
    ensures forall p, q :: 0 <= p < q < i ==> before[p].importance10 >= before[q].importance10
  {
    RankedIsStableSort(orig[..i]);
    assert forall p :: 0 <= p < i ==> before[p] == before[..i][p];
  }

  /** Pass i of the in-place sort takes the reference sort of the first i
      records to the reference sort of the first i + 1. */
  lemma PassExtendsRanked(orig: seq<Scored>, before: seq<Scored>, after: seq<Scored>, i: int)
    requires 0 <= i < |orig| == |before| == |after|
    requires before[..i] == Ranked(orig[..i]) && before[i..] == orig[i..]
    requires forall p, q :: 0 <= p < q <= i ==> after[p].importance10 >= after[q].importance10
    requires StableReorder(after, before) && after[i + 1..] == before[i + 1..]
    ensures after[..i + 1] == Ranked(orig[..i + 1]) && after[i + 1..] == orig[i + 1..]
  {
    RankedPrefixSorted(orig, before, i);
    InsertedPrefix(before, after, i);
    assert before[i] == orig[i] by { assert before[i] == before[i..][0]; }
    RankedPrefixStep(orig, i);
    assert orig[i + 1..] == orig[i..][1..] && before[i + 1..] == before[i..][1..];
  }

  /** The reference sort of one more record inserts that record. */
  lemma RankedPrefixStep(s: seq<Scored>, i: int)
    requires 0 <= i < |s|
    ensures Ranked(s[..i + 1]) == Insert(s[i], Ranked(s[..i]))
  {
    assert s[..i + 1][..i] == s[..i];
  }

  /** The state of an insertion pass that has moved the record from i down
      to j: the prefix up to i is sorted apart from position j, and the
      record at j scores more than every record after it up to i. */
  ghost predicate Sinking(s: seq<Scored>, j: int, i: int)
    requires 0 <= j <= i < |s|
  {
    (forall p, q :: 0 <= p < q <= i && p != j && q != j ==> s[p].importance10 >= s[q].importance10) &&
    (forall q :: j < q <= i ==> s[j].importance10 > s[q].importance10)
  }

  /** One exchange moves the sinking record one place left. */
  lemma SinkingSwap(s: seq<Scored>, j: int, i: int)
    requires 0 < j <= i < |s| && Sinking(s, j, i)
    requires s[j - 1].importance10 < s[j].importance10
    ensures Sinking(s[j - 1 := s[j]][j := s[j - 1]], j - 1, i)
  {
  }

  /** The pass stops once the record no longer outscores its left neighbour. */
  lemma SinkingDone(s: seq<Scored>, j: int, i: int)
    requires 0 <= j <= i < |s| && Sinking(s, j, i)
    requires j == 0 || s[j - 1].importance10 >= s[j].importance10
    ensures forall p, q :: 0 <= p < q <= i ==> s[p].importance10 >= s[q].importance10
  {
  }

  /**
   * Moves the record at index i left past every record of lower score, so
   * that a sorted prefix of length i becomes one of length i + 1.
   */
  method InsertStep(a: array<Scored>, i: int)
    requires 0 <= i < a.Length
    requires forall p, q :: 0 <= p < q < i ==> a[p].importance10 >= a[q].importance10
    modifies a
    ensures forall p, q :: 0 <= p < q <= i ==> a[p].importance10 >= a[q].importance10
    ensures StableReorder(a[..], old(a[..]))
    ensures a[i + 1..] == old(a[i + 1..])
  {
    var j := i;
    while 0 < j && a[j - 1].importance10 < a[j].importance10
      invariant 0 <= j <= i
      invariant Sinking(a[..], j, i)
      invariant StableReorder(a[..], old(a[..]))
      invariant a[i + 1..] == old(a[i + 1..])
    {
      ghost var before := a[..];
      SwapNeighbours(before, j);
      SinkingSwap(before, j, i);
      a[j - 1], a[j] := a[j], a[j - 1];
      assert a[..] == before[j - 1 := before[j]][j := before[j - 1]];
      assert a[i + 1..] == before[i + 1..];
      StableReorderTrans(a[..], before, old(a[..]));
      j := j - 1;
    }
    SinkingDone(a[..], j, i);
  }

  /**
   * Sorts the array in place by score, highest first, keeping records of
   * equal score in their original order: insertion sort by neighbour swaps,
   * which only ever exchanges records of different score. After pass i the
   * prefix of length i is the reference sort of the first i records.
   */
  method RankInPlace(a: array<Scored>)
    modifies a
    ensures SortedDesc(a[..]) && StableReorder(a[..], old(a[..]))
    ensures a[..] == Ranked(old(a[..]))
  {
    var i := 0;
    while i < a.Length
      invariant 0 <= i <= a.Length
      invariant a[..i] == Ranked(old(a[..i]))
      invariant a[i..] == old(a[i..])
    {
      ghost var before := a[..];
      RankedPrefixSorted(old(a[..]), before, i);
      InsertStep(a, i);
      PassExtendsRanked(old(a[..]), before, a[..], i);
      i := i + 1;
    }
    assert a[..] == a[..a.Length] && old(a[..]) == old(a[..a.Length]);
    RankedIsStableSort(old(a[..]));
  }
}
