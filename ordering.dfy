/**
 * The ordering of the filtered repositories in `main`: the comparator closure handed
 * to `sort.Slice`, and an in-place sort of the repository array by that comparator.
 */
module Ordering {
  import opened GitHub
  import opened Selection

  /**
   * The comparator: listed repositories in list order, listed before unlisted,
   * unlisted ones most recently updated first.
   */
  predicate Less(a: Repository, b: Repository, priorityList: seq<string>): (r: bool)
    ensures r <==> RankBefore(RankOf(a, priorityList), RankOf(b, priorityList))
  {
    var ia := GetPriorityIndex(a.name, priorityList);
    var ib := GetPriorityIndex(b.name, priorityList);
    if ia >= 0 && ib >= 0 then ia < ib
    else if ia >= 0 then true
    else if ib >= 0 then false
    else a.updatedAt > b.updatedAt
  }

  /** A sort key: listed repositories rank by list position, unlisted ones after them by recency. */
  datatype Rank = Listed(index: int) | Unlisted(updatedAt: int)

  function RankOf(r: Repository, priorityList: seq<string>): Rank {
    var i := GetPriorityIndex(r.name, priorityList);
    if i >= 0 then Listed(i) else Unlisted(r.updatedAt)
  }

  /** Lexicographic order on ranks: every listed rank before every unlisted one. */
  predicate RankBefore(x: Rank, y: Rank) {
    match (x, y)
    case (Listed(i), Listed(j)) => i < j
    case (Listed(_), Unlisted(_)) => true
    case (Unlisted(_), Listed(_)) => false
    case (Unlisted(s), Unlisted(t)) => s > t
  }

  /** No repository goes before itself. */
  lemma LessIrreflexive(a: Repository, priorityList: seq<string>)
    ensures !Less(a, a, priorityList)
  {
  }

  lemma LessAsymmetric(a: Repository, b: Repository, priorityList: seq<string>)
    ensures Less(a, b, priorityList) ==> !Less(b, a, priorityList)
  {
  }

  lemma LessTransitive(a: Repository, b: Repository, c: Repository, priorityList: seq<string>)
    ensures Less(a, b, priorityList) && Less(b, c, priorityList) ==> Less(a, c, priorityList)
  {
  }

  /**
   * Not going before is transitive too, so "neither goes before the other" is an equivalence:
   * the comparator is a strict weak ordering, as `sort.Slice` requires.
   */
  lemma NotLessTransitive(a: Repository, b: Repository, c: Repository, priorityList: seq<string>)
    ensures !Less(a, b, priorityList) && !Less(b, c, priorityList) ==> !Less(a, c, priorityList)
  {
  }

  /** No later element goes before an earlier one. */
  ghost predicate SortedBy(s: seq<Repository>, priorityList: seq<string>) {
    forall i, j :: 0 <= i < j < |s| ==> !Less(s[j], s[i], priorityList)
  }

  /**
   * What a sorted list looks like: listed repositories first, in ascending list position,
   * then the rest with non-increasing update time.
   */
  lemma SortedOrder(s: seq<Repository>, priorityList: seq<string>)
    requires SortedBy(s, priorityList)
    ensures forall i, j :: 0 <= i < j < |s| && GetPriorityIndex(s[j].name, priorityList) >= 0 ==>
      GetPriorityIndex(s[i].name, priorityList) >= 0
    ensures forall i, j :: 0 <= i < j < |s| && GetPriorityIndex(s[j].name, priorityList) >= 0 ==>
      GetPriorityIndex(s[i].name, priorityList) <= GetPriorityIndex(s[j].name, priorityList)
    ensures forall i, j :: 0 <= i < j < |s| && GetPriorityIndex(s[i].name, priorityList) < 0 ==>
      GetPriorityIndex(s[j].name, priorityList) < 0 && s[i].updatedAt >= s[j].updatedAt
  {
  }

  /** The first `n` elements of `s` are sorted by the comparator. */
  ghost predicate SortedUpTo(s: seq<Repository>, n: int, priorityList: seq<string>) {
    forall p, q :: 0 <= p < q < n && q < |s| ==> !Less(s[q], s[p], priorityList)
  }

  /** While `s[j]` is being inserted: `s[..i + 1]` without position `j` is sorted. */
  ghost predicate SortedExcept(s: seq<Repository>, i: int, j: int, priorityList: seq<string>) {
    forall p, q :: 0 <= p < q <= i && q < |s| && p != j && q != j ==> !Less(s[q], s[p], priorityList)
  }

  /** While `s[j]` is being inserted: it goes before every element it has been moved past. */
  ghost predicate PassedOver(s: seq<Repository>, i: int, j: int, priorityList: seq<string>)
    requires 0 <= j < |s|
  {
    forall q :: j < q <= i && q < |s| ==> Less(s[j], s[q], priorityList)
  }

  /** Moving the element being inserted one place left keeps the insertion invariant. */
  lemma SwapStep(s: seq<Repository>, i: int, j: int, priorityList: seq<string>)
    requires 0 < j <= i < |s|
    requires SortedExcept(s, i, j, priorityList) && PassedOver(s, i, j, priorityList)
    requires Less(s[j], s[j - 1], priorityList)
    ensures var t := s[j - 1 := s[j]][j := s[j - 1]];
      SortedExcept(t, i, j - 1, priorityList) && PassedOver(t, i, j - 1, priorityList)
  {
  }

  /** Once the element being inserted no longer goes before its left neighbour, the prefix is sorted. */
  lemma InsertDone(s: seq<Repository>, i: int, j: int, priorityList: seq<string>)
    requires 0 <= j <= i < |s|
    requires SortedExcept(s, i, j, priorityList) && PassedOver(s, i, j, priorityList)
    requires j == 0 || !Less(s[j], s[j - 1], priorityList)
    ensures SortedUpTo(s, i + 1, priorityList)
  {
    forall p | 0 <= p < j
      ensures !Less(s[j], s[p], priorityList)
    {
      NotLessTransitive(s[j], s[j - 1], s[p], priorityList);
    }
    forall q | j < q <= i
      ensures !Less(s[q], s[j], priorityList)
    {
      LessAsymmetric(s[j], s[q], priorityList);
    }
  }

  /** `sort.Slice(filteredRepos, less)`, here as an insertion sort by the same comparator. */
  method SortRepos(a: array<Repository>, priorityList: seq<string>)
    modifies a
    ensures SortedBy(a[..], priorityList)
    ensures multiset(a[..]) == multiset(old(a[..]))
  {
    for i := 0 to a.Length
      invariant SortedUpTo(a[..], i, priorityList)
      invariant multiset(a[..]) == multiset(old(a[..]))
    {
      InsertLast(a, i, priorityList);
    }
  }

  /** Moves `a[i]` left past every element it goes before, extending the sorted prefix by one. */
  method InsertLast(a: array<Repository>, i: int, priorityList: seq<string>)
    requires 0 <= i < a.Length && SortedUpTo(a[..], i, priorityList)
    modifies a
    ensures SortedUpTo(a[..], i + 1, priorityList)
    ensures multiset(a[..]) == multiset(old(a[..]))
    ensures a[i + 1..] == old(a[i + 1..])
  {
    var j := i;
    while j > 0 && Less(a[j], a[j - 1], priorityList)
      invariant 0 <= j <= i
      invariant SortedExcept(a[..], i, j, priorityList) && PassedOver(a[..], i, j, priorityList)
      invariant multiset(a[..]) == multiset(old(a[..]))
      invariant forall k :: i < k < a.Length ==> a[k] == old(a[k])
    {
      ghost var s := a[..];
      SwapStep(s, i, j, priorityList);
      Swap(a, j - 1, j);
      assert a[..] == s[j - 1 := s[j]][j := s[j - 1]];
      j := j - 1;
    }
    InsertDone(a[..], i, j, priorityList);
    assert a[i + 1..] == old(a[i + 1..]);
  }

  /** Exchanges two neighbouring elements. */
  method Swap(a: array<Repository>, p: int, q: int)
    requires 0 <= p < q < a.Length
    modifies a
    ensures a[p] == old(a[q]) && a[q] == old(a[p])
    ensures forall k :: 0 <= k < a.Length && k != p && k != q ==> a[k] == old(a[k])
    ensures multiset(a[..]) == multiset(old(a[..]))
  {
    a[p], a[q] := a[q], a[p];
  }

  /** Repository "a" is listed, "b" is not and was updated later: every sorted arrangement puts "a" first. */
  lemma ListedBeforeNewerScenario(a: Repository, b: Repository, s: seq<Repository>)
    requires a.name == "a" && b.name == "b" && b.updatedAt > a.updatedAt
    requires multiset(s) == multiset([b, a]) && SortedBy(s, ["a"])
    ensures s == [a, b]
  {
    assert GetPriorityIndex(a.name, ["a"]) == 0;
    assert Text.FoldAscii(b.name[0]) == 'b';
    assert !Text.EqualFold(b.name, "a");
    assert GetPriorityIndex(b.name, ["a"]) == -1;
    assert |s| == 2 by {
      assert |multiset(s)| == |s|;
    }
    assert s == [s[0], s[1]];
    assert s[0] in multiset(s) && s[1] in multiset(s);
    assert s[0] == a;
    assert multiset([a, s[1]]) == multiset([b, a]);
  }
}
