/** The three orders of the job list, and why the result does not depend on how the job map was walked. */
module Ordering {
  import opened Domain

  datatype SortMode = ByDefault | ByLastRun | ByNextRun

  /** The comparators as written. */
  predicate Less(mode: SortMode, a: JobInfo, b: JobInfo) {
    match mode
    case ByLastRun =>
      if a.lastRun == ZERO_TIME && b.lastRun == ZERO_TIME then a.sortIndex < b.sortIndex
      else if a.lastRun == ZERO_TIME then false
      else if b.lastRun == ZERO_TIME then true
      else if a.lastRun == b.lastRun then a.sortIndex < b.sortIndex
      else a.lastRun > b.lastRun
    case ByNextRun =>
      if a.nextRun == ZERO_TIME && b.nextRun == ZERO_TIME then a.sortIndex < b.sortIndex
      else if a.nextRun == ZERO_TIME then false
      else if b.nextRun == ZERO_TIME then true
      else if a.nextRun == b.nextRun then a.sortIndex < b.sortIndex
      else a.nextRun < b.nextRun
    case ByDefault => a.sortIndex < b.sortIndex
  }

  /** No job comes after one it should precede. */
  ghost predicate Sorted(mode: SortMode, s: seq<JobInfo>) {
    forall i, j :: 0 <= i < j < |s| ==> !Less(mode, s[j], s[i])
  }

  /** A position names one job. */
  ghost predicate PositionsNameJobs(s: seq<JobInfo>) {
    forall a, b :: a in s && b in s && a.sortIndex == b.sortIndex ==> a == b
  }

  /** Each comparator is a strict order in which only equal positions can tie. */
  lemma LessIsStrictOrder(mode: SortMode, a: JobInfo, b: JobInfo, c: JobInfo)
    ensures !Less(mode, a, a)
    ensures !(Less(mode, a, b) && Less(mode, b, a))
    ensures Less(mode, a, b) && Less(mode, b, c) ==> Less(mode, a, c)
    ensures !Less(mode, b, a) && !Less(mode, c, b) ==> !Less(mode, c, a)
    ensures a.sortIndex != b.sortIndex ==> Less(mode, a, b) || Less(mode, b, a)
  {
  }

  lemma FirstIsLeast(mode: SortMode, a: seq<JobInfo>, b: seq<JobInfo>)
    requires Sorted(mode, a) && Sorted(mode, b) && PositionsNameJobs(a)
    requires a != [] && b != [] && (forall x :: x in a <==> x in b)
    ensures a[0] == b[0]
  {
    if a[0] != b[0] {
      assert b[0] in a && a[0] in b;
      var i :| 0 < i < |a| && a[i] == b[0];
      var j :| 0 < j < |b| && b[j] == a[0];
      assert !Less(mode, a[i], a[0]) && !Less(mode, b[j], b[0]);
      LessIsStrictOrder(mode, a[0], b[0], b[0]);
    }
  }

  lemma WithoutFirst(s: seq<JobInfo>)
    requires s != []
    ensures multiset(s[1..]) == multiset(s) - multiset{s[0]}
    ensures forall x :: x in s[1..] ==> x in s
  {
    assert s == [s[0]] + s[1..];
  }

  lemma SameMembers(a: seq<JobInfo>, b: seq<JobInfo>)
    requires multiset(a) == multiset(b)
    ensures |a| == |b| && forall x :: x in a <==> x in b
  {
    assert |multiset(a)| == |a| && |multiset(b)| == |b|;
    forall x ensures x in a <==> x in b {
      assert x in a <==> x in multiset(a);
      assert x in b <==> x in multiset(b);
    }
  }

  /** Sorting has one possible result: two sorted arrangements of the same jobs are the same list. */
  lemma {:induction false} SortedIsUnique(mode: SortMode, a: seq<JobInfo>, b: seq<JobInfo>)
    requires Sorted(mode, a) && Sorted(mode, b) && PositionsNameJobs(a)
    requires multiset(a) == multiset(b)
    ensures a == b
  {
    SameMembers(a, b);
    if a != [] {
      FirstIsLeast(mode, a, b);
      WithoutFirst(a);
      WithoutFirst(b);
      SortedIsUnique(mode, a[1..], b[1..]);
    }
  }

  /** In the time orders the jobs that never ran, or never will, come last; the others are newest or soonest first. */
  lemma ZeroTimesLast(s: seq<JobInfo>, i: nat, j: nat)
    requires i < j < |s|
    ensures Sorted(ByLastRun, s) ==>
              && (s[i].lastRun == ZERO_TIME ==> s[j].lastRun == ZERO_TIME)
              && (s[j].lastRun != ZERO_TIME ==> s[i].lastRun >= s[j].lastRun)
              && (s[i].lastRun == s[j].lastRun ==> s[i].sortIndex <= s[j].sortIndex)
    ensures Sorted(ByNextRun, s) ==>
              && (s[i].nextRun == ZERO_TIME ==> s[j].nextRun == ZERO_TIME)
              && (s[j].nextRun != ZERO_TIME ==> s[i].nextRun <= s[j].nextRun)
              && (s[i].nextRun == s[j].nextRun ==> s[i].sortIndex <= s[j].sortIndex)
  {
    assert Sorted(ByLastRun, s) ==> !Less(ByLastRun, s[j], s[i]);
    assert Sorted(ByNextRun, s) ==> !Less(ByNextRun, s[j], s[i]);
  }

  /** In the default order the jobs are in the order of their positions. */
  lemma DefaultIsByPosition(s: seq<JobInfo>, i: nat, j: nat)
    requires Sorted(ByDefault, s) && i < j < |s|
    ensures s[i].sortIndex <= s[j].sortIndex
  {
    assert !Less(ByDefault, s[j], s[i]);
  }

  method Swap(a: array<JobInfo>, i: nat, j: nat)
    requires i < j < a.Length
    modifies a
    ensures a[..] == old(a[..])[i := old(a[j])][j := old(a[i])]
    ensures multiset(a[..]) == multiset(old(a[..]))
  {
    a[i], a[j] := a[j], a[i];
  }

  /** Moves element n down to its place among the sorted elements before it. */
  method Insert(a: array<JobInfo>, n: nat, mode: SortMode)
    requires n < a.Length && Sorted(mode, a[..n])
    modifies a
    ensures Sorted(mode, a[..n + 1]) && multiset(a[..]) == multiset(old(a[..]))
  {
    var j := n;
    while j > 0 && Less(mode, a[j], a[j - 1])
      invariant 0 <= j <= n && multiset(a[..]) == multiset(old(a[..]))
      invariant forall x, y :: 0 <= x < y <= n && y != j ==> !Less(mode, a[y], a[x])
      invariant forall y :: j < y <= n ==> !Less(mode, a[y], a[j])
    {
      Swap(a, j - 1, j);
      j := j - 1;
    }
    forall x, y | 0 <= x < y <= n ensures !Less(mode, a[y], a[x]) {
      if y == j && x < j - 1 {
        LessIsStrictOrder(mode, a[x], a[j - 1], a[j]);
      }
    }
  }

  /** Sorts in place. The library's sort promises no more than this of a strict order. */
  method SortJobs(a: array<JobInfo>, mode: SortMode)
    modifies a
    ensures Sorted(mode, a[..]) && multiset(a[..]) == multiset(old(a[..]))
  {
    for n := 0 to a.Length
      invariant Sorted(mode, a[..n]) && multiset(a[..]) == multiset(old(a[..]))
    {
      Insert(a, n, mode);
    }
    assert a[..a.Length] == a[..];
  }
}
