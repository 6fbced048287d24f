/**
 Habit streaks (calculateStreak in src/utils.js).

 A habit records its completions as whole-day indices counted from the
 habit's creation instant. The current streak is the length of the run of
 consecutive days that ends today or yesterday. Future indices are ignored,
 and a repeated index ends the run.
 */
module Streak {

  datatype Option<T> = None | Some(value: T)

  /** Milliseconds in one day: 1000 * 60 * 60 * 24. */
  const MsPerDay: int := 86400000

  /** The day index of `nowMs` counted from `createdMs`, rounded down. */
  function TodayIndex(createdMs: int, nowMs: int): (today: int)
    ensures today * MsPerDay <= nowMs - createdMs < today * MsPerDay + MsPerDay
  {
    (nowMs - createdMs) / MsPerDay
  }

  /** The completions that are not later than `today`, in their input order. */
  function NotFuture(cs: seq<int>, today: int): (r: seq<int>)
    ensures forall i :: 0 <= i < |r| ==> r[i] <= today
    ensures forall c :: multiset(r)[c] == if c <= today then multiset(cs)[c] else 0
    ensures |r| <= |cs|
  {
    if cs == [] then []
    else
      assert cs == [cs[0]] + cs[1..];
      if cs[0] <= today then [cs[0]] + NotFuture(cs[1..], today)
      else NotFuture(cs[1..], today)
  }

  /** Each element is at least every later one. */
  predicate Descending(s: seq<int>) {
    forall i, j :: 0 <= i < j < |s| ==> s[i] >= s[j]
  }

  /** Inserts `x` into a descending sequence, keeping it descending. */
  function Insert(x: int, s: seq<int>): (r: seq<int>)
    requires Descending(s)
    ensures Descending(r)
    ensures multiset(r) == multiset(s) + multiset{x}
    ensures |r| == |s| + 1
    ensures r[0] == x || (s != [] && r[0] == s[0])
  {
    if s == [] || s[0] <= x then
      DescendingCons(x, s);
      [x] + s
    else
      assert s == [s[0]] + s[1..];
      var t := Insert(x, s[1..]);
      DescendingCons(s[0], t);
      [s[0]] + t
  }

  /** Putting an element no smaller than the head in front keeps a sequence descending. */
  lemma DescendingCons(h: int, t: seq<int>)
    requires Descending(t)
    requires t != [] ==> h >= t[0]
    ensures Descending([h] + t)
  {
  }

  /** Sorts a sequence in descending numeric order. */
  function SortDesc(s: seq<int>): (r: seq<int>)
    ensures Descending(r)
    ensures multiset(r) == multiset(s)
    ensures |r| == |s|
  {
    if s == [] then []
    else
      assert s == [s[0]] + s[1..];
      Insert(s[0], SortDesc(s[1..]))
  }

  /**
   The length of the longest prefix of `s` in which every element is exactly
   one less than the element before it.
   */
  function TopRun(s: seq<int>): (n: nat)
    ensures s != [] ==> 1 <= n
    ensures n <= |s|
    ensures forall i :: 0 < i < n ==> s[i] == s[i - 1] - 1
    ensures 0 < n < |s| ==> s[n] != s[n - 1] - 1
  {
    if |s| <= 1 then |s|
    else if s[1] == s[0] - 1 then 1 + TopRun(s[1..])
    else 1
  }

  /** The streak for the completions `cs` when today's day index is `today`. */
  function StreakOf(cs: seq<int>, today: int): nat {
    if cs == [] then 0
    else
      var sorted := SortDesc(NotFuture(cs, today));
      if sorted == [] then 0
      else if sorted[0] < today - 1 then 0
      else TopRun(sorted)
  }

  /**
   Counts the current streak. `None` stands for completions that are missing
   altogether.
   */
  method CalculateStreak(completions: Option<seq<int>>, createdMs: int, nowMs: int)
    returns (streak: nat)
    ensures completions.None? ==> streak == 0
    ensures completions.Some? ==> streak == StreakOf(completions.value, TodayIndex(createdMs, nowMs))
  {
    if completions.None? || |completions.value| == 0 {
      return 0;
    }
    var todayIdx := TodayIndex(createdMs, nowMs);
    var sorted := SortDesc(NotFuture(completions.value, todayIdx));
    if |sorted| == 0 {
      return 0;
    }
    var latest := sorted[0];
    if latest < todayIdx - 1 {
      return 0;
    }
    streak := 1;
    var i := 1;
    while i < |sorted|
      invariant 1 <= i <= |sorted|
      invariant streak == i <= TopRun(sorted)
    {
      if sorted[i] == sorted[i - 1] - 1 {
        streak := streak + 1;
      } else {
        assert TopRun(sorted) == i;
        break;
      }
      i := i + 1;
    }
  }

  // ---------------------------------------------------------------------
  // Properties of the streak

  /** The first element of a descending sequence is its largest. */
  lemma DescendingHeadIsMax(s: seq<int>, c: int)
    requires Descending(s) && c in s
    ensures s[0] >= c
  {
    var i :| 0 <= i < |s| && s[i] == c;
    if i > 0 {
      assert s[0] >= s[i];
    }
  }

  /** A descending sequence is determined by its multiset of elements. */
  lemma {:induction false} DescendingUnique(a: seq<int>, b: seq<int>)
    requires Descending(a) && Descending(b)
    requires multiset(a) == multiset(b)
    ensures a == b
  {
    if a == [] {
      assert |b| == |multiset(b)| == 0;
    } else {
      assert a[0] in multiset(b);
      assert b != [];
      assert b[0] in multiset(a);
      DescendingHeadIsMax(a, b[0]);
      DescendingHeadIsMax(b, a[0]);
      assert a[0] == b[0];
      assert a == [a[0]] + a[1..];
      assert b == [b[0]] + b[1..];
      assert multiset(a) == multiset{a[0]} + multiset(a[1..]);
      assert multiset(b) == multiset{b[0]} + multiset(b[1..]);
      assert multiset(a[1..]) == multiset(a) - multiset{a[0]};
      assert multiset(b[1..]) == multiset(b) - multiset{b[0]};
      DescendingUnique(a[1..], b[1..]);
    }
  }

  /** The non-future completions are exactly the input's elements up to `today`. */
  lemma NotFutureMembers(cs: seq<int>, today: int, c: int)
    ensures c in NotFuture(cs, today) <==> c in cs && c <= today
  {
    var r := NotFuture(cs, today);
    assert c in r <==> multiset(r)[c] > 0;
    assert c in cs <==> multiset(cs)[c] > 0;
  }

  /** The streak never exceeds the number of completions that are not in the future. */
  lemma StreakBounded(cs: seq<int>, today: int)
    ensures StreakOf(cs, today) <= |NotFuture(cs, today)|
  {
  }

  /** No completions, no streak. */
  lemma EmptyHasNoStreak(today: int)
    ensures StreakOf([], today) == 0
  {
  }

  /** When every completion lies in the future the streak is 0. */
  lemma AllFutureHasNoStreak(cs: seq<int>, today: int)
    requires forall i :: 0 <= i < |cs| ==> cs[i] > today
    ensures StreakOf(cs, today) == 0
  {
    var r := NotFuture(cs, today);
    if r != [] {
      NotFutureMembers(cs, today, r[0]);
    }
  }

  /**
   The streak is alive exactly when today or yesterday was completed; when it
   is alive it counts at least that day.
   */
  lemma {:induction false} StreakAliveIff(cs: seq<int>, today: int)
    ensures StreakOf(cs, today) > 0 <==> (today in cs || today - 1 in cs)
  {
    var nf := NotFuture(cs, today);
    var sorted := SortDesc(nf);
    NotFutureMembers(cs, today, today);
    NotFutureMembers(cs, today, today - 1);
    assert today in sorted <==> today in multiset(nf);
    assert today - 1 in sorted <==> today - 1 in multiset(nf);
    if sorted != [] {
      assert sorted[0] in multiset(nf);
      NotFutureMembers(cs, today, sorted[0]);
      if today in sorted { DescendingHeadIsMax(sorted, today); }
      if today - 1 in sorted { DescendingHeadIsMax(sorted, today - 1); }
    } else {
      assert |multiset(nf)| == 0;
    }
  }

  /**
   A streak of length n > 0 ends today or yesterday, at some day `last`, and
   every one of the n days counting down from `last` is among the completions.
   So a repeated index never lengthens a streak beyond the distinct
   consecutive days completed.
   */
  lemma {:induction false} StreakDaysCompleted(cs: seq<int>, today: int) returns (last: int)
    requires StreakOf(cs, today) > 0
    ensures today - 1 <= last <= today
    ensures forall d :: last - StreakOf(cs, today) < d <= last ==> d in cs
  {
    var sorted := SortDesc(NotFuture(cs, today));
    var n := TopRun(sorted);
    assert StreakOf(cs, today) == n;
    last := sorted[0];
    SortedMember(cs, today, 0);
    assert today - 1 <= last <= today;
    forall d | last - n < d <= last
      ensures d in cs
    {
      var k: nat := last - d;
      assert k < n;
      RunValues(sorted, k);
      assert sorted[k] == d;
      SortedMember(cs, today, k);
    }
  }

  /** Every element of the sorted non-future completions is a completion up to `today`. */
  lemma SortedMember(cs: seq<int>, today: int, i: nat)
    requires i < |SortDesc(NotFuture(cs, today))|
    ensures SortDesc(NotFuture(cs, today))[i] in cs
    ensures SortDesc(NotFuture(cs, today))[i] <= today
  {
    var nf := NotFuture(cs, today);
    var c := SortDesc(nf)[i];
    assert c in multiset(SortDesc(nf));
    NotFutureMembers(cs, today, c);
  }

  /** Inside the top run, the k-th element is k days before the first. */
  lemma {:induction false} RunValues(s: seq<int>, k: nat)
    requires k < TopRun(s)
    ensures s[k] == s[0] - k
  {
    if k > 0 {
      RunValues(s, k - 1);
    }
  }

  /** The streak depends only on the multiset of completions, not on their order. */
  lemma StreakOrderIndependent(a: seq<int>, b: seq<int>, today: int)
    requires multiset(a) == multiset(b)
    ensures StreakOf(a, today) == StreakOf(b, today)
  {
    assert |a| == |multiset(a)| == |multiset(b)| == |b|;
    var na, nb := NotFuture(a, today), NotFuture(b, today);
    assert multiset(na) == multiset(nb);
    DescendingUnique(SortDesc(na), SortDesc(nb));
  }

  /** Adding a completion later than today leaves the streak unchanged. */
  lemma FutureIgnored(cs: seq<int>, x: int, today: int)
    requires x > today
    ensures StreakOf(cs + [x], today) == StreakOf(cs, today)
  {
    var n1, n2 := NotFuture(cs + [x], today), NotFuture(cs, today);
    assert multiset(n1) == multiset(n2);
    DescendingUnique(SortDesc(n1), SortDesc(n2));
    if cs == [] {
      assert |multiset(n1)| == 0;
    }
  }

  /** A repeated latest day ends the run at once. */
  lemma DuplicateEndsRun()
    ensures StreakOf([10, 10, 9], 10) == 1
  {
    assert [10, 10, 9][1..] == [10, 9] && [10, 9][1..] == [9] && [9][1..] == [];
    assert NotFuture([10, 10, 9], 10) == [10, 10, 9];
    assert SortDesc([9]) == Insert(9, []) == [9];
    assert SortDesc([10, 9]) == Insert(10, [9]) == [10, 9];
    assert SortDesc([10, 10, 9]) == Insert(10, [10, 9]) == [10, 10, 9];
  }

  // Worked examples, with the habit created exactly ten days before "now",
  // so that today is day 10

  lemma ThreeDaysEndingToday(nowMs: int)
    ensures StreakOf([10, 9, 8], TodayIndex(nowMs - 10 * MsPerDay, nowMs)) == 3
  {
    assert TodayIndex(nowMs - 10 * MsPerDay, nowMs) == 10;
    assert [10, 9, 8][1..] == [9, 8] && [9, 8][1..] == [8] && [8][1..] == [];
    assert NotFuture([10, 9, 8], 10) == [10, 9, 8];
    assert SortDesc([8]) == Insert(8, []) == [8];
    assert SortDesc([9, 8]) == Insert(9, [8]) == [9, 8];
    assert SortDesc([10, 9, 8]) == Insert(10, [9, 8]) == [10, 9, 8];
  }

  lemma TwoDaysEndingYesterday()
    ensures StreakOf([9, 8], 10) == 2
  {
    assert [9, 8][1..] == [8] && [8][1..] == [];
    assert NotFuture([9, 8], 10) == [9, 8];
    assert SortDesc([8]) == Insert(8, []) == [8];
    assert SortDesc([9, 8]) == Insert(9, [8]) == [9, 8];
  }

  lemma YesterdayMissed()
    ensures StreakOf([8, 7], 10) == 0
  {
    assert [8, 7][1..] == [7] && [7][1..] == [];
    assert NotFuture([8, 7], 10) == [8, 7];
    assert SortDesc([7]) == Insert(7, []) == [7];
    assert SortDesc([8, 7]) == Insert(8, [7]) == [8, 7];
  }

  lemma FutureCompletionDropped()
    ensures StreakOf([11, 10, 9], 10) == 2
  {
    assert [11, 10, 9][1..] == [10, 9] && [10, 9][1..] == [9] && [9][1..] == [];
    assert NotFuture([11, 10, 9], 10) == NotFuture([10, 9], 10) == [10, 9];
    assert SortDesc([9]) == Insert(9, []) == [9];
    assert SortDesc([10, 9]) == Insert(10, [9]) == [10, 9];
  }
}
