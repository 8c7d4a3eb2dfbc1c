/**
 * Leaderboard entries and the ordering by completion time that the
 * leaderboard keeps: entries compare by time alone, fastest first.
 */
module Leaderboards {

  datatype Entry = Entry(name: string, time: real)

  /** How many entries the leaderboard keeps. */
  const CAPACITY: nat := 10

  /** The ordering of entries: by time alone, the name playing no part. */
  predicate Faster(a: Entry, b: Entry)
  {
    a.time < b.time
  }

  predicate Sorted(lb: seq<Entry>)
  {
    forall i, j | 0 <= i < j < |lb| :: lb[i].time <= lb[j].time
  }

  /** `e` placed into `lb` after every entry it is not faster than. */
  function Insert(lb: seq<Entry>, e: Entry): (r: seq<Entry>)
    ensures |r| == |lb| + 1
    ensures multiset(r) == multiset(lb) + multiset{e}
    decreases |lb|
  {
    if lb == [] then [e]
    else if Faster(e, lb[0]) then [e] + lb
    else
      assert lb == [lb[0]] + lb[1..];
      [lb[0]] + Insert(lb[1..], e)
  }

  /** An entry no slower than the head of a sorted list can go in front of it. */
  lemma SortedCons(x: Entry, rest: seq<Entry>)
    requires Sorted(rest) && (rest != [] ==> x.time <= rest[0].time)
    ensures Sorted([x] + rest)
  {
    var r := [x] + rest;
    forall i, j | 0 <= i < j < |r|
      ensures r[i].time <= r[j].time
    {
      if i == 0 {
        assert rest[0].time <= rest[j - 1].time;
      } else {
        assert r[i] == rest[i - 1] && r[j] == rest[j - 1];
      }
    }
  }

  /** Inserting into a sorted leaderboard keeps it sorted; the new head is `e` or the old head. */
  lemma {:induction false} InsertSorted(lb: seq<Entry>, e: Entry)
    requires Sorted(lb)
    ensures Sorted(Insert(lb, e))
    ensures Insert(lb, e)[0] == e || (lb != [] && Insert(lb, e)[0] == lb[0])
    decreases |lb|
  {
    if lb == [] {
    } else if Faster(e, lb[0]) {
      SortedCons(e, lb);
    } else {
      var rest := Insert(lb[1..], e);
      InsertSorted(lb[1..], e);
      assert lb[1..] != [] ==> lb[0].time <= lb[1].time;
      SortedCons(lb[0], rest);
    }
  }

  /** The entries of `s` reordered by time, fastest first, as std::sort leaves them. */
  function SortByTime(s: seq<Entry>): (r: seq<Entry>)
    ensures Sorted(r)
    ensures multiset(r) == multiset(s)
    decreases |s|
  {
    if s == [] then []
    else
      assert s == s[..|s| - 1] + [s[|s| - 1]];
      var sorted := SortByTime(s[..|s| - 1]);
      InsertSorted(sorted, s[|s| - 1]);
      Insert(sorted, s[|s| - 1])
  }

  /** Sorting a sorted leaderboard with one new entry at its end inserts that entry. */
  lemma {:induction false} SortAppended(lb: seq<Entry>, e: Entry)
    requires Sorted(lb)
    ensures SortByTime(lb + [e]) == Insert(SortByTime(lb), e)
  {
    assert (lb + [e])[..|lb + [e]| - 1] == lb;
  }

  /** The first `n` entries, or all of them when there are fewer. */
  function Truncated(s: seq<Entry>, n: nat): (r: seq<Entry>)
    ensures |r| == if |s| > n then n else |s|
    ensures r == s[..|r|]
  {
    if |s| > n then s[..n] else s
  }

  /**
   * Keeping a prefix of a sorted list keeps the fastest entries: every kept
   * entry is no slower than every dropped one, and the prefix is sorted.
   */
  lemma {:induction false} PrefixKeepsFastest(s: seq<Entry>, k: nat)
    requires Sorted(s) && k <= |s|
    ensures Sorted(s[..k])
    ensures multiset(s[..k]) <= multiset(s)
    ensures forall x, y | x in multiset(s[..k]) && y in multiset(s) - multiset(s[..k]) :: x.time <= y.time
  {
    assert s == s[..k] + s[k..];
    assert multiset(s) == multiset(s[..k]) + multiset(s[k..]);
    forall x, y | x in multiset(s[..k]) && y in multiset(s) - multiset(s[..k])
      ensures x.time <= y.time
    {
      assert y in multiset(s[k..]);
      PrefixBeforeSuffix(s, k, x, y);
    }
  }

  /** In a sorted list every entry before position `k` is no slower than every entry from `k` on. */
  lemma PrefixBeforeSuffix(s: seq<Entry>, k: nat, x: Entry, y: Entry)
    requires Sorted(s) && k <= |s| && x in s[..k] && y in s[k..]
    ensures x.time <= y.time
  {
    var i :| 0 <= i < k && s[..k][i] == x;
    var j :| 0 <= j < |s| - k && s[k..][j] == y;
    assert s[i] == x && s[k + j] == y;
  }

  /**
   * The leaderboard after recording `e`: `lb` with `e` added, sorted by time
   * and cut down to CAPACITY entries.
   */
  function Ranked(lb: seq<Entry>, e: Entry): (r: seq<Entry>)
    ensures Sorted(r)
    ensures |r| == if |lb| + 1 > CAPACITY then CAPACITY else |lb| + 1
    ensures multiset(r) <= multiset(lb + [e])
    ensures KeepsFastest(multiset(r), multiset(lb + [e]))
  {
    var sorted := SortByTime(lb + [e]);
    PrefixKeepsFastest(sorted, if |sorted| > CAPACITY then CAPACITY else |sorted|);
    Truncated(sorted, CAPACITY)
  }

  /** Taking away a sub-multiset takes away its size. */
  lemma RemovedSize<T>(a: multiset<T>, b: multiset<T>)
    requires b <= a
    ensures |a - b| == |a| - |b|
  {
    assert a == (a - b) + b;
  }

  /** Every entry of `kept` is no slower than every entry of `all` left out of it. */
  predicate KeepsFastest(kept: multiset<Entry>, all: multiset<Entry>)
  {
    forall x, y | x in kept && y in all - kept :: x.time <= y.time
  }

  /** When all but one entry is kept, fastest first, an entry faster than some other entry is kept. */
  lemma FasterEntryKept(all: multiset<Entry>, kept: multiset<Entry>, e: Entry, other: Entry)
    requires kept <= all && |kept| + 1 == |all| && KeepsFastest(kept, all)
    requires e in all && other in all && Faster(e, other)
    ensures e in kept
  {
    if e !in kept {
      var dropped := all - kept;
      RemovedSize(all, kept);
      assert other !in kept;
      assert multiset{e, other} <= dropped;
      RemovedSize(dropped, multiset{e, other});
    }
  }

  /** When all but one entry is kept, fastest first, an entry that occurs once and is slower than all others is dropped. */
  lemma SlowestEntryDropped(all: multiset<Entry>, kept: multiset<Entry>, e: Entry, bound: real)
    requires kept <= all && |kept| + 1 == |all| && KeepsFastest(kept, all)
    requires all[e] == 1 && bound < e.time
    requires forall y | y in all && y != e :: y.time <= bound
    ensures e !in kept
  {
    if e in kept {
      var dropped := all - kept;
      RemovedSize(all, kept);
    }
  }

  /** On a full leaderboard a new entry that beats the slowest entry is kept. */
  lemma NewEntryKept(lb: seq<Entry>, e: Entry)
    requires Sorted(lb) && |lb| == CAPACITY
    requires Faster(e, lb[|lb| - 1])
    ensures e in Ranked(lb, e)
  {
    var r := Ranked(lb, e);
    FasterEntryKept(multiset(lb + [e]), multiset(r), e, lb[|lb| - 1]);
  }

  /** On a full leaderboard a new entry that the slowest entry beats is left out. */
  lemma NewEntryDropped(lb: seq<Entry>, e: Entry)
    requires Sorted(lb) && |lb| == CAPACITY
    requires Faster(lb[|lb| - 1], e) && e !in lb
    ensures e !in Ranked(lb, e)
  {
    var r := Ranked(lb, e);
    var all := multiset(lb + [e]);
    LastIsSlowest(lb, e);
    SlowestEntryDropped(all, multiset(r), e, lb[|lb| - 1].time);
  }

  /** Every entry of `lb + [e]` other than `e` is no slower than the last entry of the sorted `lb`. */
  lemma LastIsSlowest(lb: seq<Entry>, e: Entry)
    requires Sorted(lb) && lb != []
    ensures forall y | y in multiset(lb + [e]) && y != e :: y.time <= lb[|lb| - 1].time
  {
    forall y | y in multiset(lb + [e]) && y != e
      ensures y.time <= lb[|lb| - 1].time
    {
      assert y in lb + [e];
      var i :| 0 <= i < |lb| + 1 && (lb + [e])[i] == y;
      assert lb[i] == y;
    }
  }
}
