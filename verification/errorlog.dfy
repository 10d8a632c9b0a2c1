/**
 * The error listing of `user_get_errors` (reliascheduler/views/scheduler.py): collect the
 * user's errors from the task hashes and from the error log, order them by time with an
 * argsort, and return a handful of them. The selection as written applies a second sort
 * to the argsort and so does not pick the latest errors: `SelectAsWritten` models it, and
 * the handler uses it; `SelectLatest` is the selection the handler evidently intends.
 */
module ErrorLog {
  import opened Common
  import opened Strings
  import opened Keys
  import opened Storage
  import opened Auth
  import DeviceRoutes

  /** How many errors the listing returns at most. */
  const ListLength: nat := 5

  /** One collected error: identifier, message and time, each as HGET returned it. */
  datatype ErrorEntry = ErrorEntry(id: Option<string>, message: Option<string>, time: Option<string>)

  /** Where a collected error comes from: the task hashes (first loop) or the error records (second loop). */
  datatype ErrorSource = TaskHashes | ErrorRecords

  /**
   * A member contributes when its author is the user and its message is not "null" (a
   * missing message counts).
   */
  predicate HasError(st: Store, src: ErrorSource, x: string, user: string) {
    match src
    case TaskHashes => Get(st, x, Author) == Some(user) && Get(st, x, ErrorMessage) != Some(Null)
    case ErrorRecords => GetError(st, x, ErrorAuthorField) == Some(user) && GetError(st, x, ErrorMessageField) != Some(Null)
  }

  /** The identifier, message and time a member contributes. */
  function EntryOf(st: Store, src: ErrorSource, x: string): ErrorEntry {
    match src
    case TaskHashes => ErrorEntry(Get(st, x, UniqueIdentifier), Get(st, x, ErrorMessage), Get(st, x, ErrorTime))
    case ErrorRecords => ErrorEntry(GetError(st, x, ErrorIdField), GetError(st, x, ErrorMessageField), GetError(st, x, ErrorTimeField))
  }

  /** The positions in `order` of the members that contribute, in increasing order. */
  function Contributing(st: Store, src: ErrorSource, order: seq<string>, user: string): (js: seq<nat>)
    ensures forall k | 0 <= k < |js| :: js[k] < |order|
    ensures forall k, k' | 0 <= k < k' < |js| :: js[k] < js[k']
    ensures forall j | 0 <= j < |order| :: j in js <==> HasError(st, src, order[j], user)
  {
    if order == [] then []
    else
      var n := |order| - 1;
      Contributing(st, src, order[..n], user) + (if HasError(st, src, order[n], user) then [n] else [])
  }

  /**
   * One of the two loops: walk the members in the order SMEMBERS lists them and append the
   * entry of each one that contributes. The result lists exactly the contributing members,
   * in that order.
   */
  function Collect(st: Store, src: ErrorSource, order: seq<string>, user: string): (r: seq<ErrorEntry>)
    ensures var js := Contributing(st, src, order, user);
            |r| == |js| && forall k | 0 <= k < |js| :: r[k] == EntryOf(st, src, order[js[k]])
  {
    if order == [] then []
    else
      var n := |order| - 1;
      var x := order[n];
      Collect(st, src, order[..n], user) + (if HasError(st, src, x, user) then [EntryOf(st, src, x)] else [])
  }

  /** A contributing member's entry is among the collected ones. */
  lemma {:induction false} ContributorIsCollected(st: Store, src: ErrorSource, order: seq<string>, user: string, j: nat)
    requires j < |order| && HasError(st, src, order[j], user)
    ensures EntryOf(st, src, order[j]) in Collect(st, src, order, user)
  {
    var js := Contributing(st, src, order, user);
    var k :| 0 <= k < |js| && js[k] == j;
    assert Collect(st, src, order, user)[k] == EntryOf(st, src, order[j]);
  }

  /** Both loops, task hashes first. */
  function Collected(st: Store, user: string, taskOrder: seq<string>, errorOrder: seq<string>): seq<ErrorEntry> {
    Collect(st, TaskHashes, taskOrder, user) + Collect(st, ErrorRecords, errorOrder, user)
  }

  /** `order` lists the members of `s`, each once. */
  predicate Enumerates(order: seq<string>, s: set<string>) {
    (forall x | x in order :: x in s) && (forall x | x in s :: x in order) && (forall i, j | 0 <= i < j < |order| :: order[i] != order[j])
  }

  /** The parsed times, or `None` when one of them is missing or does not parse (`strptime` raises). */
  function ParseTimes(entries: seq<ErrorEntry>): (r: Option<seq<int>>)
    ensures r.Some? ==> |r.value| == |entries|
    ensures r.Some? ==> forall i | 0 <= i < |entries| ::
      entries[i].time.Some? && ParseInt(entries[i].time.value) == Some(r.value[i])
    ensures r.None? <==> exists i | 0 <= i < |entries| ::
      entries[i].time.None? || ParseInt(entries[i].time.value).None?
  {
    if entries == [] then Some([])
    else
      var e := entries[0];
      match ParseTimes(entries[1..])
      case None =>
        var i :| 1 <= i < |entries| && (entries[i].time.None? || ParseInt(entries[i].time.value).None?);
        None
      case Some(rest) =>
        if e.time.None? then None
        else match ParseInt(e.time.value)
        case None => None
        case Some(t) =>
          assert forall i | 1 <= i < |entries| :: entries[i] == entries[1..][i - 1];
          Some([t] + rest)
  }

  /** The indices 0 .. n-1 in order. */
  function Range(n: nat): (r: seq<nat>)
    ensures |r| == n && forall i | 0 <= i < n :: r[i] == i
  {
    if n == 0 then [] else Range(n - 1) + [n - 1]
  }

  /** `xs` lists indices of `keys` in non-decreasing order of key. */
  predicate SortedBy(keys: seq<int>, xs: seq<nat>)
    requires forall i | 0 <= i < |xs| :: xs[i] < |keys|
  {
    forall i, j | 0 <= i < j < |xs| :: keys[xs[i]] <= keys[xs[j]]
  }

  /** Insert index `x` after every index whose key is at most its own. */
  function InsertByKey(keys: seq<int>, xs: seq<nat>, x: nat): (r: seq<nat>)
    requires x < |keys| && forall i | 0 <= i < |xs| :: xs[i] < |keys|
    ensures |r| == |xs| + 1 && forall i | 0 <= i < |r| :: r[i] < |keys|
    ensures forall y | y in r :: y == x || y in xs
  {
    if xs == [] then [x]
    else if keys[x] < keys[xs[0]] then [x] + xs
    else
      assert xs == [xs[0]] + xs[1..];
      [xs[0]] + InsertByKey(keys, xs[1..], x)
  }

  /** Inserting adds exactly the one index. */
  lemma {:induction false} InsertByKeyAdds(keys: seq<int>, xs: seq<nat>, x: nat)
    requires x < |keys| && forall i | 0 <= i < |xs| :: xs[i] < |keys|
    ensures multiset(InsertByKey(keys, xs, x)) == multiset(xs) + multiset{x}
    decreases |xs|
  {
    if xs != [] && keys[x] >= keys[xs[0]] {
      InsertByKeyAdds(keys, xs[1..], x);
      assert xs == [xs[0]] + xs[1..];
    }
  }

  /** Inserting into an index list sorted by key keeps it sorted. */
  lemma {:induction false} InsertByKeySorted(keys: seq<int>, xs: seq<nat>, x: nat)
    requires x < |keys| && forall i | 0 <= i < |xs| :: xs[i] < |keys|
    requires SortedBy(keys, xs)
    ensures SortedBy(keys, InsertByKey(keys, xs, x))
    decreases |xs|
  {
    if xs != [] && keys[x] >= keys[xs[0]] {
      var rest := InsertByKey(keys, xs[1..], x);
      InsertByKeySorted(keys, xs[1..], x);
      forall j | 0 <= j < |rest| ensures keys[xs[0]] <= keys[rest[j]] {
        assert rest[j] in rest;
        if rest[j] != x {
          var k :| 0 <= k < |xs[1..]| && xs[1..][k] == rest[j];
          assert xs[k + 1] == rest[j];
        }
      }
    }
  }

  /** The indices of `keys` ordered by key, equal keys in index order: a stable argsort of the first n. */
  function ArgSortPrefix(keys: seq<int>, n: nat): (r: seq<nat>)
    requires n <= |keys|
    ensures |r| == n && forall i | 0 <= i < |r| :: r[i] < |keys|
  {
    if n == 0 then [] else InsertByKey(keys, ArgSortPrefix(keys, n - 1), n - 1)
  }

  /** The argsort of the first n indices is a permutation of them, sorted by key. */
  lemma {:induction false} ArgSortPrefixSorts(keys: seq<int>, n: nat)
    requires n <= |keys|
    ensures multiset(ArgSortPrefix(keys, n)) == multiset(Range(n))
    ensures SortedBy(keys, ArgSortPrefix(keys, n))
  {
    if n > 0 {
      ArgSortPrefixSorts(keys, n - 1);
      assert Range(n) == Range(n - 1) + [n - 1];
      InsertByKeyAdds(keys, ArgSortPrefix(keys, n - 1), n - 1);
      InsertByKeySorted(keys, ArgSortPrefix(keys, n - 1), n - 1);
    }
  }

  /** `np.argsort` (with ties kept in index order) and `sorted(range(n), key=...)`. */
  function ArgSort(keys: seq<int>): (r: seq<nat>)
    ensures |r| == |keys| && forall i | 0 <= i < |r| :: r[i] < |keys|
    ensures multiset(r) == multiset(Range(|keys|))
    ensures SortedBy(keys, r)
  {
    ArgSortPrefixSorts(keys, |keys|);
    ArgSortPrefix(keys, |keys|)
  }

  /** Each index below n occurs exactly once in a sequence with the multiset of Range(n). */
  lemma PermutationHasEach(r: seq<nat>, n: nat, i: nat)
    requires multiset(r) == multiset(Range(n))
    requires i < n
    ensures i in r
  {
    assert Range(n)[i] == i;
    assert i in multiset(Range(n));
  }

  lemma PermutationIsDistinct(r: seq<nat>, n: nat)
    requires multiset(r) == multiset(Range(n))
    ensures forall i, j | 0 <= i < j < |r| :: r[i] != r[j]
  {
    forall i, j | 0 <= i < j < |r| ensures r[i] != r[j] {
      if r[i] == r[j] {
        RangeCountsOnce(n, r[i]);
        TwoOccurrences(r, i, j);
      }
    }
  }

  lemma {:induction false} RangeCountsOnce(n: nat, x: nat)
    ensures multiset(Range(n))[x] <= 1
  {
    if n > 0 {
      var m: nat := n - 1;
      RangeCountsOnce(m, x);
      assert Range(n) == Range(m) + [m];
      assert multiset(Range(n)) == multiset(Range(m)) + multiset{m};
      if x == m {
        RangeBelow(m);
        assert multiset(Range(m))[x] == 0;
      }
    }
  }

  /** Every entry of `Range(n)` is below n. */
  lemma RangeBelow(n: nat)
    ensures n !in Range(n)
  {
  }

  lemma TwoOccurrences(r: seq<nat>, i: nat, j: nat)
    requires 0 <= i < j < |r| && r[i] == r[j]
    ensures multiset(r)[r[i]] >= 2
  {
    assert r == r[..i] + [r[i]] + r[i + 1..j] + [r[j]] + r[j + 1..];
  }

  /** How many of the collected errors the listing returns. */
  function Take(n: nat): (k: nat)
    ensures k <= n && k <= ListLength && (k == n || k == ListLength)
  {
    Min(n, ListLength)
  }

  /** The collected errors at the given indices, in the order of the indices. */
  function At(entries: seq<ErrorEntry>, indices: seq<nat>): (r: seq<ErrorEntry>)
    requires forall m | 0 <= m < |indices| :: indices[m] < |entries|
    ensures |r| == |indices| && forall m | 0 <= m < |indices| :: r[m] == entries[indices[m]]
  {
    if indices == [] then [] else [entries[indices[0]]] + At(entries, indices[1..])
  }

  /**
   * The selection as written: argsort the times, then sort the indices by their entry in
   * that argsort, keep the last five of those and read the collected errors at them.
   */
  function SelectAsWritten(entries: seq<ErrorEntry>, times: seq<int>): (r: seq<ErrorEntry>)
    requires |times| == |entries|
    ensures |r| == Take(|entries|)
  {
    var n := |times|;
    var order := ArgSort(times);
    var mostRecent := ArgSort(order)[n - Take(n)..];
    At(entries, mostRecent)
  }

  /** Where index `x` stands in an index list. */
  function PositionOf(xs: seq<nat>, x: nat): (i: nat)
    requires x in xs
    ensures i < |xs| && xs[i] == x
  {
    if xs[0] == x then 0 else 1 + PositionOf(xs[1..], x)
  }

  /** The rank of collected error `i`: where it stands once the errors are put in time order. */
  function Rank(times: seq<int>, i: nat): (p: nat)
    requires i < |times|
    ensures p < |times| && ArgSort(times)[p] == i
  {
    PermutationHasEach(ArgSort(times), |times|, i);
    PositionOf(ArgSort(times), i)
  }

  predicate Distinct(times: seq<int>) {
    forall a, b | 0 <= a < b < |times| :: times[a] != times[b]
  }

  /** With distinct times, the rank of an error is the number of errors strictly older than it. */
  lemma RankCountsOlder(times: seq<int>, i: nat)
    requires i < |times| && Distinct(times)
    ensures Rank(times, i) == |set j | 0 <= j < |times| && times[j] < times[i]|
  {
    var order := ArgSort(times);
    ArgSortFacts(times);
    OlderPrecedeInOrder(times, order, Rank(times, i));
    DistinctImageSize(order, Rank(times, i));
  }

  /** The facts about an argsort that the lemmas below need, each spelled out. */
  lemma ArgSortFacts(times: seq<int>)
    ensures var order := ArgSort(times);
            && (forall a, b | 0 <= a < b < |order| :: order[a] != order[b])
            && (forall j | 0 <= j < |times| :: j in order)
  {
    var order := ArgSort(times);
    PermutationIsDistinct(order, |times|);
    forall j | 0 <= j < |times| ensures j in order {
      PermutationHasEach(order, |times|, j);
    }
  }

  /** In a sorted order of distinct times, the indices before position p are those of the older errors. */
  lemma OlderPrecedeInOrder(times: seq<int>, order: seq<nat>, p: nat)
    requires |order| == |times| && p < |order|
    requires forall q | 0 <= q < |order| :: order[q] < |times|
    requires forall a, b | 0 <= a < b < |order| :: order[a] != order[b]
    requires forall j | 0 <= j < |times| :: j in order
    requires SortedBy(times, order)
    requires Distinct(times)
    ensures (set j | 0 <= j < |times| && times[j] < times[order[p]]) == (set q | 0 <= q < p :: order[q])
  {
    var i := order[p];
    forall j | 0 <= j < |times| && times[j] < times[i] ensures j in (set q | 0 <= q < p :: order[q]) {
      assert j in order;
      var q :| 0 <= q < |order| && order[q] == j;
      assert times[order[q]] < times[order[p]];
    }
    forall q | 0 <= q < p ensures times[order[q]] < times[i] {
      assert times[order[q]] <= times[order[p]];
      var j := order[q];
      if j < i { assert times[j] != times[i]; } else { assert times[i] != times[j]; }
    }
  }

  /** The first p entries of a list without repeats are p different values. */
  lemma {:induction false} DistinctImageSize(xs: seq<nat>, p: nat)
    requires p <= |xs|
    requires forall a, b | 0 <= a < b < |xs| :: xs[a] != xs[b]
    ensures |set q | 0 <= q < p :: xs[q]| == p
  {
    if p > 0 {
      DistinctImageSize(xs, p - 1);
      var smaller := set q | 0 <= q < p - 1 :: xs[q];
      assert (set q | 0 <= q < p :: xs[q]) == smaller + {xs[p - 1]};
      assert xs[p - 1] !in smaller;
    }
  }

  /** A list of n strictly increasing values, all in 0 .. n-1, is 0 .. n-1 itself. */
  lemma IncreasingBelowIsRange(v: seq<int>)
    requires forall m | 0 <= m < |v| :: 0 <= v[m] < |v|
    requires forall a, b | 0 <= a < b < |v| :: v[a] < v[b]
    ensures forall m | 0 <= m < |v| :: v[m] == m
  {
    forall m | 0 <= m < |v| ensures v[m] == m {
      GapsAtLeastDistance(v, 0, m);
      GapsAtLeastDistance(v, m, |v| - 1);
    }
  }

  lemma {:induction false} GapsAtLeastDistance(v: seq<int>, m: nat, m2: nat)
    requires m <= m2 < |v|
    requires forall a, b | 0 <= a < b < |v| :: v[a] < v[b]
    ensures v[m2] - v[m] >= m2 - m
    decreases m2 - m
  {
    if m < m2 {
      GapsAtLeastDistance(v, m, m2 - 1);
    }
  }

  /** Argsorting a permutation inverts it: entry m of the result is where m stands. */
  lemma ArgSortInverts(order: seq<nat>)
    requires multiset(order) == multiset(Range(|order|))
    ensures forall m | 0 <= m < |order| :: order[ArgSort(order)[m]] == m
  {
    var n := |order|;
    var pi := ArgSort(order);
    PermutationIsDistinct(order, n);
    PermutationIsDistinct(pi, n);
    PermutationBounded(order);
    SortedPermutationInverts(order, pi);
  }

  lemma PermutationBounded(order: seq<nat>)
    requires multiset(order) == multiset(Range(|order|))
    ensures forall i | 0 <= i < |order| :: order[i] < |order|
  {
    forall i | 0 <= i < |order| ensures order[i] < |order| {
      assert order[i] in multiset(Range(|order|));
    }
  }

  /** Indices sorted by the values of a permutation of 0 .. n-1 read those values as 0 .. n-1. */
  lemma SortedPermutationInverts(order: seq<nat>, pi: seq<nat>)
    requires |pi| == |order|
    requires forall i | 0 <= i < |order| :: order[i] < |order|
    requires forall a, b | 0 <= a < b < |order| :: order[a] != order[b]
    requires forall m | 0 <= m < |pi| :: pi[m] < |order|
    requires forall a, b | 0 <= a < b < |pi| :: pi[a] != pi[b]
    requires SortedBy(order, pi)
    ensures forall m | 0 <= m < |pi| :: order[pi[m]] == m
  {
    var n := |order|;
    var v := seq(n, m requires 0 <= m < n => order[pi[m]]);
    forall a, b | 0 <= a < b < n ensures v[a] < v[b] {
      assert order[pi[a]] <= order[pi[b]];
      if pi[a] < pi[b] { assert order[pi[a]] != order[pi[b]]; } else { assert order[pi[b]] != order[pi[a]]; }
    }
    IncreasingBelowIsRange(v);
    forall m | 0 <= m < n ensures order[pi[m]] == m {
      assert v[m] == order[pi[m]];
    }
  }

  /**
   * What the selection as written returns, for every input: its k-th error is the one
   * whose index is the rank of collected error n - min(n, 5) + k, one of the last five
   * collected, whatever their times.
   */
  lemma SelectAsWrittenReadsRanks(entries: seq<ErrorEntry>, times: seq<int>)
    requires |times| == |entries|
    ensures var n := |times|;
            var r := SelectAsWritten(entries, times);
            forall k | 0 <= k < Take(n) :: r[k] == entries[Rank(times, n - Take(n) + k)]
  {
    forall k | 0 <= k < Take(|times|)
      ensures SelectAsWritten(entries, times)[k] == entries[Rank(times, |times| - Take(|times|) + k)]
    {
      SelectAsWrittenReadsRank(entries, times, k);
    }
  }

  lemma SelectAsWrittenReadsRank(entries: seq<ErrorEntry>, times: seq<int>, k: nat)
    requires |times| == |entries| && k < Take(|times|)
    ensures SelectAsWritten(entries, times)[k] == entries[Rank(times, |times| - Take(|times|) + k)]
  {
    var n := |times|;
    var order := ArgSort(times);
    var pi := ArgSort(order);
    var m := n - Take(n) + k;
    SelectAsWrittenAt(entries, times, k);
    assert order[pi[m]] == m by { ArgSortInverts(order); }
    ArgSortFacts(times);
    RankIsInverse(order, pi, m, Rank(times, m));
  }

  /** Entry k of the selection as written is read at the argsort of the argsort. */
  lemma SelectAsWrittenAt(entries: seq<ErrorEntry>, times: seq<int>, k: nat)
    requires |times| == |entries| && k < Take(|times|)
    ensures var n := |times|;
            SelectAsWritten(entries, times)[k] == entries[ArgSort(ArgSort(times))[n - Take(n) + k]]
  {
    var n := |times|;
    var mostRecent := ArgSort(ArgSort(times))[n - Take(n)..];
    assert mostRecent[k] == ArgSort(ArgSort(times))[n - Take(n) + k];
  }

  /** The position of m in a list without repeats is the one the inverse names. */
  lemma RankIsInverse(order: seq<nat>, pi: seq<nat>, m: nat, p: nat)
    requires m < |pi| && pi[m] < |order| && p < |order|
    requires forall a, b | 0 <= a < b < |order| :: order[a] != order[b]
    requires order[pi[m]] == m && order[p] == m
    ensures p == pi[m]
  {
    assert order[p] == order[pi[m]];
  }

  /** The intended selection: the last five indices of the argsort, the errors with the latest times. */
  function SelectLatest(entries: seq<ErrorEntry>, times: seq<int>): (r: seq<ErrorEntry>)
    requires |times| == |entries|
    ensures |r| == Take(|entries|)
    ensures LatestSelection(entries, times, r)
  {
    var n := |times|;
    var order := ArgSort(times);
    var picked := order[n - Take(n)..];
    var r := At(entries, picked);
    LatestIndices(times, order, Take(n));
    assert LatestPick(entries, times, picked, r);
    r
  }

  /**
   * `r` lists distinct collected errors, oldest first, and every error left out is no
   * later than every error listed.
   */
  ghost predicate LatestSelection(entries: seq<ErrorEntry>, times: seq<int>, r: seq<ErrorEntry>)
    requires |times| == |entries|
  {
    exists picked: seq<nat> :: LatestPick(entries, times, picked, r)
  }

  /** `r` reads the collected errors at the indices `picked`, which are the latest ones. */
  predicate LatestPick(entries: seq<ErrorEntry>, times: seq<int>, picked: seq<nat>, r: seq<ErrorEntry>)
    requires |times| == |entries|
  {
      && |picked| == |r|
      && (forall m | 0 <= m < |picked| :: picked[m] < |entries| && r[m] == entries[picked[m]])
      && (forall m, m' | 0 <= m < m' < |picked| :: picked[m] != picked[m'] && times[picked[m]] <= times[picked[m']])
      && (forall i, m | 0 <= i < |entries| && i !in picked && 0 <= m < |picked| :: times[i] <= times[picked[m]])
  }

  /** The last k entries of an argsort are the k latest indices. */
  lemma LatestIndices(times: seq<int>, order: seq<nat>, k: nat)
    requires |order| == |times| && k <= |times|
    requires forall i | 0 <= i < |order| :: order[i] < |times|
    requires multiset(order) == multiset(Range(|times|))
    requires SortedBy(times, order)
    ensures var n := |times|;
            var picked := order[n - k..];
            && (forall m, m' | 0 <= m < m' < |picked| :: picked[m] != picked[m'] && times[picked[m]] <= times[picked[m']])
            && (forall i, m | 0 <= i < n && i !in picked && 0 <= m < |picked| :: times[i] <= times[picked[m]])
  {
    var n := |times|;
    var picked := order[n - k..];
    PermutationIsDistinct(order, n);
    forall i, m | 0 <= i < n && i !in picked && 0 <= m < |picked|
      ensures times[i] <= times[picked[m]]
    {
      PermutationHasEach(order, n, i);
      var p :| 0 <= p < n && order[p] == i;
      assert picked[m] == order[n - k + m];
    }
  }

  /**
   * The selection as written can return the oldest error and leave out a newer one.
   * Whenever six errors are collected, the first being the latest and the other five in
   * time order (times 5, 0, 1, 2, 3, 4, say), it returns the errors at indices 0 to 4,
   * among them the oldest one at index 1, and leaves out the one at index 5, which is
   * later than index 1.
   */
  lemma AsWrittenMissesLatest(entries: seq<ErrorEntry>, times: seq<int>)
    requires |times| == |entries| == 6
    requires forall j | 1 <= j < 6 :: times[j] < times[0]
    requires forall i, j | 1 <= i < j < 6 :: times[i] < times[j]
    ensures SelectAsWritten(entries, times) == entries[..5]
    ensures times[1] < times[5]
  {
    ArgSortOfNewestFirst(times);
    AtRange(entries, 5);
  }

  lemma AtRange(entries: seq<ErrorEntry>, k: nat)
    requires k <= |entries|
    ensures At(entries, Range(k)) == entries[..k]
  {
  }

  /**
   * The argsort of such times lists indices 1 to 5 and then 0, and the argsort of that
   * lists 5 and then 0 to 4.
   */
  lemma ArgSortOfNewestFirst(times: seq<int>)
    requires |times| == 6
    requires forall j | 1 <= j < 6 :: times[j] < times[0]
    requires forall i, j | 1 <= i < j < 6 :: times[i] < times[j]
    ensures ArgSort(times) == Tail(6) + [0]
    ensures ArgSort(ArgSort(times))[1..] == Range(5)
  {
    OldestFirstPrefix(times, 6);
    ArgSortOfShifted(Tail(6) + [0]);
    assert ([5] + Range(5))[1..] == Range(5);
  }

  /** Keys 1 to 5 followed by key 0 are argsorted to index 5 and then 0 to 4. */
  lemma ArgSortOfShifted(order: seq<int>)
    requires |order| == 6 && order[5] == 0
    requires forall i | 0 <= i < 5 :: order[i] == i + 1
    ensures ArgSort(order) == [5] + Range(5)
  {
    IncreasingPrefix(order, 5);
    InsertSmallest(order, Range(5), 5);
    assert ArgSort(order) == InsertByKey(order, ArgSortPrefix(order, 5), 5);
  }

  /**
   * With the first key above all the others and the others increasing, the argsort of
   * the first n indices lists 1 to n - 1 and then 0.
   */
  lemma {:induction false} OldestFirstPrefix(keys: seq<int>, n: nat)
    requires 1 <= n <= |keys|
    requires forall j | 1 <= j < n :: keys[j] < keys[0]
    requires forall i, j | 1 <= i < j < n :: keys[i] <= keys[j]
    ensures ArgSortPrefix(keys, n) == Tail(n) + [0]
  {
    if n == 1 {
      assert ArgSortPrefix(keys, 1) == InsertByKey(keys, [], 0);
    } else {
      OldestFirstPrefix(keys, n - 1);
      OldestFirstStep(keys, n);
    }
  }

  /** The indices 1 to n - 1 in order. */
  function Tail(n: nat): (r: seq<nat>)
    ensures |r| == if n == 0 then 0 else n - 1
    ensures forall i | 0 <= i < |r| :: r[i] == i + 1
  {
    if n <= 1 then [] else Tail(n - 1) + [n - 1]
  }

  lemma OldestFirstStep(keys: seq<int>, n: nat)
    requires 2 <= n <= |keys|
    requires forall j | 1 <= j < n :: keys[j] < keys[0]
    requires forall i, j | 1 <= i < j < n :: keys[i] <= keys[j]
    requires ArgSortPrefix(keys, n - 1) == Tail(n - 1) + [0]
    ensures ArgSortPrefix(keys, n) == Tail(n) + [0]
  {
    var ys := Tail(n - 1);
    TailKeysBelow(keys, n, ys);
    InsertBefore(keys, ys, 0, n - 1);
    PrefixStep(keys, n);
    TailStep(n);
  }

  lemma TailKeysBelow(keys: seq<int>, n: nat, ys: seq<nat>)
    requires 2 <= n <= |keys| && ys == Tail(n - 1)
    requires forall i, j | 1 <= i < j < n :: keys[i] <= keys[j]
    ensures forall i | 0 <= i < |ys| :: ys[i] < |keys| && keys[ys[i]] <= keys[n - 1]
  {
  }

  lemma TailStep(n: nat)
    requires 2 <= n
    ensures Tail(n) + [0] == Tail(n - 1) + [n - 1, 0]
  {
  }

  lemma PrefixStep(keys: seq<int>, n: nat)
    requires 1 <= n <= |keys|
    ensures ArgSortPrefix(keys, n) == InsertByKey(keys, ArgSortPrefix(keys, n - 1), n - 1)
  {
  }

  /** An index whose key lies between the keys of `ys` and the key of `z` lands just before `z`. */
  lemma {:induction false} InsertBefore(keys: seq<int>, ys: seq<nat>, z: nat, x: nat)
    requires x < |keys| && z < |keys| && forall i | 0 <= i < |ys| :: ys[i] < |keys|
    requires forall i | 0 <= i < |ys| :: keys[ys[i]] <= keys[x]
    requires keys[x] < keys[z]
    ensures InsertByKey(keys, ys + [z], x) == ys + [x, z]
    decreases |ys|
  {
    if ys != [] {
      InsertBefore(keys, ys[1..], z, x);
      assert (ys + [z])[1..] == ys[1..] + [z];
      assert ys == [ys[0]] + ys[1..];
    }
  }

  /** An index whose key is below every key in the list goes to the front. */
  lemma InsertSmallest(keys: seq<int>, xs: seq<nat>, x: nat)
    requires x < |keys| && forall i | 0 <= i < |xs| :: xs[i] < |keys|
    requires xs != [] ==> keys[x] < keys[xs[0]]
    ensures InsertByKey(keys, xs, x) == [x] + xs
  {
  }

  /** An index whose key is at least every key in the list goes to the back. */
  lemma {:induction false} InsertLargest(keys: seq<int>, xs: seq<nat>, x: nat)
    requires x < |keys| && forall i | 0 <= i < |xs| :: xs[i] < |keys|
    requires forall i | 0 <= i < |xs| :: keys[xs[i]] <= keys[x]
    ensures InsertByKey(keys, xs, x) == xs + [x]
    decreases |xs|
  {
    if xs != [] {
      InsertLargest(keys, xs[1..], x);
      assert xs == [xs[0]] + xs[1..];
    }
  }

  /** With keys increasing over the first n indices, the argsort of that prefix is the identity. */
  lemma {:induction false} IncreasingPrefix(keys: seq<int>, n: nat)
    requires n <= |keys|
    requires forall i, j | 0 <= i < j < n :: keys[i] <= keys[j]
    ensures ArgSortPrefix(keys, n) == Range(n)
  {
    if n > 0 {
      IncreasingPrefix(keys, n - 1);
      assert Range(n) == Range(n - 1) + [n - 1];
      InsertLargest(keys, Range(n - 1), n - 1);
    }
  }

  /** The two response lists are the identifiers and the messages of `listed`, pair by pair. */
  predicate ListedAs(ids: seq<Option<string>>, messages: seq<Option<string>>, listed: seq<ErrorEntry>) {
    |ids| == |listed| && |messages| == |listed|
    && forall m | 0 <= m < |listed| :: ids[m] == listed[m].id && messages[m] == listed[m].message
  }

  function Ids(listed: seq<ErrorEntry>): (r: seq<Option<string>>)
    ensures |r| == |listed| && forall m | 0 <= m < |listed| :: r[m] == listed[m].id
  {
    if listed == [] then [] else [listed[0].id] + Ids(listed[1..])
  }

  function Messages(listed: seq<ErrorEntry>): (r: seq<Option<string>>)
    ensures |r| == |listed| && forall m | 0 <= m < |listed| :: r[m] == listed[m].message
  {
    if listed == [] then [] else [listed[0].message] + Messages(listed[1..])
  }

  datatype ErrorsResponse = ErrorsUnauthorized | ErrorList(ids: seq<Option<string>>, messages: seq<Option<string>>)

  /**
   * `user_get_errors`. `taskOrder` and `errorOrder` are the orders in which the two
   * SMEMBERS calls list their sets. The handler only reads.
   */
  function UserGetErrors(st: Store, cfg: Config, secret: Option<string>, user: string,
                         taskOrder: seq<string>, errorOrder: seq<string>): (r: Exec<ErrorsResponse>)
    requires Enumerates(taskOrder, st.tasks) && Enumerates(errorOrder, st.errors)
    ensures r.store == st
    ensures r.Return? && r.value.ErrorsUnauthorized? <==> !CheckBackend(secret, cfg.backendToken)
    ensures r.Raise? <==>
      CheckBackend(secret, cfg.backendToken) && ParseTimes(Collected(st, user, taskOrder, errorOrder)).None?
    ensures r.Return? && r.value.ErrorList? ==>
      var entries := Collected(st, user, taskOrder, errorOrder);
      ListedAs(r.value.ids, r.value.messages, SelectAsWritten(entries, ParseTimes(entries).value))
  {
    if !CheckBackend(secret, cfg.backendToken) then Return(ErrorsUnauthorized, st)
    else
      var entries := Collected(st, user, taskOrder, errorOrder);
      match ParseTimes(entries)
      case None => Raise(st)
      case Some(times) =>
        var listed := SelectAsWritten(entries, times);
        Return(ErrorList(Ids(listed), Messages(listed)), st)
  }

  /**
   * The partner of `devices_assign_error_message`: once a device has stored an error on a
   * task of the user's, the task loop of the listing collects that task's entry, carrying
   * the reported message and time, unless the message is "null".
   */
  lemma ReportedErrorIsCollected(st: Store, hdr: DeviceRoutes.Headers, sha512: string -> Hex, id: string,
                                 message: Option<string>, time: Option<string>, order: seq<string>, user: string)
    requires id in order && Get(st, id, Author) == Some(user)
    requires message != Some(Null)
    ensures var r := DeviceRoutes.ReportError(st, hdr, sha512, id, message, time);
            r.Return? && r.value == DeviceRoutes.ReportStored ==>
              && EntryOf(r.store, TaskHashes, id) in Collect(r.store, TaskHashes, order, user)
              && EntryOf(r.store, TaskHashes, id).message == message
              && EntryOf(r.store, TaskHashes, id).time == time
              && EntryOf(r.store, TaskHashes, id).id == Get(st, id, UniqueIdentifier)
  {
    var r := DeviceRoutes.ReportError(st, hdr, sha512, id, message, time);
    if r.Return? && r.value == DeviceRoutes.ReportStored {
      assert Get(r.store, id, Author) == Some(user);
      assert Get(r.store, id, UniqueIdentifier) == Get(st, id, UniqueIdentifier);
      var j :| 0 <= j < |order| && order[j] == id;
      ContributorIsCollected(r.store, TaskHashes, order, user, j);
    }
  }
}
