/**
 * The priority buckets: LPUSH on creation, RPOP on dequeue, LREM on deletion, the
 * sorted-set index of priorities, and one dequeue sweep over that index
 * (reliascheduler/views/scheduler.py, the loop of the receiver long-poll).
 */
module Queue {
  import opened Common
  import opened Strings
  import opened Keys
  import opened Storage
  import opened Lifecycle

  /** LPUSH: the new entry goes to the head (left end). */
  function Push(x: string, l: seq<string>): seq<string> {
    [x] + l
  }

  /** The entry RPOP returns: the tail (right end), the earliest pushed. */
  function Oldest(l: seq<string>): string
    requires l != []
  {
    l[|l| - 1]
  }

  /** The list RPOP leaves behind; popping an empty list leaves it empty. */
  function Pop(l: seq<string>): seq<string> {
    if l == [] then [] else l[..|l| - 1]
  }

  /** A series of LPUSHes, in order. */
  function PushAll(l: seq<string>, xs: seq<string>): seq<string>
    decreases |xs|
  {
    if xs == [] then l else PushAll(Push(xs[0], l), xs[1..])
  }

  /** The entries repeated RPOPs return until the list is empty. */
  function Drain(l: seq<string>): seq<string>
    decreases |l|
  {
    if l == [] then [] else [Oldest(l)] + Drain(Pop(l))
  }

  lemma {:induction false} DrainAfterPush(x: string, l: seq<string>)
    ensures Drain(Push(x, l)) == Drain(l) + [x]
    decreases |l|
  {
    if l != [] {
      assert Push(x, l)[|Push(x, l)| - 1] == l[|l| - 1];
      assert Oldest(Push(x, l)) == Oldest(l);
      assert Pop(Push(x, l)) == Push(x, Pop(l));
      DrainAfterPush(x, Pop(l));
    }
  }

  /** LPUSH with RPOP is first-in first-out: entries come out in the order they went in, after those already queued. */
  lemma {:induction false} BucketIsFifo(l: seq<string>, xs: seq<string>)
    ensures Drain(PushAll(l, xs)) == Drain(l) + xs
    decreases |xs|
  {
    if xs != [] {
      BucketIsFifo(Push(xs[0], l), xs[1..]);
      DrainAfterPush(xs[0], l);
      assert xs == [xs[0]] + xs[1..];
    }
  }

  /** ZADD of a priority to the index: inserted at its place by score, no effect if already present. */
  function Insert(xs: seq<int>, p: int): (r: seq<int>)
    ensures forall q :: q in r <==> q in xs || q == p
    ensures Ascending(xs) ==> Ascending(r)
    ensures p in xs ==> r == xs
  {
    if p in xs then xs
    else if xs == [] then [p]
    else if p < xs[0] then [p] + xs
    else
      var rest := Insert(xs[1..], p);
      assert forall j | 0 <= j < |rest| :: rest[j] in rest;
      assert Ascending(xs) ==> forall j | 1 <= j < |xs| :: xs[0] < xs[j];
      assert forall q | q in xs[1..] :: exists j | 1 <= j < |xs| :: xs[j] == q;
      [xs[0]] + rest
  }

  /** The position of the first occurrence of `x`. */
  function IndexOf(l: seq<string>, x: string): (i: nat)
    requires x in l
    ensures i < |l| && l[i] == x && x !in l[..i]
  {
    if l[0] == x then 0
    else
      var i := IndexOf(l[1..], x);
      assert l[..i + 1] == [l[0]] + l[1..][..i];
      1 + i
  }

  /** LREM with count 1: drop the first occurrence from the head, keeping the rest in order. */
  function RemoveFirst(l: seq<string>, x: string): (r: seq<string>)
    ensures x !in l ==> r == l
    ensures x in l ==> r == l[..IndexOf(l, x)] + l[IndexOf(l, x) + 1..]
    ensures multiset(r) == multiset(l) - multiset{x}
  {
    if x !in l then l
    else
      var i := IndexOf(l, x);
      assert l == l[..i] + [x] + l[i + 1..];
      l[..i] + l[i + 1..]
  }

  /** RPOP on one bucket. */
  function Rpop(st: Store, p: int): (r: (Option<string>, Store))
    ensures Bucket(st, p) == [] ==> r.0.None?
    ensures Bucket(st, p) != [] ==> r.0 == Some(Oldest(Bucket(st, p)))
    ensures Bucket(r.1, p) == Pop(Bucket(st, p))
    ensures forall q | q != p :: Bucket(r.1, q) == Bucket(st, q)
    ensures r.1 == st.(buckets := r.1.buckets)
  {
    var l := Bucket(st, p);
    if l == [] then (None, st) else (Some(Oldest(l)), st.(buckets := st.buckets[p := Pop(l)]))
  }

  /** Reference for one sweep: the position of the first servable bucket, or |ps| when there is none. */
  function FirstServable(st: Store, ps: seq<int>, now: int, cfg: Config): (k: nat)
    ensures k <= |ps|
    ensures forall j | 0 <= j < k :: !Servable(st, ps[j], now, cfg)
    ensures k < |ps| ==> Servable(st, ps[k], now, cfg)
    decreases |ps|
  {
    if ps == [] then 0
    else if Servable(st, ps[0], now, cfg) then 0
    else 1 + FirstServable(st, ps[1..], now, cfg)
  }

  predicate Distinct(ps: seq<int>) {
    forall i, j | 0 <= i < j < |ps| :: ps[i] != ps[j]
  }

  /** Two stores agree on every task's poll stamp. */
  ghost predicate SameStamps(a: Store, b: Store) {
    forall x :: Get(a, x, InactiveSince) == Get(b, x, InactiveSince)
  }

  lemma {:induction false} FirstServableFrame(a: Store, b: Store, ps: seq<int>, now: int, cfg: Config)
    requires SameStamps(a, b)
    requires forall j | 0 <= j < |ps| :: Bucket(a, ps[j]) == Bucket(b, ps[j])
    ensures FirstServable(a, ps, now, cfg) == FirstServable(b, ps, now, cfg)
    decreases |ps|
  {
    if ps != [] {
      assert Bucket(a, ps[0]) == Bucket(b, ps[0]);
      if Bucket(a, ps[0]) != [] {
        assert Get(a, Oldest(Bucket(a, ps[0])), InactiveSince) == Get(b, Oldest(Bucket(a, ps[0])), InactiveSince);
      }
      FirstServableFrame(a, b, ps[1..], now, cfg);
    }
  }

  /** A bucket whose oldest entry a sweep would hand out: non-empty, and that task not stale. */
  predicate Servable(st: Store, p: int, now: int, cfg: Config) {
    Bucket(st, p) != [] && !Stale(st, Oldest(Bucket(st, p)), now, cfg)
  }

  /**
   * One iteration of the sweep on bucket `p`: RPOP, then the inactivity check on the
   * popped identifier. The identifier is handed out exactly when the bucket is servable.
   */
  function Probe(st: Store, p: int, base: string, now: int, cfg: Config): (r: Exec<Option<string>>)
    ensures r.Return? ==> (r.value.Some? <==> Servable(st, p, now, cfg))
    ensures r.Return? && r.value.Some? ==> r.value.value == Oldest(Bucket(st, p))
    ensures r.Return? ==> Bucket(r.store, p) == Pop(Bucket(st, p))
    ensures forall q | q != p :: Bucket(r.store, q) == Bucket(st, q)
  {
    var (popped, st1) := Rpop(st, p);
    var probe := if popped.Some? then popped.value else "None";
    assert SameStamps(st, st1);
    StopKeepsQueues(st1, base, probe, now, cfg);
    match StopIfInactive(st1, base, probe, now, cfg)
    case Raise(st2) => Raise(st2)
    case Return(stopped, st2) =>
      assert stopped == Stale(st, probe, now, cfg);
      if !stopped && popped.Some? then Return(popped, st2) else Return(None, st2)
  }

  /** A probe changes only task hashes, slots and buckets, and no poll stamp. */
  lemma ProbeFrame(st: Store, p: int, base: string, now: int, cfg: Config)
    ensures var r := Probe(st, p, base, now, cfg);
            && SameStamps(st, r.store)
            && r.store == st.(hashes := r.store.hashes, slots := r.store.slots, buckets := r.store.buckets)
  {
    var (popped, st1) := Rpop(st, p);
    var probe := if popped.Some? then popped.value else "None";
    assert SameStamps(st, st1);
    StopKeepsQueues(st1, base, probe, now, cfg);
  }

  /**
   * With no inactivity limit configured, a probe of a bucket whose oldest task carries a
   * poll stamp raises after the RPOP: the request fails and the task is gone from its bucket.
   */
  lemma ProbeWithoutLimitLosesTask(st: Store, p: int, base: string, now: int, cfg: Config)
    requires cfg.maxTimeWithoutPolling.None?
    requires Bucket(st, p) != [] && Get(st, Oldest(Bucket(st, p)), InactiveSince).Some?
    ensures Probe(st, p, base, now, cfg).Raise?
    ensures Bucket(Probe(st, p, base, now, cfg).store, p) == Pop(Bucket(st, p))
  {
    var (popped, st1) := Rpop(st, p);
    assert SameStamps(st, st1);
    StopKeepsQueues(st1, base, popped.value, now, cfg);
  }

  /**
   * With the limit configured, a probe never raises on a store whose poll stamps all
   * parse: the popped task is either handed out or reclaimed, never lost.
   */
  lemma ProbeWithLimitReturns(st: Store, p: int, base: string, now: int, cfg: Config)
    requires cfg.maxTimeWithoutPolling.Some?
    requires forall x | Get(st, x, InactiveSince).Some? :: ParseInt(Get(st, x, InactiveSince).value).Some?
    ensures Probe(st, p, base, now, cfg).Return?
  {
    var (popped, st1) := Rpop(st, p);
    assert SameStamps(st, st1);
  }

  /** The inactivity check touches neither the buckets nor any poll stamp. */
  lemma StopKeepsQueues(st: Store, base: string, id: string, now: int, cfg: Config)
    ensures var r := StopIfInactive(st, base, id, now, cfg);
            r.store.buckets == st.buckets && SameStamps(st, r.store)
  {
  }

  /** The buckets a sweep that stopped at position k has popped. */
  function Swept(ps: seq<int>, k: nat): seq<int>
    requires k <= |ps|
  {
    if k < |ps| then ps[..k + 1] else ps
  }

  /**
   * One pass of the `for priority in zrange(...)` loop: pop each bucket once, in the
   * order given, run the inactivity check on what was popped, and stop at the first
   * popped task the check leaves alone. A stopped task is discarded, not re-queued.
   * An empty pop runs the check on the identifier "None", the text `None` formats to.
   */
  function Sweep(st: Store, ps: seq<int>, base: string, now: int, cfg: Config): (r: Exec<Option<string>>)
    requires Distinct(ps)
    ensures r.Return? ==> SweepOutcome(st, ps, now, cfg, r.value, r.store)
    ensures SameStamps(st, r.store)
    ensures r.store == st.(hashes := r.store.hashes, slots := r.store.slots, buckets := r.store.buckets)
    decreases |ps|
  {
    if ps == [] then Return(None, st)
    else
      ProbeFrame(st, ps[0], base, now, cfg);
      match Probe(st, ps[0], base, now, cfg)
      case Raise(st2) => Raise(st2)
      case Return(served, st2) =>
        if served.Some? then
          SweepServesFirst(st, st2, ps, now, cfg, served);
          Return(served, st2)
        else
          var rest := Sweep(st2, ps[1..], base, now, cfg);
          if rest.Return? then
            SweepSkipsFirst(st, st2, rest.store, ps, now, cfg, rest.value);
            rest
          else
            rest
  }

  /**
   * What a sweep that returned normally has done: it served the oldest task of the first
   * servable bucket, if there is one, and popped every bucket up to and including it.
   */
  ghost predicate SweepOutcome(st: Store, ps: seq<int>, now: int, cfg: Config, served: Option<string>, final: Store) {
    var k := FirstServable(st, ps, now, cfg);
    && (served.Some? <==> k < |ps|)
    && (k < |ps| ==> served == Some(Oldest(Bucket(st, ps[k]))))
    && (forall q :: Bucket(final, q) == if q in Swept(ps, k) then Pop(Bucket(st, q)) else Bucket(st, q))
  }

  /** When the first bucket is servable the sweep stops there, having popped only that bucket. */
  lemma SweepServesFirst(st: Store, st2: Store, ps: seq<int>, now: int, cfg: Config, served: Option<string>)
    requires ps != [] && Servable(st, ps[0], now, cfg)
    requires served == Some(Oldest(Bucket(st, ps[0])))
    requires Bucket(st2, ps[0]) == Pop(Bucket(st, ps[0]))
    requires forall q | q != ps[0] :: Bucket(st2, q) == Bucket(st, q)
    ensures SweepOutcome(st, ps, now, cfg, served, st2)
  {
    assert FirstServable(st, ps, now, cfg) == 0;
    assert Swept(ps, 0) == [ps[0]];
  }

  /** When the first bucket is not servable, the sweep's outcome is that of the rest, one bucket later. */
  lemma SweepSkipsFirst(st: Store, st2: Store, final: Store, ps: seq<int>, now: int, cfg: Config, served: Option<string>)
    requires ps != [] && Distinct(ps) && !Servable(st, ps[0], now, cfg)
    requires SameStamps(st, st2)
    requires Bucket(st2, ps[0]) == Pop(Bucket(st, ps[0]))
    requires forall q | q != ps[0] :: Bucket(st2, q) == Bucket(st, q)
    requires SweepOutcome(st2, ps[1..], now, cfg, served, final)
    ensures SweepOutcome(st, ps, now, cfg, served, final)
  {
    SweepIndexStep(st, st2, ps, now, cfg);
    var k' := FirstServable(st2, ps[1..], now, cfg);
    SweepBucketsStep(st, st2, final, ps, k');
    if k' < |ps| - 1 {
      assert ps[1..][k'] == ps[1 + k'] && ps[1 + k'] != ps[0];
    }
  }

  /** Skipping a bucket that is empty or whose task is stale moves the stopping point by one. */
  lemma SweepIndexStep(st: Store, st2: Store, ps: seq<int>, now: int, cfg: Config)
    requires ps != [] && Distinct(ps)
    requires !Servable(st, ps[0], now, cfg)
    requires SameStamps(st, st2)
    requires forall q | q != ps[0] :: Bucket(st2, q) == Bucket(st, q)
    ensures FirstServable(st, ps, now, cfg) == 1 + FirstServable(st2, ps[1..], now, cfg)
  {
    forall j | 0 <= j < |ps[1..]|
      ensures Bucket(st2, ps[1..][j]) == Bucket(st, ps[1..][j])
    {
      assert ps[1..][j] == ps[j + 1] && ps[j + 1] != ps[0];
    }
    FirstServableFrame(st2, st, ps[1..], now, cfg);
  }

  /** The buckets after the rest of the sweep, seen from before the first pop. */
  lemma SweepBucketsStep(st: Store, st2: Store, final: Store, ps: seq<int>, k': nat)
    requires ps != [] && Distinct(ps) && k' <= |ps| - 1
    requires Bucket(st2, ps[0]) == Pop(Bucket(st, ps[0]))
    requires forall q | q != ps[0] :: Bucket(st2, q) == Bucket(st, q)
    requires forall q :: Bucket(final, q) == if q in Swept(ps[1..], k') then Pop(Bucket(st2, q)) else Bucket(st2, q)
    ensures forall q :: Bucket(final, q) == if q in Swept(ps, 1 + k') then Pop(Bucket(st, q)) else Bucket(st, q)
  {
    assert Swept(ps, 1 + k') == [ps[0]] + Swept(ps[1..], k');
    assert ps[0] !in ps[1..];
    assert ps[0] !in Swept(ps[1..], k');
  }

  /** Popping leaves a prefix of the list: only the oldest entry goes. */
  lemma PopIsPrefix(l: seq<string>)
    ensures Pop(l) <= l
  {
  }

  /** After a sweep every bucket is a prefix of what it was. */
  lemma SweepShrinks(st: Store, ps: seq<int>, base: string, now: int, cfg: Config)
    requires Distinct(ps)
    ensures Sweep(st, ps, base, now, cfg).Return? ==>
      forall p :: Bucket(Sweep(st, ps, base, now, cfg).store, p) <= Bucket(st, p)
  {
    var r := Sweep(st, ps, base, now, cfg);
    if r.Return? {
      forall p ensures Bucket(r.store, p) <= Bucket(st, p) {
        PopIsPrefix(Bucket(st, p));
      }
    }
  }

  /**
   * The long-poll loop of the receiver request: one sweep over the priority index per
   * clock reading in `ticks`, until a task is served or a reading passes the deadline.
   * The clock is a parameter; its last reading lies past the deadline. One reading serves
   * both the deadline test and every inactivity check of that sweep.
   */
  function PollReceiver(st: Store, base: string, ticks: seq<int>, deadline: int, cfg: Config): (r: Exec<Option<(string, int)>>)
    requires Valid(st)
    requires |ticks| > 0 && ticks[|ticks| - 1] > deadline
    ensures r.Return? && r.value.Some? ==> r.value.value.1 in ticks && r.value.value.1 <= deadline
    ensures r.Return? && r.value.Some? ==> exists p | p in st.index :: r.value.value.0 in Bucket(st, p)
    ensures r.Return? ==> forall p :: Bucket(r.store, p) <= Bucket(st, p)
    ensures ticks[0] > deadline ==> r == Return(None, st)
    ensures SameStamps(st, r.store)
    ensures r.store == st.(hashes := r.store.hashes, slots := r.store.slots, buckets := r.store.buckets)
    decreases |ticks|
  {
    if ticks[0] > deadline then Return(None, st)
    else
      var sw := Sweep(st, st.index, base, ticks[0], cfg);
      SweepShrinks(st, st.index, base, ticks[0], cfg);
      match sw
      case Raise(s) => Raise(s)
      case Return(served, s) =>
        if served.Some? then
          var k := FirstServable(st, st.index, ticks[0], cfg);
          assert Oldest(Bucket(st, st.index[k])) in Bucket(st, st.index[k]);
          Return(Some((served.value, ticks[0])), s)
        else
          var rest := PollReceiver(s, base, ticks[1..], deadline, cfg);
          assert forall t | t in ticks[1..] :: t in ticks;
          if rest.Return? && rest.value.Some? then
            var p :| p in s.index && rest.value.value.0 in Bucket(s, p);
            assert Bucket(s, p) <= Bucket(st, p);
            rest
          else
            rest
  }

  /** A task that sits in no bucket is never handed out by the long-poll loop. */
  lemma UnqueuedNeverServed(st: Store, base: string, ticks: seq<int>, deadline: int, cfg: Config, id: string)
    requires Valid(st)
    requires |ticks| > 0 && ticks[|ticks| - 1] > deadline
    requires forall p :: id !in Bucket(st, p)
    ensures var r := PollReceiver(st, base, ticks, deadline, cfg);
            r.Return? && r.value.Some? ==> r.value.value.0 != id
  {
  }
}
