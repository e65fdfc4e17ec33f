/**
 The connection pool (src/sql.c:213-371), step by step: any number of threads take a connection
 when a query tree is made and give it back when it is destroyed.  A reader/writer lock is held from
 the one to the other; a mutex guards the pool, but not the counter of connections.
 */
module ConnectionPool {
  import opened Schema

  type Thread = nat
  type Handle = nat

  datatype Phase =
    | Admitted                           // has the reader/writer lock
    | Searching                          // has the mutex
    | Found(found: Option<Handle>)       // has taken the head of the pool, if any
    | Making                             // the pool was empty, the mutex is released
    | Made(handle: Handle)               // connected
    | Counting(handle: Handle, seen: int) // has read the counter
    | Using(handle: Handle)
    | Returning(handle: Handle)          // has the mutex again
    | Returned                           // has put the connection into the pool
    | Leaving                            // has released the mutex
  {
    predicate InMutex() {
      Searching? || Found? || Returning? || Returned?
    }

    function Held(): Option<Handle> {
      if Found? then found else if Made? || Counting? || Using? || Returning? then Some(handle) else None
    }

    predicate Uncounted() {
      Made? || Counting?
    }
  }

  /** A thread between entering and leaving, and whether it asked for a transaction. */
  datatype Session = Session(writer: bool, phase: Phase)

  datatype Event = Enter(thread: Thread, writer: bool) | Go(thread: Thread)

  datatype Pool = Pool(
    free: seq<Handle>,
    made: nat,
    connections: int,
    sessions: map<Thread, Session>,
    readers: set<Thread>,
    writer: Option<Thread>,
    mutex: Option<Thread>)
  {
    // ----- steps -----

    /** Whether the step can be taken now: the locks may make a thread wait. */
    predicate Enabled(e: Event) {
      match e
      case Enter(t, asWriter) => t !in sessions && writer == None && (asWriter ==> readers == {})
      case Go(t) => t in sessions && (sessions[t].phase.Admitted? || sessions[t].phase.Using? ==> mutex == None)
    }

    function Moved(t: Thread, phase: Phase): Pool
      requires t in sessions
    {
      this.(sessions := sessions[t := sessions[t].(phase := phase)])
    }

    function Step(e: Event): Pool
      requires Enabled(e)
    {
      if e.Enter? then Entered(e.thread, e.writer) else Gone(e.thread)
    }

    function Entered(t: Thread, asWriter: bool): Pool {
      var inside := this.(sessions := sessions[t := Session(asWriter, Admitted)]);
      if asWriter then inside.(writer := Some(t)) else inside.(readers := readers + {t})
    }

    function Gone(t: Thread): Pool
      requires t in sessions
    {
      match sessions[t].phase
      case Admitted => Moved(t, Searching).(mutex := Some(t))
      case Searching => if free == [] then Moved(t, Found(None)) else Moved(t, Found(Some(free[0]))).(free := free[1..])
      case Found(found) => Moved(t, if found.None? then Making else Using(found.value)).(mutex := None)
      case Making => Moved(t, Made(made)).(made := made + 1)
      case Made(h) => Moved(t, Counting(h, connections))
      case Counting(h, seen) => Moved(t, Using(h)).(connections := seen + 1)
      case Using(h) => Moved(t, Returning(h)).(mutex := Some(t))
      case Returning(h) => Moved(t, Returned).(free := [h] + free)
      case Returned => Moved(t, Leaving).(mutex := None)
      case Leaving =>
        var outside := this.(sessions := sessions - {t});
        if sessions[t].writer then outside.(writer := None) else outside.(readers := readers - {t})
    }

    // ----- invariant -----

    ghost predicate LocksMatch() {
      && (forall t: Thread :: t in readers <==> t in sessions && !sessions[t].writer)
      && (forall t: Thread :: writer == Some(t) <==> t in sessions && sessions[t].writer)
      && (forall t: Thread :: mutex == Some(t) <==> t in sessions && sessions[t].phase.InMutex())
      && (writer.Some? ==> readers == {})
    }

    predicate Holds(t: Thread, h: Handle) {
      t in sessions && sessions[t].phase.Held() == Some(h)
    }

    ghost predicate IsHeld(h: Handle) {
      exists t: Thread :: Holds(t, h)
    }

    /** Every connection ever made is in exactly one place: once in the pool, or with one thread. */
    ghost predicate HandlesPlaced() {
      && (forall i, j :: 0 <= i < j < |free| ==> free[i] != free[j])
      && (forall h: Handle :: h in free ==> h < made && !IsHeld(h))
      && (forall t: Thread, h: Handle :: Holds(t, h) ==> h < made)
      && (forall t: Thread, u: Thread, h: Handle :: Holds(t, h) && Holds(u, h) ==> t == u)
      && (forall h: Handle :: h < made ==> h in free || IsHeld(h))
    }

    ghost predicate Valid() {
      LocksMatch() && HandlesPlaced()
    }

    /** No thread shares anything with a writer. */
    lemma WriterIsAlone(t: Thread, u: Thread)
      requires Valid() && t in sessions && u in sessions && sessions[t].writer
      ensures u == t
    {
      assert !sessions[u].writer ==> u in readers;
    }

    /** Who is let in: anyone while nobody is inside, a reader also besides readers. */
    lemma AdmitsIff(t: Thread, asWriter: bool)
      requires Valid()
      ensures Enabled(Enter(t, asWriter)) <==>
        && t !in sessions
        && (forall u :: u in sessions ==> !sessions[u].writer)
        && (asWriter ==> sessions == map[])
    {
      if writer.Some? {
        assert writer.value in sessions && sessions[writer.value].writer;
      }
      if asWriter && sessions != map[] {
        var u :| u in sessions;
        assert sessions[u].writer || u in readers;
      }
      if t' :| t' in readers {
        assert t' in sessions;
      }
    }

    /** Whom the mutex keeps waiting: a thread about to look for a connection, or to give one back. */
    lemma WaitsIff(t: Thread)
      requires Valid() && t in sessions
      ensures Enabled(Go(t)) <==>
        (sessions[t].phase.Admitted? || sessions[t].phase.Using? ==> forall u :: u in sessions ==> !sessions[u].phase.InMutex())
    {
      if mutex.Some? {
        assert mutex.value in sessions && sessions[mutex.value].phase.InMutex();
      }
    }

    /** Somebody can always move on. */
    lemma NoDeadlock() returns (t: Thread)
      requires Valid() && sessions != map[]
      ensures t in sessions && Enabled(Go(t))
    {
      if mutex.Some? {
        t := mutex.value;
      } else {
        t :| t in sessions;
      }
    }

    lemma EnterKeepsLocks(t: Thread, asWriter: bool)
      requires LocksMatch() && Enabled(Enter(t, asWriter))
      ensures Entered(t, asWriter).LocksMatch()
    {
    }

    lemma LeaveKeepsLocks(t: Thread)
      requires LocksMatch() && t in sessions && sessions[t].phase.Leaving?
      ensures Gone(t).LocksMatch()
    {
    }

    lemma MoveKeepsLocks(t: Thread)
      requires LocksMatch() && Enabled(Go(t)) && !sessions[t].phase.Leaving?
      ensures Gone(t).LocksMatch()
    {
      var next := Gone(t);
      var phase := next.sessions[t].phase;
      assert next.sessions == sessions[t := sessions[t].(phase := phase)];
      assert next.readers == readers && next.writer == writer;
      assert next.mutex == if phase.InMutex() then Some(t) else if sessions[t].phase.InMutex() then None else mutex;
    }

    /** Moves that leave the pool alone and do not change what the thread holds. */
    lemma QuietKept(next: Pool, t: Thread)
      requires HandlesPlaced() && next.free == free && next.made == made
      requires forall u: Thread, h: Handle :: next.Holds(u, h) <==> Holds(u, h)
      ensures next.HandlesPlaced()
    {
      forall h: Handle | h < made ensures h in free || next.IsHeld(h) {
        if h !in free {
          var u: Thread :| Holds(u, h);
          assert next.Holds(u, h);
        }
      }
    }

    lemma TakeKept(next: Pool, t: Thread)
      requires HandlesPlaced() && free != [] && next.free == free[1..] && next.made == made
      requires forall u: Thread, h: Handle :: next.Holds(u, h) <==> Holds(u, h) || (u == t && h == free[0])
      ensures next.HandlesPlaced()
    {
      assert forall h: Handle :: h in free <==> h == free[0] || h in free[1..];
      assert free[0] !in free[1..];
      forall h: Handle | h < made ensures h in free[1..] || next.IsHeld(h) {
        if h == free[0] {
          assert next.Holds(t, h);
        } else if h !in free {
          var u: Thread :| Holds(u, h);
          assert next.Holds(u, h);
        }
      }
    }

    lemma MakeKept(next: Pool, t: Thread)
      requires HandlesPlaced() && next.free == free && next.made == made + 1
      requires forall u: Thread, h: Handle :: next.Holds(u, h) <==> Holds(u, h) || (u == t && h == made)
      ensures next.HandlesPlaced()
    {
      forall h: Handle | h < made + 1 ensures h in free || next.IsHeld(h) {
        if h == made {
          assert next.Holds(t, h);
        } else if h !in free {
          var u: Thread :| Holds(u, h);
          assert next.Holds(u, h);
        }
      }
    }

    lemma ReturnKept(next: Pool, t: Thread, handle: Handle)
      requires HandlesPlaced() && Holds(t, handle) && next.free == [handle] + free && next.made == made
      requires forall u: Thread, h: Handle :: next.Holds(u, h) <==> Holds(u, h) && u != t
      ensures next.HandlesPlaced()
    {
      assert handle !in free;
      assert forall h: Handle :: h in next.free <==> h == handle || h in free;
      forall h: Handle | h < made ensures h in next.free || next.IsHeld(h) {
        if h !in next.free {
          var u: Thread :| Holds(u, h);
          assert u == t ==> h == handle;
          assert next.Holds(u, h);
        }
      }
    }

    lemma MoveKeepsHandles(t: Thread)
      requires HandlesPlaced() && t in sessions
      ensures Gone(t).HandlesPlaced()
    {
      var next := Gone(t);
      match sessions[t].phase
      case Searching => if free == [] { QuietKept(next, t); } else { TakeKept(next, t); }
      case Making => MakeKept(next, t);
      case Returning(h) => ReturnKept(next, t, h);
      case _ => QuietKept(next, t);
    }

    /** Every step of every thread keeps the invariant. */
    lemma StepKeeps(e: Event)
      requires Valid() && Enabled(e)
      ensures Step(e).Valid()
    {
      if e.Enter? {
        EnterKeepsLocks(e.thread, e.writer);
        QuietKept(Step(e), e.thread);
      } else if sessions[e.thread].phase.Leaving? {
        LeaveKeepsLocks(e.thread);
        MoveKeepsHandles(e.thread);
      } else {
        MoveKeepsLocks(e.thread);
        MoveKeepsHandles(e.thread);
      }
    }

    /** A step concerns one thread, and moves it on by one phase. */
    lemma OthersStay(e: Event)
      requires Enabled(e)
      ensures forall u :: u != e.thread ==> (u in Step(e).sessions <==> u in sessions)
      ensures forall u :: u != e.thread && u in sessions ==> Step(e).sessions[u] == sessions[u]
      ensures e.Enter? ==> e.thread in Step(e).sessions && Step(e).sessions[e.thread].phase == Admitted
    {
    }

    // ----- the counter -----

    ghost function UncountedThreads(): set<Thread> {
      set t | t in sessions && sessions[t].phase.Uncounted()
    }

    /** Connections made and counted, or at least on the way past the counter. */
    ghost function Countable(): int {
      made - |UncountedThreads()|
    }

    ghost predicate CountedAtMost() {
      && connections <= Countable()
      && forall t :: t in sessions && sessions[t].phase.Counting? ==> sessions[t].phase.seen <= Countable()
    }

    /** An update of the counter that another thread's update has overtaken. */
    predicate Stale(e: Event) {
      e.Go? && e.thread in sessions && sessions[e.thread].phase.Counting? && sessions[e.thread].phase.seen != connections
    }

    lemma UncountedAfter(e: Event)
      requires Enabled(e)
      ensures Step(e).UncountedThreads() ==
        if e.Go? && sessions[e.thread].phase.Making? then UncountedThreads() + {e.thread}
        else if e.Go? && sessions[e.thread].phase.Counting? then UncountedThreads() - {e.thread}
        else UncountedThreads()
    {
      OthersStay(e);
    }

    lemma CountableGrows(e: Event)
      requires Enabled(e)
      ensures Step(e).Countable() == if e.Go? && sessions[e.thread].phase.Counting? then Countable() + 1 else Countable()
    {
      UncountedAfter(e);
      var t := e.thread;
      assert e.Go? && sessions[t].phase.Making? ==> t !in UncountedThreads();
      assert e.Go? && sessions[t].phase.Counting? ==> t in UncountedThreads();
    }

    /** The counter never overstates, whatever the interleaving. */
    lemma CounterKeeps(e: Event)
      requires CountedAtMost() && Enabled(e)
      ensures Step(e).CountedAtMost()
    {
      CountableGrows(e);
    }

    /** A counter that is exact stays so, except for stale updates. */
    lemma ExactUnlessStale(e: Event)
      requires connections == Countable() && Enabled(e)
      ensures Step(e).connections == Step(e).Countable() <==> !Stale(e)
    {
      CountableGrows(e);
    }

    /** Some connection is missing from the counter, and from what any thread has read of it. */
    ghost predicate Lagging() {
      connections < Countable()
      && forall t :: t in sessions && sessions[t].phase.Counting? ==> sessions[t].phase.seen < Countable()
    }

    /** A counter that lags behind never catches up. */
    lemma LagKeeps(e: Event)
      requires Lagging() && Enabled(e)
      ensures Step(e).Lagging()
    {
      CountableGrows(e);
    }

    lemma StaleLags(e: Event)
      requires CountedAtMost() && connections == Countable() && Enabled(e) && Stale(e)
      ensures Step(e).Lagging()
    {
      CountableGrows(e);
    }

    // ----- how many connections there are -----

    /** Threads that found the pool empty and have not connected yet. */
    ghost function Makers(): set<Thread> {
      set t | t in sessions && (sessions[t].phase == Found(None) || sessions[t].phase.Making?)
    }

    ghost predicate MadeAtMost(n: nat) {
      made + |Makers()| <= n
    }

    ghost function Holders(): set<Thread> {
      set t | t in sessions && sessions[t].phase.Held().Some?
    }

    ghost predicate HeldIn(threads: set<Thread>, h: Handle) {
      exists t: Thread :: t in threads && Holds(t, h)
    }

    /** Different connections have different holders. */
    lemma {:induction false} HoldersCover(n: nat, threads: set<Thread>)
      requires HandlesPlaced() && forall h: Handle :: h < n ==> HeldIn(threads, h)
      ensures n <= |threads|
    {
      if n > 0 {
        assert HeldIn(threads, n - 1);
        var t: Thread :| t in threads && Holds(t, n - 1);
        forall h: Handle | h < n - 1 ensures HeldIn(threads - {t}, h) {
          assert HeldIn(threads, h);
          var u: Thread :| u in threads && Holds(u, h);
          assert u in threads - {t};
        }
        HoldersCover(n - 1, threads - {t});
      }
    }

    lemma InsideAddUp(t: Thread)
      requires t in sessions && sessions[t].phase.Searching?
      ensures |Holders()| + |Makers()| + 1 <= |sessions|
    {
      var busy := Holders() + Makers();
      assert Holders() !! Makers() && t !in busy;
      assert busy + {t} <= sessions.Keys;
      Contained(busy + {t}, sessions.Keys);
    }

    /** A thread that finds the pool empty: everything made so far is in use by others. */
    lemma AllInUse(t: Thread)
      requires Valid() && free == [] && t in sessions && sessions[t].phase.Searching?
      ensures made + |Makers()| + 1 <= |sessions|
    {
      forall h: Handle | h < made ensures HeldIn(Holders(), h) {
        assert IsHeld(h);
        var u: Thread :| Holds(u, h);
        assert u in Holders();
      }
      HoldersCover(made, Holders());
      InsideAddUp(t);
    }

    lemma MakersAfter(e: Event)
      requires Enabled(e)
      ensures Step(e).Makers() ==
        if e.Go? && sessions[e.thread].phase.Making? then Makers() - {e.thread}
        else if e.Go? && sessions[e.thread].phase.Searching? && free == [] then Makers() + {e.thread}
        else Makers()
    {
      OthersStay(e);
    }

    lemma MadeAfter(e: Event)
      requires Enabled(e)
      ensures Step(e).made == made + if e.Go? && sessions[e.thread].phase.Making? then 1 else 0
    {
    }

    /** So a new connection is made only when there are fewer of them than threads. */
    lemma BoundKeeps(e: Event, n: nat)
      requires Valid() && Enabled(e) && MadeAtMost(n) && |sessions| <= n
      ensures Step(e).MadeAtMost(n)
    {
      MakersAfter(e);
      MadeAfter(e);
      if e.Go? && sessions[e.thread].phase.Making? {
        assert e.thread in Makers();
      } else if e.Go? && sessions[e.thread].phase.Searching? && free == [] {
        AllInUse(e.thread);
      }
    }
  }

  lemma {:induction false} Contained<T>(a: set<T>, b: set<T>)
    requires a <= b
    ensures |a| <= |b|
  {
    assert b == a + (b - a);
  }

  // ----- runs -----

  const EMPTY := Pool([], 0, 0, map[], {}, None, None)

  predicate IsRun(pool: Pool, events: seq<Event>)
    decreases |events|
  {
    events == [] || (pool.Enabled(events[0]) && IsRun(pool.Step(events[0]), events[1..]))
  }

  function After(pool: Pool, events: seq<Event>): Pool
    requires IsRun(pool, events)
    decreases |events|
  {
    if events == [] then pool else After(pool.Step(events[0]), events[1..])
  }

  /** At no moment of the run are there more than `n` threads between entering and leaving. */
  predicate AtMost(n: nat, pool: Pool, events: seq<Event>)
    requires IsRun(pool, events)
    decreases |events|
  {
    |pool.sessions| <= n && (events == [] || AtMost(n, pool.Step(events[0]), events[1..]))
  }

  predicate NoStale(pool: Pool, events: seq<Event>)
    requires IsRun(pool, events)
    decreases |events|
  {
    events == [] || (!pool.Stale(events[0]) && NoStale(pool.Step(events[0]), events[1..]))
  }

  lemma {:induction false} RunKeeps(pool: Pool, events: seq<Event>, n: nat)
    requires IsRun(pool, events) && pool.Valid() && pool.CountedAtMost()
    ensures After(pool, events).Valid() && After(pool, events).CountedAtMost()
    ensures pool.MadeAtMost(n) && AtMost(n, pool, events) ==> After(pool, events).MadeAtMost(n)
    decreases |events|
  {
    if events != [] {
      pool.StepKeeps(events[0]);
      pool.CounterKeeps(events[0]);
      if pool.MadeAtMost(n) && |pool.sessions| <= n { pool.BoundKeeps(events[0], n); }
      RunKeeps(pool.Step(events[0]), events[1..], n);
    }
  }

  lemma {:induction false} LagStays(pool: Pool, events: seq<Event>)
    requires IsRun(pool, events) && pool.Lagging()
    ensures After(pool, events).Lagging()
    decreases |events|
  {
    if events != [] {
      pool.LagKeeps(events[0]);
      LagStays(pool.Step(events[0]), events[1..]);
    }
  }

  /** A counter that is exact is exact after a run just when no update of the run is overtaken. */
  lemma {:induction false} ExactIffNoStale(pool: Pool, events: seq<Event>)
    requires IsRun(pool, events) && pool.CountedAtMost() && pool.connections == pool.Countable()
    ensures After(pool, events).connections == After(pool, events).Countable() <==> NoStale(pool, events)
    decreases |events|
  {
    if events != [] {
      var next := pool.Step(events[0]);
      if pool.Stale(events[0]) {
        pool.StaleLags(events[0]);
        LagStays(next, events[1..]);
      } else {
        pool.CounterKeeps(events[0]);
        pool.ExactUnlessStale(events[0]);
        ExactIffNoStale(next, events[1..]);
      }
    }
  }

  function Below(n: nat): (handles: set<Handle>)
    ensures |handles| == n && forall h: Handle :: h in handles <==> h < n
  {
    if n == 0 then {} else Below(n - 1) + {n - 1}
  }

  lemma {:induction false} DistinctCount(s: seq<Handle>, all: set<Handle>)
    requires forall i, j :: 0 <= i < j < |s| ==> s[i] != s[j]
    requires forall h: Handle :: h in s <==> h in all
    ensures |s| == |all|
  {
    if s == [] {
      assert all == {};
    } else {
      var front, last := s[..|s| - 1], s[|s| - 1];
      assert s == front + [last] && last !in front;
      DistinctCount(front, all - {last});
    }
  }

  /**
   Every run from the empty pool: a connection is never with two threads, nor with anyone while it is
   in the pool; a writer is alone; there are never more connections than there were threads at the
   busiest moment; the counter never overstates them; and once all have left, none is lost, and the
   counter is exact just when no update of it was overtaken.
   */
  lemma EveryRun(events: seq<Event>, n: nat)
    requires IsRun(EMPTY, events) && AtMost(n, EMPTY, events)
    ensures var pool := After(EMPTY, events);
      && (forall t, u, h :: pool.Holds(t, h) && pool.Holds(u, h) ==> t == u && h !in pool.free)
      && (forall t, u :: t in pool.sessions && u in pool.sessions && pool.sessions[t].writer ==> u == t)
      && pool.made <= n && pool.connections <= pool.made
      && (pool.sessions == map[] ==> |pool.free| == pool.made)
      && (pool.sessions == map[] ==> (pool.connections == pool.made <==> NoStale(EMPTY, events)))
  {
    assert EMPTY.UncountedThreads() == {} && EMPTY.Makers() == {};
    RunKeeps(EMPTY, events, n);
    ExactIffNoStale(EMPTY, events);
    var pool := After(EMPTY, events);
    forall t, u | t in pool.sessions && u in pool.sessions && pool.sessions[t].writer ensures u == t {
      pool.WriterIsAlone(t, u);
    }
    if pool.sessions == map[] {
      assert pool.UncountedThreads() == {};
      forall h: Handle ensures h in pool.free <==> h < pool.made {
        assert !pool.IsHeld(h);
      }
      DistinctCount(pool.free, Below(pool.made));
    }
  }

  /** A reader that finds the pool empty. */
  function ToMaking(t: Thread): seq<Event> {
    [Enter(t, false), Go(t), Go(t), Go(t)]
  }

  lemma {:induction false} RunAppend(pool: Pool, a: seq<Event>, b: seq<Event>)
    requires IsRun(pool, a) && IsRun(After(pool, a), b)
    ensures IsRun(pool, a + b) && After(pool, a + b) == After(After(pool, a), b)
    decreases |a|
  {
    if a == [] {
      assert a + b == b;
    } else {
      assert (a + b)[1..] == a[1..] + b;
      RunAppend(pool.Step(a[0]), a[1..], b);
    }
  }

  lemma RunFirst(pool: Pool, e: Event, rest: seq<Event>)
    requires pool.Enabled(e) && IsRun(pool.Step(e), rest)
    ensures IsRun(pool, [e] + rest) && After(pool, [e] + rest) == After(pool.Step(e), rest)
  {
    assert ([e] + rest)[1..] == rest;
  }

  lemma ReachesMaking(pool: Pool, t: Thread)
    requires pool.free == [] && pool.mutex == None && pool.writer == None && t !in pool.sessions
    ensures IsRun(pool, ToMaking(t))
    ensures After(pool, ToMaking(t)) == pool.(sessions := pool.sessions[t := Session(false, Making)], readers := pool.readers + {t})
  {
    var inside := pool.Step(Enter(t, false));
    var searching := inside.Step(Go(t));
    var found := searching.Step(Go(t));
    RunFirst(found, Go(t), []);
    RunFirst(searching, Go(t), [Go(t)]);
    RunFirst(inside, Go(t), [Go(t), Go(t)]);
    RunFirst(pool, Enter(t, false), [Go(t), Go(t), Go(t)]);
  }

  /** Two threads connect, both read the counter, both write it. */
  lemma LosesOne(pool: Pool)
    requires pool.sessions == map[1 := Session(false, Making), 2 := Session(false, Making)] && pool.made == 0 && pool.connections == 0
    ensures var events := [Go(1), Go(2), Go(1), Go(2), Go(1), Go(2)];
      IsRun(pool, events) && After(pool, events).made == 2 && After(pool, events).connections == 1
  {
    var connected := pool.Step(Go(1)).Step(Go(2));
    assert connected.sessions == map[1 := Session(false, Made(0)), 2 := Session(false, Made(1))];
    var read := connected.Step(Go(1)).Step(Go(2));
    assert read.sessions == map[1 := Session(false, Counting(0, 0)), 2 := Session(false, Counting(1, 0))];
    RunFirst(read.Step(Go(1)), Go(2), []);
    RunFirst(read, Go(1), [Go(2)]);
    RunFirst(connected.Step(Go(1)), Go(2), [Go(1), Go(2)]);
    RunFirst(connected, Go(1), [Go(2), Go(1), Go(2)]);
    RunFirst(pool.Step(Go(1)), Go(2), [Go(1), Go(2), Go(1), Go(2)]);
    RunFirst(pool, Go(1), [Go(2), Go(1), Go(2), Go(1), Go(2)]);
  }

  /** Two readers that connect at once: one increment is lost, and two connections count as one. */
  lemma CounterMayUnderstate()
    ensures var events := ToMaking(1) + ToMaking(2) + [Go(1), Go(2), Go(1), Go(2), Go(1), Go(2)];
      IsRun(EMPTY, events) && After(EMPTY, events).made == 2 && After(EMPTY, events).connections == 1
  {
    ReachesMaking(EMPTY, 1);
    var one := After(EMPTY, ToMaking(1));
    ReachesMaking(one, 2);
    RunAppend(EMPTY, ToMaking(1), ToMaking(2));
    var two := After(one, ToMaking(2));
    LosesOne(two);
    RunAppend(EMPTY, ToMaking(1) + ToMaking(2), [Go(1), Go(2), Go(1), Go(2), Go(1), Go(2)]);
  }

  // ----- a visit, from entering to leaving, with nobody else inside -----

  predicate Idle(pool: Pool) {
    pool.sessions == map[] && pool.readers == {} && pool.writer == None && pool.mutex == None
  }

  function Times(n: nat, e: Event): seq<Event> {
    if n == 0 then [] else [e] + Times(n - 1, e)
  }

  /** The only thread inside goes through one phase after the other. */
  function Alone(pool: Pool, t: Thread, asWriter: bool, phase: Phase): Pool {
    pool.(sessions := map[t := Session(asWriter, phase)],
          readers := if asWriter then {} else {t},
          writer := if asWriter then Some(t) else None,
          mutex := if phase.InMutex() then Some(t) else None)
  }

  lemma EnterAlone(pool: Pool, t: Thread, asWriter: bool)
    requires Idle(pool)
    ensures pool.Enabled(Enter(t, asWriter)) && pool.Step(Enter(t, asWriter)) == Alone(pool, t, asWriter, Admitted)
  {
  }

  lemma GoAlone(pool: Pool, t: Thread, asWriter: bool, phase: Phase)
    requires !phase.Leaving?
    ensures var now := Alone(pool, t, asWriter, phase);
      && now.Enabled(Go(t))
      && now.Step(Go(t)) ==
        match phase
        case Admitted => Alone(pool, t, asWriter, Searching)
        case Searching =>
          if pool.free == [] then Alone(pool, t, asWriter, Found(None))
          else Alone(pool.(free := pool.free[1..]), t, asWriter, Found(Some(pool.free[0])))
        case Found(found) => Alone(pool, t, asWriter, if found.None? then Making else Using(found.value))
        case Making => Alone(pool.(made := pool.made + 1), t, asWriter, Made(pool.made))
        case Made(h) => Alone(pool, t, asWriter, Counting(h, pool.connections))
        case Counting(h, seen) => Alone(pool.(connections := seen + 1), t, asWriter, Using(h))
        case Using(h) => Alone(pool, t, asWriter, Returning(h))
        case Returning(h) => Alone(pool.(free := [h] + pool.free), t, asWriter, Returned)
        case Returned => Alone(pool, t, asWriter, Leaving)
        case Leaving => pool
  {
    forall p: Phase ensures map[t := Session(asWriter, phase)][t := Session(asWriter, p)] == map[t := Session(asWriter, p)] {
    }
  }

  lemma LeaveAlone(pool: Pool, t: Thread, asWriter: bool)
    requires Idle(pool)
    ensures var now := Alone(pool, t, asWriter, Leaving); now.Enabled(Go(t)) && now.Step(Go(t)) == pool
  {
    assert map[t := Session(asWriter, Leaving)] - {t} == map[];
  }

  /** Giving a connection back puts it in front, and then the thread leaves. */
  lemma GivesBack(pool: Pool, t: Thread, asWriter: bool, h: Handle)
    requires Idle(pool)
    ensures IsRun(Alone(pool, t, asWriter, Using(h)), Times(4, Go(t)))
    ensures After(Alone(pool, t, asWriter, Using(h)), Times(4, Go(t))) == pool.(free := [h] + pool.free)
  {
    var back := pool.(free := [h] + pool.free);
    GoAlone(pool, t, asWriter, Using(h));
    GoAlone(pool, t, asWriter, Returning(h));
    GoAlone(back, t, asWriter, Returned);
    LeaveAlone(back, t, asWriter);
    assert IsRun(back, []);
    RunFirst(Alone(back, t, asWriter, Leaving), Go(t), Times(0, Go(t)));
    RunFirst(Alone(back, t, asWriter, Returned), Go(t), Times(1, Go(t)));
    RunFirst(Alone(pool, t, asWriter, Returning(h)), Go(t), Times(2, Go(t)));
    RunFirst(Alone(pool, t, asWriter, Using(h)), Go(t), Times(3, Go(t)));
  }

  /** A lone thread, reader or writer, is given the connection in front and puts it back there. */
  lemma VisitReuses(pool: Pool, t: Thread, asWriter: bool)
    requires Idle(pool) && pool.free != []
    ensures var taken := pool.(free := pool.free[1..]);
      && IsRun(pool, [Enter(t, asWriter)] + Times(3, Go(t)))
      && After(pool, [Enter(t, asWriter)] + Times(3, Go(t))) == Alone(taken, t, asWriter, Using(pool.free[0]))
      && IsRun(Alone(taken, t, asWriter, Using(pool.free[0])), Times(4, Go(t)))
      && After(Alone(taken, t, asWriter, Using(pool.free[0])), Times(4, Go(t))) == pool
  {
    var taken, h := pool.(free := pool.free[1..]), pool.free[0];
    EnterAlone(pool, t, asWriter);
    GoAlone(pool, t, asWriter, Admitted);
    GoAlone(pool, t, asWriter, Searching);
    GoAlone(taken, t, asWriter, Found(Some(h)));
    assert IsRun(Alone(taken, t, asWriter, Using(h)), []);
    RunFirst(Alone(taken, t, asWriter, Found(Some(h))), Go(t), Times(0, Go(t)));
    RunFirst(Alone(pool, t, asWriter, Searching), Go(t), Times(1, Go(t)));
    RunFirst(Alone(pool, t, asWriter, Admitted), Go(t), Times(2, Go(t)));
    RunFirst(pool, Enter(t, asWriter), Times(3, Go(t)));
    GivesBack(taken, t, asWriter, h);
    assert [h] + pool.free[1..] == pool.free;
  }

  lemma MakesOne(pool: Pool, t: Thread, asWriter: bool)
    requires Idle(pool)
    ensures var making, made := Alone(pool, t, asWriter, Making), pool.(made := pool.made + 1, connections := pool.connections + 1);
      IsRun(making, Times(3, Go(t))) && After(making, Times(3, Go(t))) == Alone(made, t, asWriter, Using(pool.made))
  {
    var more, h := pool.(made := pool.made + 1), pool.made;
    var made := more.(connections := pool.connections + 1);
    GoAlone(pool, t, asWriter, Making);
    GoAlone(more, t, asWriter, Made(h));
    GoAlone(more, t, asWriter, Counting(h, pool.connections));
    assert IsRun(Alone(made, t, asWriter, Using(h)), []);
    RunFirst(Alone(more, t, asWriter, Counting(h, pool.connections)), Go(t), Times(0, Go(t)));
    RunFirst(Alone(more, t, asWriter, Made(h)), Go(t), Times(1, Go(t)));
    RunFirst(Alone(pool, t, asWriter, Making), Go(t), Times(2, Go(t)));
  }

  /** One that finds no connection makes one, counts it, and leaves it in the pool. */
  lemma VisitMakes(pool: Pool, t: Thread, asWriter: bool)
    requires Idle(pool) && pool.free == []
    ensures var made := pool.(made := pool.made + 1, connections := pool.connections + 1);
      && IsRun(pool, [Enter(t, asWriter)] + Times(6, Go(t)))
      && After(pool, [Enter(t, asWriter)] + Times(6, Go(t))) == Alone(made, t, asWriter, Using(pool.made))
      && IsRun(Alone(made, t, asWriter, Using(pool.made)), Times(4, Go(t)))
      && After(Alone(made, t, asWriter, Using(pool.made)), Times(4, Go(t))) == made.(free := [pool.made])
  {
    MakesOne(pool, t, asWriter);
    var made := pool.(made := pool.made + 1, connections := pool.connections + 1);
    EnterAlone(pool, t, asWriter);
    GoAlone(pool, t, asWriter, Admitted);
    GoAlone(pool, t, asWriter, Searching);
    GoAlone(pool, t, asWriter, Found(None));
    RunFirst(Alone(pool, t, asWriter, Found(None)), Go(t), Times(3, Go(t)));
    RunFirst(Alone(pool, t, asWriter, Searching), Go(t), Times(4, Go(t)));
    RunFirst(Alone(pool, t, asWriter, Admitted), Go(t), Times(5, Go(t)));
    RunFirst(pool, Enter(t, asWriter), Times(6, Go(t)));
    GivesBack(made, t, asWriter, pool.made);
    assert [pool.made] + pool.free == [pool.made];
  }
}
