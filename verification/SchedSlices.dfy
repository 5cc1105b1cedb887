/**
  Preemption: what a call of the scheduler does in terms of states, queues and times alone, and how soon a waiting
  thread gets a CPU that ticks.
 */
module SchedSlices {
  import opened Options
  import opened LinkedLists
  import opened SchedModel
  import opened SchedRuns
  import opened SchedWaiting

  // ------------------------------------------------------------------ one call of the scheduler

  lemma {:induction false} FirstIndex(q: seq<nat>, th: Threads) returns (i: nat)
    requires First(q, th).Some?
    ensures i < |q| && First(q, th) == Some(q[i]) && Ready(th, q[i])
    ensures forall j :: 0 <= j < i ==> !Ready(th, q[j])
    ensures Without(q, q[i]) == q[..i] + q[i + 1..]
  {
    if Ready(th, q[0]) {
      i := 0;
      assert q == [q[0]] + q[1..];
    } else {
      i := FirstIndex(q[1..], th);
      var x := q[1..][i];
      assert Without(q, x) == [q[0]] + Without(q[1..], x);
      i := i + 1;
      assert q[..i] == [q[0]] + q[1..][..i - 1] && q[i + 1..] == q[1..][i..];
    }
  }

  /** The slice of the CPU's thread is over, or it cannot go on: it has none, has stopped or has yielded. */
  ghost predicate Due(s: Sched, cpu: nat, now: int)
    requires cpu < |s.current|
  {
    s.current[cpu].Some? && s.current[cpu].value in s.threads ==>
      var o := s.threads[s.current[cpu].value];
      o.state != Runnable || o.preemptAt <= now
  }

  /** A queued thread is not the one on the CPU, so that un-yielding does not touch it. */
  lemma {:induction false} QueuedSame(s: Sched, cpu: nat)
    requires Inv(s) && cpu < |s.current|
    ensures forall p, u :: QueuedAt(s, p, u) ==>
              u in Unyield(s.threads, s.current[cpu]) && Unyield(s.threads, s.current[cpu])[u] == s.threads[u]
  {
    if s.current[cpu].Some? {
      CurrentNotQueued(s, cpu, s.current[cpu].value);
    }
  }

  /** Thread `queues[p][i]` is the first that can run, from the highest priority down. */
  ghost predicate FirstRunnable(s: Sched, p: nat, i: nat)
    requires Typed(s)
  {
    && p < PRIOS && i < |s.queues[p]| && s.threads[s.queues[p][i]].state == Runnable
    && (forall j :: 0 <= j < i ==> s.threads[s.queues[p][j]].state != Runnable)
    && (forall k, u :: p < k < PRIOS && u in s.queues[k] ==> s.threads[u].state != Runnable)
  }

  lemma {:induction false} ChooseIndex(s: Sched, cpu: nat, th: Threads) returns (p: nat, i: nat)
    requires Inv(s) && cpu < |s.current| && th == Unyield(s.threads, s.current[cpu])
    requires Choose(s.queues, th, PRIOS).Some?
    ensures FirstRunnable(s, p, i) && Choose(s.queues, th, PRIOS) == Some(s.queues[p][i])
    ensures Without(s.queues[p], s.queues[p][i]) == s.queues[p][..i] + s.queues[p][i + 1..]
  {
    QueuedSame(s, cpu);
    p := ChooseBest(s.queues, th, PRIOS);
    i := FirstIndex(s.queues[p], th);
    forall j | 0 <= j < i
      ensures s.threads[s.queues[p][j]].state != Runnable
    {
      assert QueuedAt(s, p, s.queues[p][j]);
    }
    assert QueuedAt(s, p, s.queues[p][i]);
    forall k, u | p < k < PRIOS && u in s.queues[k]
      ensures s.threads[u].state != Runnable
    {
      assert QueuedAt(s, k, u) && !Ready(th, u);
    }
  }

  /** What the call leaves of a thread: the chosen one gets a slice, one that yielded can run again. */
  function Left(x: Thread, yielded: bool, chosen: bool, now: int): Thread
  {
    Thread(if yielded then Runnable else x.state, x.priority, if chosen then now + 5000 else x.preemptAt)
  }

  /** A queue without the chosen thread, and with the old one at its end if that is where it belongs. */
  function QueueAfter(q: seq<nat>, chosen: bool, i: nat, tail: seq<nat>): seq<nat>
    requires chosen ==> i < |q|
  {
    (if chosen then q[..i] + q[i + 1..] else q) + tail
  }

  /** The old thread, if it belongs in queue `k`. */
  function Old(s: Sched, cpu: nat, k: nat): seq<nat>
    requires cpu < |s.current|
  {
    var o := s.current[cpu];
    if o.Some? && o.value in s.threads && s.threads[o.value].priority == k then [o.value] else []
  }

  lemma {:induction false} SwitchQueuesAre(s: Sched, cpu: nat, th: Threads, p: nat, i: nat, now: int, k: nat)
    requires Typed(s) && cpu < |s.current| && th == Unyield(s.threads, s.current[cpu]) && k < PRIOS
    requires p < PRIOS && i < |s.queues[p]|
    requires Without(s.queues[p], s.queues[p][i]) == s.queues[p][..i] + s.queues[p][i + 1..]
    ensures Switch(s, cpu, th, s.queues[p][i], now).queues[k] == QueueAfter(s.queues[k], k == p, i, Old(s, cpu, k))
  {
    assert s.queues[p][i] in s.queues[p];
  }

  lemma {:induction false} SwitchThreadsAre(s: Sched, cpu: nat, th: Threads, t: nat, now: int, u: nat)
    requires Typed(s) && cpu < |s.current| && th == Unyield(s.threads, s.current[cpu])
    requires t in s.threads && s.current[cpu] != Some(t) && u in s.threads
    ensures var r := Switch(s, cpu, th, t, now);
            && r.threads.Keys == s.threads.Keys
            && r.threads[u]
               == Left(s.threads[u], s.current[cpu] == Some(u) && s.threads[u].state == Yielded, u == t, now)
  {
  }

  /** The chosen thread is not the one on the CPU. */
  lemma {:induction false} DueChoice(s: Sched, cpu: nat, now: int, th: Threads) returns (p: nat, i: nat)
    requires Inv(s) && cpu < |s.current| && Due(s, cpu, now) && th == Unyield(s.threads, s.current[cpu])
    requires exists k, u :: QueuedAt(s, k, u) && s.threads[u].state == Runnable
    ensures FirstRunnable(s, p, i) && s.current[cpu] != Some(s.queues[p][i])
    ensures Schedule(s, cpu, now) == Next(Switch(s, cpu, th, s.queues[p][i], now))
    ensures Without(s.queues[p], s.queues[p][i]) == s.queues[p][..i] + s.queues[p][i + 1..]
  {
    QueuedSame(s, cpu);
    var k, u :| QueuedAt(s, k, u) && s.threads[u].state == Runnable;
    if Choose(s.queues, th, PRIOS).None? {
      ChooseNone(s.queues, th, PRIOS, k, u);
    }
    p, i := ChooseIndex(s, cpu, th);
    assert QueuedAt(s, p, s.queues[p][i]);
    if s.current[cpu].Some? {
      CurrentNotQueued(s, cpu, s.current[cpu].value);
    }
  }

  /**
    When the CPU's thread is due and a queued thread can run, the first such thread of the highest priority becomes
    current with a slice of 5000 microseconds, and the old one goes to the end of the queue of its own priority.
   */
  lemma {:induction false} DueSwitches(s: Sched, cpu: nat, now: int) returns (p: nat, i: nat, r: Sched)
    requires Inv(s) && cpu < |s.current| && Due(s, cpu, now)
    requires exists k, u :: QueuedAt(s, k, u) && s.threads[u].state == Runnable
    ensures Schedule(s, cpu, now) == Next(r) && FirstRunnable(s, p, i)
    ensures r.current == s.current[cpu := Some(s.queues[p][i])] && |r.queues| == PRIOS
    ensures forall k :: 0 <= k < PRIOS ==> r.queues[k] == QueueAfter(s.queues[k], k == p, i, Old(s, cpu, k))
    ensures r.threads.Keys == s.threads.Keys
    ensures forall u :: u in s.threads ==>
              r.threads[u] == Left(s.threads[u], s.current[cpu] == Some(u) && s.threads[u].state == Yielded,
                                   u == s.queues[p][i], now)
  {
    var th := Unyield(s.threads, s.current[cpu]);
    p, i := DueChoice(s, cpu, now, th);
    var t := s.queues[p][i];
    r := Switch(s, cpu, th, t, now);
    forall k | 0 <= k < PRIOS
      ensures r.queues[k] == QueueAfter(s.queues[k], k == p, i, Old(s, cpu, k))
    {
      SwitchQueuesAre(s, cpu, th, p, i, now, k);
    }
    SwitchThreadsAre(s, cpu, th, t, now, t);
    forall u | u in s.threads
      ensures r.threads[u]
           == Left(s.threads[u], s.current[cpu] == Some(u) && s.threads[u].state == Yielded, u == t, now)
    {
      SwitchThreadsAre(s, cpu, th, t, now, u);
    }
  }

  /** A thread that can run and has time left stays where it is, and so does everything else. */
  lemma {:induction false} NotDueStays(s: Sched, cpu: nat, now: int)
    requires Typed(s) && cpu < |s.current| && !Due(s, cpu, now)
    ensures Schedule(s, cpu, now) == Next(s)
  {
  }

  /** With nothing else to run the old thread goes on if it can; without one there is no thread left. */
  lemma {:induction false} DueAlone(s: Sched, cpu: nat, now: int)
    requires Inv(s) && cpu < |s.current| && Due(s, cpu, now)
    requires forall k, u :: QueuedAt(s, k, u) ==> s.threads[u].state != Runnable
    ensures match s.current[cpu]
            case None => Schedule(s, cpu, now) == NoCurrent
            case Some(o) =>
              if s.threads[o].state == Runnable then Schedule(s, cpu, now) == Next(s)
              else if s.threads[o].state == Yielded then Schedule(s, cpu, now) == Next(WithState(s, o, Runnable))
              else Schedule(s, cpu, now) == NoThread
  {
    QueuedSame(s, cpu);
    var th := Unyield(s.threads, s.current[cpu]);
    if Choose(s.queues, th, PRIOS).Some? {
      var p, i := ChooseIndex(s, cpu, th);
      assert QueuedAt(s, p, s.queues[p][i]);
    }
  }

  lemma {:induction false} StateQueued(s: Sched, cpu: nat, x: nat, st: State)
    requires Inv(s) && cpu < |s.current| && s.current[cpu] == Some(x)
    ensures Inv(WithState(s, x, st))
    ensures forall k, u :: QueuedAt(s, k, u) ==> WithState(s, x, st).threads[u] == s.threads[u]
  {
    SamePlaces(s, WithState(s, x, st));
    CurrentNotQueued(s, cpu, x);
  }

  /** A thread that yields gives way to any queued thread that can run, and is then the last of its own queue. */
  lemma {:induction false} YieldGivesWay(s: Sched, cpu: nat, now: int) returns (p: nat, i: nat, r: Sched)
    requires Inv(s) && cpu < |s.current| && s.current[cpu].Some?
    requires exists k, u :: QueuedAt(s, k, u) && s.threads[u].state == Runnable
    ensures Step(s, Yield(cpu, now)) == Next(r) && FirstRunnable(s, p, i)
    ensures r.current == s.current[cpu := Some(s.queues[p][i])]
    ensures s.queues[p][i] in r.threads && r.threads[s.queues[p][i]].preemptAt == now + 5000
    ensures var o := s.current[cpu].value;
            && o in r.threads && r.threads[o].state == Runnable
            && var k := s.threads[o].priority;
            |r.queues| == PRIOS && r.queues[k] != [] && r.queues[k][|r.queues[k]| - 1] == o
  {
    var o := s.current[cpu].value;
    var s1 := WithState(s, o, Yielded);
    StateQueued(s, cpu, o, Yielded);
    var k, u :| QueuedAt(s, k, u) && s.threads[u].state == Runnable;
    assert QueuedAt(s1, k, u);
    p, i, r := DueSwitches(s1, cpu, now);
    SameFirst(s, s1, p, i);
  }

  lemma {:induction false} SameFirst(s: Sched, s1: Sched, p: nat, i: nat)
    requires Typed(s) && Typed(s1) && s1.queues == s.queues && FirstRunnable(s1, p, i)
    requires forall k, u :: QueuedAt(s, k, u) ==> s1.threads[u] == s.threads[u]
    ensures FirstRunnable(s, p, i)
  {
    assert QueuedAt(s, p, s.queues[p][i]);
    forall j | 0 <= j < i
      ensures s.threads[s.queues[p][j]].state != Runnable
    {
      assert QueuedAt(s, p, s.queues[p][j]);
    }
    forall k, u | p < k < PRIOS && u in s.queues[k]
      ensures s.threads[u].state != Runnable
    {
      assert QueuedAt(s, k, u);
    }
  }

  /** A thread that has stopped keeps its state and does not have the CPU afterwards. */
  lemma {:induction false} StopEnds(s: Sched, cpu: nat, t: nat, st: State, now: int)
    requires Inv(s) && Possible(s, Stop(cpu, t, st, now)) && Step(s, Stop(cpu, t, st, now)).Next?
    ensures var r := Step(s, Stop(cpu, t, st, now)).s;
            t in r.threads && r.threads[t].state == st && |r.current| == |s.current| && r.current[cpu] != Some(t)
  {
    var s1 := WithState(s, t, st);
    SamePlaces(s, s1);
  }

  // ------------------------------------------------------------------ waiting, in calls after the end of a slice

  predicate IsCall(e: Event)
  {
    e.Tick? || e.Yield? || e.Stop?
  }

  /** The step calls the scheduler on a CPU whose thread is due. */
  ghost predicate DueStep(s: Sched, e: Event)
  {
    Typed(s) && Possible(s, e) && IsCall(e) && Due(Entry(s, e), e.cpu, e.now)
  }

  /** While a thread waits, such a call leads to a switch. */
  lemma {:induction false} DueIsSwitch(s: Sched, e: Event, r: Sched, t: nat)
    requires Inv(s) && Leads(s, e, r) && Waits(s, t) && Waits(r, t) && DueStep(s, e)
    ensures One(s, e) == 1
  {
    EntryRank(s, e, t);
    EntryChoice(Entry(s, e), e.cpu, t);
  }

  lemma {:induction false} EntryChoice(s: Sched, cpu: nat, t: nat)
    requires Inv(s) && cpu < |s.current| && Waits(s, t)
    ensures Choose(s.queues, Unyield(s.threads, s.current[cpu]), PRIOS).Some?
  {
    QueuedSame(s, cpu);
    assert QueuedAt(s, KERNEL, t);
    KernelFirst(s.queues, Unyield(s.threads, s.current[cpu]), t);
  }

  /** Number of such calls in the first `n` steps of a run. */
  ghost function DueCount(run: seq<Sched>, es: seq<Event>, n: nat): nat
    requires n <= |es| <= |run|
  {
    if n == 0 then 0 else DueCount(run, es, n - 1) + if DueStep(run[n - 1], es[n - 1]) then 1 else 0
  }

  lemma {:induction false} DueBound(run: seq<Sched>, es: seq<Event>, t: nat, n: nat)
    requires IsRun(run, es) && Inv(run[0]) && n <= |es|
    requires forall i :: 0 <= i <= n ==> Waits(run[i], t)
    ensures DueCount(run, es, n) <= SwitchCount(run, es, n)
  {
    if n > 0 {
      DueBound(run, es, t, n - 1);
      RunInv(run, es, n - 1);
      assert StepAt(run, es, n - 1);
      var s, e, r := run[n - 1], es[n - 1], run[n];
      if DueStep(s, e) {
        DueIsSwitch(s, e, r, t);
      }
    }
  }

  /** A thread that never gets a CPU, though it can run and is not removed, waits all the time. */
  lemma {:induction false} WaitsThroughout(run: seq<Sched>, es: seq<Event>, t: nat, i: nat)
    requires IsRun(run, es) && Inv(run[0]) && Waits(run[0], t) && i < |run|
    requires forall k :: 0 <= k < |run| ==> Ready(run[k].threads, t)
    requires forall k :: 0 <= k < |es| ==> es[k] != Remove(t)
    requires forall k, c :: 0 <= k < |run| ==> !CurrentOn(run[k], c, t)
    ensures Waits(run[i], t)
  {
    WaitingEnrolled(run[0], t);
    RunEnrolled(run, es, t, i);
    WaitsOrRuns(run[i], t);
  }

  /**
    A thread that stays able to run in the kernel class gets a CPU in every run with more calls of the scheduler on
    CPUs whose thread is due than there were runnable threads before it.
   */
  lemma {:induction false} ChosenWhenDue(run: seq<Sched>, es: seq<Event>, t: nat)
    requires IsRun(run, es) && Inv(run[0]) && Waits(run[0], t)
    requires forall i :: 0 <= i < |run| ==> Ready(run[i].threads, t)
    requires forall k :: 0 <= k < |es| ==> es[k] != Remove(t)
    requires DueCount(run, es, |es|) > Rank(run[0], t)
    ensures exists i, c :: 0 <= i < |run| && CurrentOn(run[i], c, t)
  {
    if forall i, c :: 0 <= i < |run| ==> !CurrentOn(run[i], c, t) {
      forall i | 0 <= i <= |es|
        ensures Waits(run[i], t)
      {
        WaitsThroughout(run, es, t, i);
      }
      DueBound(run, es, t, |es|);
      WaitingBound(run, es, t, |es|);
    }
  }

  // ------------------------------------------------------------------ waiting, in time

  /** The time of the last call among the first `n` steps. */
  ghost function Clock(es: seq<Event>, n: nat, start: int): int
    requires n <= |es|
  {
    if n == 0 then start else if IsCall(es[n - 1]) then es[n - 1].now else Clock(es, n - 1, start)
  }

  ghost predicate Clocked(es: seq<Event>, start: int)
  {
    forall n :: 0 <= n < |es| && IsCall(es[n]) ==> es[n].now >= Clock(es, n, start)
  }

  /** The slice of the CPU's thread ends at most 5000 microseconds after the given time. */
  ghost predicate SliceEnds(s: Sched, cpu: nat, now: int)
  {
    && cpu < |s.current|
    && (s.current[cpu].Some? && s.current[cpu].value in s.threads ==>
          s.threads[s.current[cpu].value].preemptAt <= now + 5000)
  }

  lemma {:induction false} QuietStep(s: Sched, e: Event, r: Sched, cpu: nat, x: int)
    requires Inv(s) && Leads(s, e, r) && SliceEnds(s, cpu, x) && One(s, e) == 0
    ensures SliceEnds(r, cpu, x)
  {
    if e.Add? {
      NotPlaced(s, e.thread);
      assert s.current[cpu].Some? ==> CurrentOn(s, cpu, s.current[cpu].value);
    }
  }

  lemma {:induction false} SwitchStep(s: Sched, c: nat, now: int, cpu: nat, x: int)
    requires Inv(s) && c < |s.current| && Switching(s, c, now) && SliceEnds(s, cpu, x) && x <= now
    ensures Schedule(s, c, now).Next? && SliceEnds(Schedule(s, c, now).s, cpu, now)
  {
    var th := Unyield(s.threads, s.current[c]);
    var p := ChooseBest(s.queues, th, PRIOS);
    var t := Choose(s.queues, th, PRIOS).value;
    assert QueuedAt(s, p, t);
    if s.current[cpu].Some? {
      CurrentNotQueued(s, cpu, s.current[cpu].value);
    }
  }

  lemma {:induction false} SliceStep(s: Sched, e: Event, r: Sched, cpu: nat, x: int)
    requires Inv(s) && Leads(s, e, r) && SliceEnds(s, cpu, x) && (IsCall(e) ==> x <= e.now)
    ensures SliceEnds(r, cpu, if IsCall(e) then e.now else x)
  {
    if One(s, e) == 0 {
      QuietStep(s, e, r, cpu, x);
    } else {
      var s1 := Entry(s, e);
      SamePlaces(s, s1);
      SwitchStep(s1, e.cpu, e.now, cpu, x);
    }
  }

  lemma {:induction false} RunSlices(run: seq<Sched>, es: seq<Event>, cpu: nat, start: int, n: nat)
    requires IsRun(run, es) && Inv(run[0]) && Clocked(es, start) && SliceEnds(run[0], cpu, start) && n <= |es|
    ensures SliceEnds(run[n], cpu, Clock(es, n, start))
  {
    if n > 0 {
      RunSlices(run, es, cpu, start, n - 1);
      RunInv(run, es, n - 1);
      assert StepAt(run, es, n - 1);
      SliceStep(run[n - 1], es[n - 1], run[n], cpu, Clock(es, n - 1, start));
    }
  }

  /** Without a switch since step `a` the slice is still the same. */
  lemma {:induction false} QuietSince(run: seq<Sched>, es: seq<Event>, cpu: nat, a: nat, n: nat, x: int)
    requires IsRun(run, es) && Inv(run[0]) && a <= n <= |es| && SliceEnds(run[a], cpu, x)
    ensures SwitchCount(run, es, a) <= SwitchCount(run, es, n)
    ensures SwitchCount(run, es, a) == SwitchCount(run, es, n) ==> SliceEnds(run[n], cpu, x)
  {
    if a < n {
      QuietSince(run, es, cpu, a, n - 1, x);
      RunInv(run, es, n - 1);
      assert StepAt(run, es, n - 1);
      if One(run[n - 1], es[n - 1]) == 0 && SwitchCount(run, es, a) == SwitchCount(run, es, n - 1) {
        QuietStep(run[n - 1], es[n - 1], run[n], cpu, x);
      }
    }
  }

  /** Between two ticks of a CPU that are a slice apart there is a switch, if a thread waits. */
  lemma {:induction false} SwitchBetween(run: seq<Sched>, es: seq<Event>, t: nat, cpu: nat, start: int, a: nat, b: nat)
    requires IsRun(run, es) && Inv(run[0]) && Clocked(es, start) && SliceEnds(run[0], cpu, start)
    requires forall i :: 0 <= i < |run| ==> Waits(run[i], t)
    requires a < b < |es| && es[a].Tick? && es[b].Tick? && es[a].cpu == es[b].cpu == cpu
    requires es[b].now >= es[a].now + 5000
    ensures SwitchCount(run, es, b + 1) > SwitchCount(run, es, a + 1)
  {
    RunSlices(run, es, cpu, start, a + 1);
    QuietSince(run, es, cpu, a + 1, b, es[a].now);
    if SwitchCount(run, es, b) == SwitchCount(run, es, a + 1) {
      RunInv(run, es, b);
      assert StepAt(run, es, b);
      DueIsSwitch(run[b], es[b], run[b + 1], t);
    }
  }

  /** The steps are ticks of one CPU, each at least a slice after the one before. */
  ghost predicate Apart(es: seq<Event>, cpu: nat, ks: seq<nat>)
  {
    && (forall j :: 0 <= j < |ks| ==> ks[j] < |es| && es[ks[j]].Tick? && es[ks[j]].cpu == cpu)
    && (forall j :: 0 < j < |ks| ==> ks[j - 1] < ks[j] && es[ks[j]].now >= es[ks[j - 1]].now + 5000)
  }

  lemma {:induction false} ApartCount(run: seq<Sched>, es: seq<Event>, t: nat, cpu: nat, start: int, ks: seq<nat>,
      j: nat)
    requires IsRun(run, es) && Inv(run[0]) && Clocked(es, start) && SliceEnds(run[0], cpu, start)
    requires forall i :: 0 <= i < |run| ==> Waits(run[i], t)
    requires Apart(es, cpu, ks) && j < |ks|
    ensures SwitchCount(run, es, ks[j] + 1) >= j
  {
    if j > 0 {
      ApartCount(run, es, t, cpu, start, ks, j - 1);
      SwitchBetween(run, es, t, cpu, start, ks[j - 1], ks[j]);
    }
  }

  lemma {:induction false} SwitchesGrow(run: seq<Sched>, es: seq<Event>, a: nat, n: nat)
    requires a <= n <= |es| <= |run|
    ensures SwitchCount(run, es, a) <= SwitchCount(run, es, n)
  {
    if a < n {
      SwitchesGrow(run, es, a, n - 1);
    }
  }

  /**
    A thread that stays able to run in the kernel class gets a CPU within as many slices of a ticking CPU as there
    were runnable threads before it, and one: in every run with more ticks of one CPU than that, a slice apart.
   */
  lemma {:induction false} ChosenWithinSlices(run: seq<Sched>, es: seq<Event>, t: nat, cpu: nat, start: int,
      ks: seq<nat>)
    requires IsRun(run, es) && Inv(run[0]) && Waits(run[0], t)
    requires forall i :: 0 <= i < |run| ==> Ready(run[i].threads, t)
    requires forall k :: 0 <= k < |es| ==> es[k] != Remove(t)
    requires Clocked(es, start) && SliceEnds(run[0], cpu, start)
    requires Apart(es, cpu, ks) && |ks| > Rank(run[0], t) + 1
    ensures exists i, c :: 0 <= i < |run| && CurrentOn(run[i], c, t)
  {
    if forall i, c :: 0 <= i < |run| ==> !CurrentOn(run[i], c, t) {
      forall i | 0 <= i < |run|
        ensures Waits(run[i], t)
      {
        WaitsThroughout(run, es, t, i);
      }
      var j := |ks| - 1;
      ApartCount(run, es, t, cpu, start, ks, j);
      SwitchesGrow(run, es, ks[j] + 1, |es|);
      WaitingBound(run, es, t, |es|);
    }
  }
}
