/**
  Bounded waiting: a thread of the kernel class that stays able to run is chosen after no more switches than
  there are runnable threads before it in its queue, and one.
 */
module SchedWaiting {
  import opened Options
  import opened LinkedLists
  import opened SchedModel
  import opened SchedRuns

  /** Number of threads that can run before the first occurrence of `t`. */
  ghost function Ahead(q: seq<nat>, th: Threads, t: nat): nat
  {
    if q == [] || q[0] == t then 0 else (if Ready(th, q[0]) then 1 else 0) + Ahead(q[1..], th, t)
  }

  lemma {:induction false} AheadMore(q: seq<nat>, th: Threads, t: nat, x: nat)
    requires t in q
    ensures Ahead(q + [x], th, t) == Ahead(q, th, t)
  {
    assert q == [q[0]] + q[1..];
    assert (q + [x])[1..] == q[1..] + [x];
    if q[0] != t {
      AheadMore(q[1..], th, t, x);
    }
  }

  lemma {:induction false} AheadWithout(q: seq<nat>, th: Threads, t: nat, x: nat)
    requires t in q && x != t
    ensures t in Without(q, x)
    ensures Ahead(Without(q, x), th, t) <= Ahead(q, th, t)
    ensures Ready(th, t) && First(q, th) == Some(x) ==> Ahead(Without(q, x), th, t) + 1 == Ahead(q, th, t)
  {
    assert q == [q[0]] + q[1..];
    if q[0] != t && q[0] != x {
      AheadWithout(q[1..], th, t, x);
      assert Without(q, x)[1..] == Without(q[1..], x);
    }
  }

  lemma {:induction false} AheadLess(q: seq<nat>, th: Threads, tk: Threads, t: nat)
    requires forall u :: u in q && Ready(tk, u) ==> Ready(th, u)
    ensures Ahead(q, tk, t) <= Ahead(q, th, t)
  {
    if q != [] && q[0] != t {
      assert q == [q[0]] + q[1..];
      AheadLess(q[1..], th, tk, t);
    }
  }

  /** The thread waits in the kernel queue and can run. */
  ghost predicate Waits(s: Sched, t: nat)
  {
    |s.queues| == PRIOS && t in s.queues[KERNEL] && Ready(s.threads, t)
  }

  ghost function Rank(s: Sched, t: nat): nat
    requires |s.queues| == PRIOS
  {
    Ahead(s.queues[KERNEL], s.threads, t)
  }

  /** Scheduling on the CPU gives it another thread. */
  ghost predicate Switching(s: Sched, cpu: nat, now: int)
    requires |s.queues| == PRIOS && cpu < |s.current|
  {
    !Keeps(s.threads, s.current[cpu], now) && Choose(s.queues, Unyield(s.threads, s.current[cpu]), PRIOS).Some?
  }

  /** The state in which a step calls the scheduler. */
  ghost function Entry(s: Sched, e: Event): Sched
    requires Typed(s) && Possible(s, e)
  {
    match e
    case Yield(cpu, _) => WithState(s, s.current[cpu].value, Yielded)
    case Stop(_, t, st, _) => WithState(s, t, st)
    case _ => s
  }

  ghost predicate Switches(s: Sched, e: Event)
    requires Typed(s) && Possible(s, e)
  {
    (e.Tick? || e.Yield? || e.Stop?) && Switching(Entry(s, e), e.cpu, e.now)
  }

  lemma {:induction false} CurrentNotQueued(s: Sched, cpu: nat, t: nat)
    requires Once(s) && cpu < |s.current| && s.current[cpu] == Some(t)
    ensures forall p :: !QueuedAt(s, p, t)
  {
    OnCpuIn(s.current, cpu, t);
    assert Places(s, t) <= 1;
    forall p | 0 <= p < |s.queues|
      ensures !QueuedAt(s, p, t)
    {
      QueuedIn(s.queues, p, t);
      TimesIn(s.queues[p], t);
    }
  }

  /** The kernel class comes first: a switch takes the first runnable thread of its queue. */
  lemma {:induction false} KernelFirst(qs: seq<seq<nat>>, th: Threads, t: nat)
    requires |qs| == PRIOS && t in qs[KERNEL] && Ready(th, t)
    ensures Choose(qs, th, PRIOS).Some? && Choose(qs, th, PRIOS) == First(qs[KERNEL], th)
  {
    FirstIs(qs[KERNEL], th);
    ChooseStep(qs, th, PRIOS);
  }

  /** Scheduling moves a waiting thread forward by one with every switch, and never back. */
  lemma {:induction false} ScheduleRank(s: Sched, cpu: nat, now: int, t: nat)
    requires Inv(s) && cpu < |s.current| && Waits(s, t)
    requires Schedule(s, cpu, now).Next? && Waits(Schedule(s, cpu, now).s, t)
    ensures Rank(Schedule(s, cpu, now).s, t) + (if Switching(s, cpu, now) then 1 else 0) <= Rank(s, t)
  {
    var prev := s.current[cpu];
    var th := Unyield(s.threads, prev);
    var q := s.queues[KERNEL];
    if prev.Some? {
      CurrentNotQueued(s, cpu, prev.value);
    }
    assert forall u :: u in q ==> QueuedAt(s, KERNEL, u);
    AheadLess(q, s.threads, th, t);
    if Switching(s, cpu, now) {
      SwitchRank(s, cpu, th, now, t);
    }
  }

  lemma {:induction false} SwitchRank(s: Sched, cpu: nat, th: Threads, now: int, t: nat)
    requires Inv(s) && cpu < |s.current| && th == Unyield(s.threads, s.current[cpu])
    requires t in s.queues[KERNEL] && Ready(th, t)
    requires Choose(s.queues, th, PRIOS).Some?
    requires t in Switch(s, cpu, th, Choose(s.queues, th, PRIOS).value, now).queues[KERNEL]
    ensures var r := Switch(s, cpu, th, Choose(s.queues, th, PRIOS).value, now);
            Rank(r, t) + 1 <= Ahead(s.queues[KERNEL], th, t)
  {
    KernelFirst(s.queues, th, t);
    var x, q, prev := Choose(s.queues, th, PRIOS).value, s.queues[KERNEL], s.current[cpu];
    var r := Switch(s, cpu, th, x, now);
    if prev.Some? {
      CurrentNotQueued(s, cpu, prev.value);
      assert !QueuedAt(s, KERNEL, prev.value);
    }
    assert t !in Without(q, t) by {
      assert Places(s, t) <= 1;
      QueuedIn(s.queues, KERNEL, t);
      TimesWithout(q, t, t);
      TimesIn(Without(q, t), t);
    }
    AheadWithout(q, th, t, x);
    if prev.Some? {
      AheadMore(Without(q, x), th, t, prev.value);
    }
    AheadLess(r.queues[KERNEL], th, r.threads, t);
  }

  /** A step that leaves the thread waiting moves it forward by one if it switches, and never back. */
  lemma {:induction false} StepRank(s: Sched, e: Event, t: nat)
    requires Inv(s) && Possible(s, e) && Step(s, e).Next? && Waits(s, t) && Waits(Step(s, e).s, t)
    ensures Rank(Step(s, e).s, t) + (if Switches(s, e) then 1 else 0) <= Rank(s, t)
  {
    var q, r := s.queues[KERNEL], Step(s, e).s;
    match e {
      case Add(x, record) =>
        NotPlaced(s, x);
        assert forall u :: u in q ==> QueuedAt(s, KERNEL, u);
        AheadLess(q, s.threads, r.threads, t);
        if record.priority == KERNEL {
          AheadMore(q, r.threads, t, x);
        }
      case Remove(x) =>
        if s.threads[x].priority == KERNEL {
          RemovedRank(s, x, t);
        }
      case _ =>
        var s1 := Entry(s, e);
        EntryRank(s, e, t);
        ScheduleRank(s1, e.cpu, e.now, t);
    }
  }

  lemma {:induction false} RemovedRank(s: Sched, x: nat, t: nat)
    requires Inv(s) && Waits(s, t) && t in Without(s.queues[KERNEL], x)
    ensures Ahead(Without(s.queues[KERNEL], x), s.threads, t) <= Rank(s, t)
  {
    var q := s.queues[KERNEL];
    assert t !in Without(q, t) by {
      assert Places(s, t) <= 1;
      QueuedIn(s.queues, KERNEL, t);
      TimesWithout(q, t, t);
      TimesIn(Without(q, t), t);
    }
    AheadWithout(q, s.threads, t, x);
  }

  /** The state written before scheduling leaves the waiting thread waiting, no further back. */
  lemma {:induction false} EntryRank(s: Sched, e: Event, t: nat)
    requires Inv(s) && Possible(s, e) && !e.Add? && !e.Remove? && Waits(s, t)
    requires Step(s, e).Next? && Ready(Step(s, e).s.threads, t)
    ensures var s1 := Entry(s, e);
            Inv(s1) && Waits(s1, t) && Rank(s1, t) <= Rank(s, t) && Step(s, e) == Schedule(s1, e.cpu, e.now)
  {
    var s1 := Entry(s, e);
    SamePlaces(s, s1);
    if e.Yield? {
      CurrentNotQueued(s, e.cpu, s.current[e.cpu].value);
      assert QueuedAt(s, KERNEL, t);
    }
    AheadLess(s.queues[KERNEL], s.threads, s1.threads, t);
  }

  ghost function One(s: Sched, e: Event): nat
  {
    if Typed(s) && Possible(s, e) && Switches(s, e) then 1 else 0
  }

  /** Number of switches in the first `n` steps of a run. */
  ghost function SwitchCount(run: seq<Sched>, es: seq<Event>, n: nat): nat
    requires n <= |es| <= |run|
  {
    if n == 0 then 0 else SwitchCount(run, es, n - 1) + One(run[n - 1], es[n - 1])
  }

  lemma {:induction false} LeadsRank(s: Sched, e: Event, r: Sched, t: nat)
    requires Inv(s) && Leads(s, e, r) && Waits(s, t) && Waits(r, t)
    ensures Rank(r, t) + One(s, e) <= Rank(s, t)
  {
    StepRank(s, e, t);
  }

  /** While a thread waits, the switches number at most the runnable threads that were before it. */
  lemma {:induction false} WaitingBound(run: seq<Sched>, es: seq<Event>, t: nat, n: nat)
    requires IsRun(run, es) && Inv(run[0]) && n <= |es|
    requires forall i :: 0 <= i <= n ==> Waits(run[i], t)
    ensures Waits(run[n], t) && Rank(run[n], t) + SwitchCount(run, es, n) <= Rank(run[0], t)
  {
    if n > 0 {
      var s, e, r := run[n - 1], es[n - 1], run[n];
      assert Rank(r, t) + One(s, e) <= Rank(s, t) by {
        RunInv(run, es, n - 1);
        assert StepAt(run, es, n - 1);
        LeadsRank(s, e, r, t);
      }
      WaitingBound(run, es, t, n - 1);
    }
  }

  lemma {:induction false} SchedulePriority(s: Sched, cpu: nat, now: int, t: nat)
    requires Typed(s) && cpu < |s.current| && Schedule(s, cpu, now).Next? && t in s.threads
    ensures var th := Schedule(s, cpu, now).s.threads;
            t in th && th[t].priority == s.threads[t].priority
  {
  }

  /** A thread keeps its priority in every step that does not register it anew. */
  lemma {:induction false} StepPriority(s: Sched, e: Event, t: nat)
    requires Typed(s) && Possible(s, e) && Step(s, e).Next? && t in s.threads && !(e.Add? && e.thread == t)
    ensures t in Step(s, e).s.threads && Step(s, e).s.threads[t].priority == s.threads[t].priority
  {
    if e.Tick? || e.Yield? || e.Stop? {
      SchedulePriority(Entry(s, e), e.cpu, e.now, t);
    }
  }

  /** A thread that is registered, in the kernel class, able to run and on no CPU waits. */
  lemma {:induction false} WaitsOrRuns(s: Sched, t: nat)
    requires Inv(s) && Places(s, t) == 1 && Ready(s.threads, t) && s.threads[t].priority == KERNEL
    requires forall c :: !CurrentOn(s, c, t)
    ensures Waits(s, t)
  {
    OnePlace(s, t);
    var p :| QueuedAt(s, p, t);
  }

  /** Registered in the kernel class. */
  ghost predicate Enrolled(s: Sched, t: nat)
  {
    Places(s, t) == 1 && t in s.threads && s.threads[t].priority == KERNEL
  }

  lemma {:induction false} RunEnrolled(run: seq<Sched>, es: seq<Event>, t: nat, i: nat)
    requires IsRun(run, es) && Inv(run[0]) && Enrolled(run[0], t) && i < |run|
    requires forall k :: 0 <= k < |es| ==> es[k] != Remove(t)
    ensures Inv(run[i]) && Enrolled(run[i], t)
  {
    if i > 0 {
      RunEnrolled(run, es, t, i - 1);
      assert StepAt(run, es, i - 1);
      StepKeeps(run[i - 1], es[i - 1]);
      StepPriority(run[i - 1], es[i - 1], t);
    }
  }

  /**
    A thread that stays able to run in the kernel class and is not removed gets a CPU in every run with more
    switches than there were runnable threads before it, whatever else happens.
   */
  lemma {:induction false} ChosenInTime(run: seq<Sched>, es: seq<Event>, t: nat)
    requires IsRun(run, es) && Inv(run[0]) && Waits(run[0], t)
    requires forall i :: 0 <= i < |run| ==> Ready(run[i].threads, t)
    requires forall k :: 0 <= k < |es| ==> es[k] != Remove(t)
    requires SwitchCount(run, es, |es|) > Rank(run[0], t)
    ensures exists i, c :: 0 <= i < |run| && CurrentOn(run[i], c, t)
  {
    if forall i, c :: 0 <= i < |run| ==> !CurrentOn(run[i], c, t) {
      WaitingEnrolled(run[0], t);
      forall i | 0 <= i <= |es|
        ensures Waits(run[i], t)
      {
        RunEnrolled(run, es, t, i);
        WaitsOrRuns(run[i], t);
      }
      WaitingBound(run, es, t, |es|);
    }
  }

  lemma {:induction false} WaitingEnrolled(s: Sched, t: nat)
    requires Inv(s) && Waits(s, t)
    ensures Enrolled(s, t)
  {
    assert Places(s, t) <= 1;
    QueuedIn(s.queues, KERNEL, t);
    TimesIn(s.queues[KERNEL], t);
  }

  // ------------------------------------------------------------------ time slices

  /** Scheduling on the CPU happens only before the given time, and nobody yields there. */
  ghost predicate Before(e: Event, cpu: nat, end: int)
  {
    match e
    case Tick(c, now) => c == cpu ==> now < end
    case Stop(c, _, _, now) => c == cpu ==> now < end
    case Yield(c, _) => c != cpu
    case _ => true
  }

  /** The thread is current on the CPU, can run, and its slice ends at the given time. */
  ghost predicate Holding(s: Sched, cpu: nat, t: nat, end: int)
  {
    CurrentOn(s, cpu, t) && Ready(s.threads, t) && s.threads[t].preemptAt == end
  }

  lemma {:induction false} ScheduleHolds(s: Sched, c: nat, now: int, cpu: nat, t: nat, end: int)
    requires Inv(s) && Holding(s, cpu, t, end) && c < |s.current| && (c == cpu ==> now < end)
    requires Schedule(s, c, now).Next?
    ensures CurrentOn(Schedule(s, c, now).s, cpu, t) && t in Schedule(s, c, now).s.threads
    ensures Schedule(s, c, now).s.threads[t].preemptAt == end
  {
    var th := Unyield(s.threads, s.current[c]);
    if !Keeps(s.threads, s.current[c], now) && Choose(s.queues, th, PRIOS).Some? {
      var p := ChooseBest(s.queues, th, PRIOS);
      CurrentNotQueued(s, cpu, t);
      assert !QueuedAt(s, p, t);
    }
  }

  /** While it can run and does not yield, a thread keeps its CPU and its slice in every step before the slice ends. */
  lemma {:induction false} StepHolds(s: Sched, e: Event, cpu: nat, t: nat, end: int)
    requires Inv(s) && Possible(s, e) && Step(s, e).Next? && Holding(s, cpu, t, end) && Before(e, cpu, end)
    requires Ready(Step(s, e).s.threads, t)
    ensures Holding(Step(s, e).s, cpu, t, end)
  {
    if e.Tick? || e.Yield? || e.Stop? {
      var s1 := Entry(s, e);
      SamePlaces(s, s1);
      EntryReady(s, e, cpu, t);
      ScheduleHolds(s1, e.cpu, e.now, cpu, t, end);
    } else if e.Add? {
      NotPlaced(s, e.thread);
    }
  }

  lemma {:induction false} EntryReady(s: Sched, e: Event, cpu: nat, t: nat)
    requires Inv(s) && Possible(s, e) && Step(s, e).Next? && CurrentOn(s, cpu, t) && Ready(s.threads, t)
    requires Ready(Step(s, e).s.threads, t) && (e.Yield? ==> e.cpu != cpu) && !e.Add? && !e.Remove?
    ensures Inv(Entry(s, e)) && Ready(Entry(s, e).threads, t)
    ensures Entry(s, e).threads[t].preemptAt == s.threads[t].preemptAt
    ensures Step(s, e) == Schedule(Entry(s, e), e.cpu, e.now)
  {
    SamePlaces(s, Entry(s, e));
    if e.Yield? && s.current[e.cpu] == Some(t) {
      assert CurrentOn(s, e.cpu, t) && CurrentOn(s, cpu, t);
      OnCpuIn(s.current, cpu, t);
      OnePlace(s, t);
    }
  }

  /** In every run a thread that was switched to keeps its CPU until its slice ends, unless it yields or stops. */
  lemma {:induction false} RunHolds(run: seq<Sched>, es: seq<Event>, i: nat, cpu: nat, t: nat, end: int)
    requires IsRun(run, es) && Inv(run[0]) && Holding(run[0], cpu, t, end) && i < |run|
    requires forall k :: 0 <= k < |es| ==> Before(es[k], cpu, end)
    requires forall k :: 0 <= k < |run| ==> Ready(run[k].threads, t)
    ensures Holding(run[i], cpu, t, end)
  {
    if i > 0 {
      RunHolds(run, es, i - 1, cpu, t, end);
      RunInv(run, es, i - 1);
      assert StepAt(run, es, i - 1);
      StepHolds(run[i - 1], es[i - 1], cpu, t, end);
    }
  }
}
