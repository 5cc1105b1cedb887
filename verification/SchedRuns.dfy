/**
  Runs of the scheduler with any number of CPUs: what every step keeps, how long a thread waits, and when
  "no thread left" cannot happen.
 */
module SchedRuns {
  import opened Options
  import opened LinkedLists
  import opened SchedModel

  /**
    A timer tick or explicit call, a yield, the end of a thread followed by scheduling (exit or abort),
    registering and removing.
   */
  datatype Event =
    | Tick(cpu: nat, now: int)
    | Yield(cpu: nat, now: int)
    | Stop(cpu: nat, thread: nat, state: State, now: int)
    | Add(thread: nat, record: Thread)
    | Remove(thread: nat)

  function WithState(s: Sched, t: nat, st: State): Sched
    requires t in s.threads
  {
    s.(threads := s.threads[t := s.threads[t].(state := st)])
  }

  /** What callers must respect: a thread is registered once, able to run; a CPU that yields has a thread. */
  ghost predicate Possible(s: Sched, e: Event)
  {
    match e
    case Tick(cpu, _) => cpu < |s.current|
    case Yield(cpu, _) => cpu < |s.current| && s.current[cpu].Some?
    case Stop(cpu, t, st, _) => cpu < |s.current| && t in s.threads && (st == Exited || st == Aborting)
    case Add(t, r) => Places(s, t) == 0 && r.priority < PRIOS && r.state == Runnable
    case Remove(t) => t in s.threads && s.threads[t].priority < PRIOS
  }

  ghost function Step(s: Sched, e: Event): Outcome
    requires Typed(s) && Possible(s, e)
  {
    match e
    case Tick(cpu, now) => Schedule(s, cpu, now)
    case Yield(cpu, now) => Schedule(WithState(s, s.current[cpu].value, Yielded), cpu, now)
    case Stop(cpu, t, st, now) => Schedule(WithState(s, t, st), cpu, now)
    case Add(t, r) => Next(Sched(Enqueue(s.queues, r.priority, t), s.current, s.threads[t := r]))
    case Remove(t) => Next(s.(queues := Dequeue(s.queues, s.threads[t].priority, t)))
  }

  // ------------------------------------------------------------------ the invariant

  /** A step changes only its own thread's number of places: registering adds one, removing takes a queued one. */
  ghost function Change(s: Sched, e: Event, t: nat): int
  {
    match e
    case Add(x, _) => if x == t then 1 else 0
    case Remove(x) => if x == t && x in s.threads && QueuedAt(s, s.threads[x].priority, x) then -1 else 0
    case _ => 0
  }

  lemma {:induction false} NotPlaced(s: Sched, t: nat)
    requires Places(s, t) == 0
    ensures forall p :: !QueuedAt(s, p, t)
    ensures forall c :: !CurrentOn(s, c, t)
  {
    forall p | QueuedAt(s, p, t)
      ensures false
    {
      QueuedIn(s.queues, p, t);
      TimesIn(s.queues[p], t);
    }
    forall c | CurrentOn(s, c, t)
      ensures false
    {
      OnCpuIn(s.current, c, t);
    }
  }

  /** Threads keep their priorities. */
  ghost predicate SamePriorities(th: Threads, tk: Threads)
  {
    th.Keys == tk.Keys && forall t :: t in th ==> tk[t].priority == th[t].priority
  }

  lemma {:induction false} WithoutIn(q: seq<nat>, x: nat, t: nat)
    requires t in Without(q, x)
    ensures t in q
  {
    if q != [] && q[0] != x {
      assert q == [q[0]] + q[1..];
      if t in Without(q[1..], x) {
        WithoutIn(q[1..], x, t);
      }
    }
  }

  lemma {:induction false} SwitchTyped(s: Sched, cpu: nat, th: Threads, x: nat, now: int)
    requires Typed(s) && cpu < |s.current| && SamePriorities(s.threads, th) && x in th && th[x].priority < PRIOS
    ensures Typed(Switch(s, cpu, th, x, now))
  {
    var r := Switch(s, cpu, th, x, now);
    forall p, t | 0 <= p < PRIOS && t in r.queues[p]
      ensures t in r.threads && r.threads[t].priority == p
    {
      if t in Without(s.queues[p], x) {
        WithoutIn(s.queues[p], x, t);
      }
    }
  }

  lemma {:induction false} ScheduleKeeps(s: Sched, cpu: nat, now: int)
    requires Typed(s) && cpu < |s.current| && Schedule(s, cpu, now).Next?
    ensures Typed(Schedule(s, cpu, now).s)
    ensures forall t: nat :: Places(Schedule(s, cpu, now).s, t) == Places(s, t)
  {
    var prev := s.current[cpu];
    if !Keeps(s.threads, prev, now) {
      var th := Unyield(s.threads, prev);
      var c := Choose(s.queues, th, PRIOS);
      if c.Some? {
        var p := ChooseBest(s.queues, th, PRIOS);
        assert th[c.value].priority == p;
        SwitchTyped(s, cpu, th, c.value, now);
        forall t: nat
          ensures Places(Switch(s, cpu, th, c.value, now), t) == Places(s, t)
        {
          SwitchPlaces(s, cpu, th, c.value, now, t);
        }
      }
    }
  }

  /** No step loses or duplicates a thread, and every thread stays in the queue of its priority. */
  lemma {:induction false} StepKeeps(s: Sched, e: Event)
    requires Inv(s) && Possible(s, e) && Step(s, e).Next?
    ensures Inv(Step(s, e).s)
    ensures forall t: nat :: Places(Step(s, e).s, t) == Places(s, t) + Change(s, e, t)
  {
    match e {
      case Tick(cpu, now) =>
        ScheduleKeeps(s, cpu, now);
      case Yield(cpu, now) =>
        SamePlaces(s, WithState(s, s.current[cpu].value, Yielded));
        ScheduleKeeps(WithState(s, s.current[cpu].value, Yielded), cpu, now);
      case Stop(cpu, t, st, now) =>
        SamePlaces(s, WithState(s, t, st));
        ScheduleKeeps(WithState(s, t, st), cpu, now);
      case Add(x, r) =>
        AddKeeps(s, e);
      case Remove(x) =>
        RemoveKeeps(s, e);
    }
  }

  lemma {:induction false} SamePlaces(s: Sched, r: Sched)
    requires r.queues == s.queues && r.current == s.current
    ensures forall t: nat :: Places(r, t) == Places(s, t)
  {
  }

  lemma {:induction false} AddKeeps(s: Sched, e: Event)
    requires Inv(s) && e.Add? && Possible(s, e)
    ensures Inv(Step(s, e).s)
    ensures forall t: nat :: Places(Step(s, e).s, t) == Places(s, t) + Change(s, e, t)
  {
    NotPlaced(s, e.thread);
    forall t: nat
      ensures Places(Step(s, e).s, t) == Places(s, t) + Change(s, e, t)
    {
      EnqueuedTimes(s.queues, e.record.priority, e.thread, t);
    }
    var r := Step(s, e).s;
    forall p, t | 0 <= p < PRIOS && t in r.queues[p]
      ensures t in r.threads && r.threads[t].priority == p
    {
      assert t != e.thread ==> QueuedAt(s, p, t);
      assert QueuedAt(s, p, t) ==> t != e.thread;
    }
    forall c | 0 <= c < |r.current| && r.current[c].Some?
      ensures r.current[c].value in r.threads && r.threads[r.current[c].value].priority < PRIOS
    {
      assert CurrentOn(s, c, r.current[c].value);
    }
  }

  lemma {:induction false} RemoveStep(s: Sched, t: nat, ys: seq<seq<nat>>)
    requires Typed(s) && Possible(s, Remove(t)) && ys == Dequeue(s.queues, s.threads[t].priority, t)
    ensures Step(s, Remove(t)) == Next(Sched(ys, s.current, s.threads))
  {
  }

  lemma {:induction false} RemoveKeeps(s: Sched, e: Event)
    requires Inv(s) && e.Remove? && Possible(s, e)
    ensures Inv(Step(s, e).s)
    ensures forall t: nat :: Places(Step(s, e).s, t) == Places(s, t) + Change(s, e, t)
  {
    var x := e.thread;
    var p := s.threads[x].priority;
    forall t: nat
      ensures Places(Step(s, e).s, t) == Places(s, t) + Change(s, e, t)
    {
      DequeuedTimes(s.queues, p, x, t);
    }
    var r := Step(s, e).s;
    forall k, t | 0 <= k < PRIOS && t in r.queues[k]
      ensures t in r.threads && r.threads[t].priority == k
    {
      if k == p {
        WithoutIn(s.queues[p], x, t);
      }
      assert t in s.queues[k];
    }
  }

  /** Removing a thread takes it out of the scheduler exactly when it is queued: a current thread stays. */
  lemma {:induction false} RemovedIff(s: Sched, t: nat)
    requires Inv(s) && Possible(s, Remove(t))
    ensures Places(Step(s, Remove(t)).s, t) == 0 <==> !exists c :: CurrentOn(s, c, t)
  {
    StepKeeps(s, Remove(t));
    if Places(s, t) > 0 {
      OnePlace(s, t);
    } else {
      NotPlaced(s, t);
    }
  }

  // ------------------------------------------------------------------ runs

  ghost predicate Leads(s: Sched, e: Event, r: Sched)
  {
    Typed(s) && Possible(s, e) && Step(s, e) == Next(r)
  }

  ghost predicate StepAt(run: seq<Sched>, es: seq<Event>, i: int)
  {
    0 <= i < |es| < |run| && Leads(run[i], es[i], run[i + 1])
  }

  ghost predicate IsRun(run: seq<Sched>, es: seq<Event>)
  {
    |run| == |es| + 1 && forall i :: 0 <= i < |es| ==> StepAt(run, es, i)
  }

  /** In every state of every run each registered thread is in exactly one place. */
  lemma {:induction false} RunInv(run: seq<Sched>, es: seq<Event>, i: nat)
    requires IsRun(run, es) && Inv(run[0]) && i < |run|
    ensures Inv(run[i])
  {
    if i > 0 {
      RunInv(run, es, i - 1);
      assert StepAt(run, es, i - 1);
      StepKeeps(run[i - 1], es[i - 1]);
    }
  }

  /** A thread that nobody registers or removes stays registered throughout, or unregistered. */
  lemma {:induction false} RunPlaces(run: seq<Sched>, es: seq<Event>, i: nat, t: nat)
    requires IsRun(run, es) && Inv(run[0]) && i < |run|
    requires forall k :: 0 <= k < |es| ==> !(es[k].Add? && es[k].thread == t) && !(es[k].Remove? && es[k].thread == t)
    ensures Places(run[i], t) == Places(run[0], t)
  {
    if i > 0 {
      RunPlaces(run, es, i - 1, t);
      RunInv(run, es, i - 1);
      assert StepAt(run, es, i - 1);
      StepKeeps(run[i - 1], es[i - 1]);
    }
  }

  // ------------------------------------------------------------------ no thread left

  /** Threads that can always run, at least as many as there are CPUs. */
  ghost predicate Covered(s: Sched, idle: set<nat>)
  {
    |idle| >= |s.current| && forall t :: t in idle ==> Places(s, t) == 1 && Ready(s.threads, t)
  }

  /** Threads that are all on CPUs are no more than the CPUs. */
  lemma {:induction false} Crowd(cs: seq<Option<nat>>, idle: set<nat>)
    requires forall t :: t in idle ==> OnCpu(cs, t) > 0
    ensures |idle| <= |cs|
  {
    if cs == [] {
      assert idle == {};
    } else {
      var rest := if cs[0].Some? then idle - {cs[0].value} else idle;
      Crowd(cs[1..], rest);
      assert idle == rest || (cs[0].Some? && idle == rest + {cs[0].value});
    }
  }

  lemma {:induction false} OnOtherCpu(cs: seq<Option<nat>>, c: nat, t: nat)
    requires c < |cs|
    ensures OnCpu(Cut(cs, c), t) == OnCpu(cs, t) - Here(cs[c], t)
  {
    if c == 0 {
      assert Cut(cs, c) == cs[1..];
    } else {
      assert Cut(cs, c)[0] == cs[0] && Cut(cs, c)[1..] == Cut(cs[1..], c - 1);
      OnOtherCpu(cs[1..], c - 1, t);
    }
  }

  /** Threads that are all on CPUs, as many as there are CPUs, leave no CPU to another thread. */
  lemma {:induction false} Crowded(cs: seq<Option<nat>>, idle: set<nat>, c: nat)
    requires c < |cs| <= |idle| && forall t :: t in idle ==> OnCpu(cs, t) > 0
    ensures cs[c].Some? && cs[c].value in idle
  {
    if !(cs[c].Some? && cs[c].value in idle) {
      forall t | t in idle
        ensures OnCpu(Cut(cs, c), t) > 0
      {
        OnOtherCpu(cs, c, t);
      }
      Crowd(Cut(cs, c), idle);
    }
  }

  lemma {:induction false} ScheduleGoesOn(s: Sched, cpu: nat, now: int, idle: set<nat>)
    requires Typed(s) && cpu < |s.current| && |idle| >= |s.current|
    requires forall t :: t in idle ==> Places(s, t) == 1 && Ready(Unyield(s.threads, s.current[cpu]), t)
    ensures Schedule(s, cpu, now).Next?
    ensures forall t :: t in idle ==> Ready(Schedule(s, cpu, now).s.threads, t) || Keeps(s.threads, s.current[cpu], now)
  {
    var th := Unyield(s.threads, s.current[cpu]);
    if Choose(s.queues, th, PRIOS).None? {
      forall t | t in idle
        ensures OnCpu(s.current, t) > 0
      {
        if Queued(s.queues, t) > 0 {
          var p := InSomeQueue(s.queues, t);
          ChooseNone(s.queues, th, PRIOS, p, t);
        }
      }
      Crowded(s.current, idle, cpu);
    }
  }

  /** The step leaves the threads of the set able to run and registered. */
  ghost predicate Spares(e: Event, idle: set<nat>)
  {
    match e
    case Stop(_, t, _, _) => t !in idle
    case Remove(t) => t !in idle
    case _ => true
  }

  lemma {:induction false} YieldGoesOn(s: Sched, cpu: nat, now: int, idle: set<nat>)
    requires Typed(s) && Covered(s, idle) && cpu < |s.current| && s.current[cpu].Some?
    ensures var r := Schedule(WithState(s, s.current[cpu].value, Yielded), cpu, now);
            r.Next? && forall t :: t in idle ==> Ready(r.s.threads, t)
  {
    SamePlaces(s, WithState(s, s.current[cpu].value, Yielded));
    ScheduleGoesOn(WithState(s, s.current[cpu].value, Yielded), cpu, now, idle);
  }

  lemma {:induction false} StopGoesOn(s: Sched, e: Event, idle: set<nat>)
    requires Typed(s) && Covered(s, idle) && e.Stop? && Possible(s, e) && Spares(e, idle)
    ensures Step(s, e).Next? && forall t :: t in idle ==> Ready(Step(s, e).s.threads, t)
  {
    SamePlaces(s, WithState(s, e.thread, e.state));
    ScheduleGoesOn(WithState(s, e.thread, e.state), e.cpu, e.now, idle);
  }

  /** With enough threads that can always run, a step succeeds, and they still can. */
  lemma {:induction false} StepGoesOn(s: Sched, e: Event, idle: set<nat>)
    requires Inv(s) && Covered(s, idle) && Possible(s, e) && Spares(e, idle)
    ensures Step(s, e).Next? && Covered(Step(s, e).s, idle)
  {
    if e.Tick? {
      ScheduleGoesOn(s, e.cpu, e.now, idle);
    } else if e.Yield? {
      YieldGoesOn(s, e.cpu, e.now, idle);
    } else if e.Stop? {
      StopGoesOn(s, e, idle);
    }
    StepKeeps(s, e);
  }

  /**
    In every run that spares them, as many always runnable threads as there are CPUs make "no thread left"
    impossible at every next step, whatever becomes of the other threads.
   */
  lemma {:induction false} RunGoesOn(run: seq<Sched>, es: seq<Event>, idle: set<nat>, i: nat, e: Event)
    requires IsRun(run, es) && Inv(run[0]) && Covered(run[0], idle) && i < |run|
    requires forall k :: 0 <= k < |es| ==> Spares(es[k], idle)
    requires Possible(run[i], e) && Spares(e, idle)
    ensures Inv(run[i]) && Covered(run[i], idle) && Step(run[i], e).Next?
  {
    RunCovered(run, es, idle, i);
    StepGoesOn(run[i], e, idle);
  }

  lemma {:induction false} RunCovered(run: seq<Sched>, es: seq<Event>, idle: set<nat>, i: nat)
    requires IsRun(run, es) && Inv(run[0]) && Covered(run[0], idle) && i < |run|
    requires forall k :: 0 <= k < |es| ==> Spares(es[k], idle)
    ensures Inv(run[i]) && Covered(run[i], idle)
  {
    if i > 0 {
      RunCovered(run, es, idle, i - 1);
      assert StepAt(run, es, i - 1);
      StepGoesOn(run[i - 1], es[i - 1], idle);
      StepKeeps(run[i - 1], es[i - 1]);
    }
  }

  /** One CPU and one idle thread. */
  lemma {:induction false} IdleSuffices(run: seq<Sched>, es: seq<Event>, idle: nat, i: nat, e: Event)
    requires IsRun(run, es) && Inv(run[0]) && |run[0].current| == 1 && i < |run|
    requires Places(run[0], idle) == 1 && Ready(run[0].threads, idle)
    requires forall k :: 0 <= k < |es| ==> Spares(es[k], {idle})
    requires Possible(run[i], e) && Spares(e, {idle})
    ensures Inv(run[i]) && Step(run[i], e).Next?
  {
    RunGoesOn(run, es, {idle}, i, e);
  }

  lemma {:induction false} NoneToChoose(qs: seq<seq<nat>>, th: Threads, n: nat)
    requires n <= |qs| && forall p :: 0 <= p < |qs| ==> qs[p] == []
    ensures Choose(qs, th, n).None?
  {
    if n > 0 {
      NoneToChoose(qs, th, n - 1);
    }
  }

  lemma {:induction false} NoneQueued(qs: seq<seq<nat>>, t: nat)
    requires forall p :: 0 <= p < |qs| ==> qs[p] == []
    ensures Queued(qs, t) == 0
  {
    if qs != [] {
      NoneQueued(qs[1..], t);
    }
  }
}
