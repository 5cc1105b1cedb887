/**
  The scheduler (src/sched.c, src/thread.c) as a state machine: a queue for each priority, a current
  thread for each CPU, and the threads' states. Every operation runs under one lock and is one step.
 */
module SchedModel {
  import opened Options
  import opened LinkedLists

  const PRIOS := 7
  const KERNEL := 6
  const TIMESLICE := 5000

  datatype State = Initial | Runnable | Running | Yielded | Waiting | Aborting | Aborted | Exited

  datatype Thread = Thread(state: State, priority: nat, preemptAt: int)

  type Threads = map<nat, Thread>

  datatype Sched = Sched(queues: seq<seq<nat>>, current: seq<Option<nat>>, threads: Threads)

  predicate Ready(th: Threads, t: nat)
  {
    t in th && th[t].state == Runnable
  }

  // ------------------------------------------------------------------ choosing

  /** The first thread of a queue that can run. */
  function First(q: seq<nat>, th: Threads): (r: Option<nat>)
    ensures r.Some? ==> Ready(th, r.value)
  {
    if q == [] then None else if Ready(th, q[0]) then Some(q[0]) else First(q[1..], th)
  }

  lemma {:induction false} FirstIs(q: seq<nat>, th: Threads)
    ensures First(q, th).None? <==> forall t :: t in q ==> !Ready(th, t)
    ensures First(q, th).Some? ==> First(q, th).value in q
  {
    if q != [] {
      FirstIs(q[1..], th);
      assert q == [q[0]] + q[1..];
    }
  }

  /** The thread is the first that can run in queue `p`, and no queue above has one. */
  ghost predicate Best(qs: seq<seq<nat>>, th: Threads, n: nat, p: int, t: nat)
  {
    && 0 <= p < n <= |qs| && t in qs[p] && Ready(th, t) && First(qs[p], th) == Some(t)
    && forall k, u :: p < k < n && u in qs[k] ==> !Ready(th, u)
  }

  /** The choice among the queues below `n`, from the highest priority down. */
  function Choose(qs: seq<seq<nat>>, th: Threads, n: nat): (r: Option<nat>)
    requires n <= |qs|
    ensures r.Some? ==> Ready(th, r.value)
  {
    if n == 0 then None
    else if First(qs[n - 1], th).Some? then First(qs[n - 1], th)
    else Choose(qs, th, n - 1)
  }

  lemma {:induction false} ChooseStep(qs: seq<seq<nat>>, th: Threads, n: nat)
    requires n <= |qs|
    ensures Choose(qs, th, n)
         == if n == 0 then None
            else if First(qs[n - 1], th).Some? then First(qs[n - 1], th) else Choose(qs, th, n - 1)
  {
  }

  /** The choice is the first runnable thread of the highest priority that has one. */
  lemma {:induction false} ChooseBest(qs: seq<seq<nat>>, th: Threads, n: nat) returns (p: nat)
    requires n <= |qs| && Choose(qs, th, n).Some?
    ensures Best(qs, th, n, p, Choose(qs, th, n).value)
  {
    FirstIs(qs[n - 1], th);
    if First(qs[n - 1], th).Some? {
      p := n - 1;
    } else {
      p := ChooseBest(qs, th, n - 1);
    }
  }

  /** There is no choice only when no queued thread can run. */
  lemma {:induction false} ChooseNone(qs: seq<seq<nat>>, th: Threads, n: nat, p: nat, t: nat)
    requires p < n <= |qs| && Choose(qs, th, n).None? && t in qs[p]
    ensures !Ready(th, t)
  {
    FirstIs(qs[n - 1], th);
    if p < n - 1 {
      ChooseNone(qs, th, n - 1, p, t);
    }
  }

  // ------------------------------------------------------------------ steps

  /** What becomes of a step: a new state, no thread left to run, or a CPU without a thread and nothing to run. */
  datatype Outcome = Next(s: Sched) | NoThread | NoCurrent

  function Enqueue(qs: seq<seq<nat>>, p: nat, t: nat): (r: seq<seq<nat>>)
    requires p < |qs|
    ensures |r| == |qs|
  {
    qs[p := qs[p] + [t]]
  }

  function Dequeue(qs: seq<seq<nat>>, p: nat, t: nat): (r: seq<seq<nat>>)
    requires p < |qs|
    ensures |r| == |qs|
  {
    qs[p := Without(qs[p], t)]
  }

  /** All threads in a place are known and queued by their own priority. */
  ghost predicate Typed(s: Sched)
  {
    && |s.queues| == PRIOS
    && (forall p, t :: 0 <= p < PRIOS && t in s.queues[p] ==> t in s.threads && s.threads[t].priority == p)
    && (forall c :: 0 <= c < |s.current| && s.current[c].Some? ==> s.current[c].value in s.threads)
    && (forall t :: t in s.threads ==> s.threads[t].priority < PRIOS)
  }

  /** The thread keeps its CPU: it can run and has time left. */
  predicate Keeps(th: Threads, prev: Option<nat>, now: int)
  {
    prev.Some? && Ready(th, prev.value) && th[prev.value].preemptAt > now
  }

  /** A thread that yielded can run again. */
  function Unyield(th: Threads, prev: Option<nat>): Threads
  {
    if prev.Some? && prev.value in th && th[prev.value].state == Yielded then
      th[prev.value := th[prev.value].(state := Runnable)]
    else th
  }

  /** The chosen thread leaves its queue and becomes current; the old one goes to the end of its own queue. */
  function Switch(s: Sched, cpu: nat, th: Threads, t: nat, now: int): Sched
    requires cpu < |s.current| && t in th && th[t].priority < |s.queues|
    requires s.current[cpu].Some? ==> s.current[cpu].value in th && th[s.current[cpu].value].priority < |s.queues|
  {
    var prev := s.current[cpu];
    var qs := Dequeue(s.queues, th[t].priority, t);
    Sched(if prev.Some? then Enqueue(qs, th[prev.value].priority, prev.value) else qs,
          s.current[cpu := Some(t)],
          th[t := th[t].(preemptAt := now + TIMESLICE)])
  }

  function Schedule(s: Sched, cpu: nat, now: int): Outcome
    requires Typed(s) && cpu < |s.current|
  {
    var prev := s.current[cpu];
    if Keeps(s.threads, prev, now) then Next(s)
    else
      var th := Unyield(s.threads, prev);
      match Choose(s.queues, th, PRIOS)
      case Some(t) => Next(Switch(s, cpu, th, t, now))
      case None =>
        if prev.None? then NoCurrent
        else if Ready(th, prev.value) then Next(s.(threads := th))
        else NoThread
  }

  // ------------------------------------------------------------------ places

  /** How often a thread is in a queue, in all queues, and on the CPUs. */
  ghost function Times(q: seq<nat>, t: nat): nat
  {
    if q == [] then 0 else (if q[0] == t then 1 else 0) + Times(q[1..], t)
  }

  ghost function Queued(qs: seq<seq<nat>>, t: nat): nat
  {
    if qs == [] then 0 else Times(qs[0], t) + Queued(qs[1..], t)
  }

  ghost function Here(c: Option<nat>, t: nat): nat
  {
    if c == Some(t) then 1 else 0
  }

  ghost function OnCpu(cs: seq<Option<nat>>, t: nat): nat
  {
    if cs == [] then 0 else Here(cs[0], t) + OnCpu(cs[1..], t)
  }

  /** The number of places a thread has. A thread is registered when it has one. */
  ghost function Places(s: Sched, t: nat): nat
  {
    Queued(s.queues, t) + OnCpu(s.current, t)
  }

  ghost predicate Once(s: Sched)
  {
    forall t: nat :: Places(s, t) <= 1
  }

  /** Every registered thread is in exactly one place, and queued by its own priority. */
  ghost predicate Inv(s: Sched)
  {
    Typed(s) && Once(s)
  }

  lemma {:induction false} QueuedUpdate(qs: seq<seq<nat>>, p: nat, q: seq<nat>, t: nat)
    requires p < |qs|
    ensures Queued(qs[p := q], t) == Queued(qs, t) - Times(qs[p], t) + Times(q, t)
  {
    if p == 0 {
      assert qs[p := q][1..] == qs[1..];
    } else {
      assert qs[p := q][1..] == qs[1..][p - 1 := q];
      QueuedUpdate(qs[1..], p - 1, q, t);
    }
  }

  lemma {:induction false} OnCpuUpdate(cs: seq<Option<nat>>, i: nat, c: Option<nat>, t: nat)
    requires i < |cs|
    ensures OnCpu(cs[i := c], t) == OnCpu(cs, t) - Here(cs[i], t) + Here(c, t)
  {
    if i == 0 {
      assert cs[i := c][1..] == cs[1..];
    } else {
      assert cs[i := c][1..] == cs[1..][i - 1 := c];
      OnCpuUpdate(cs[1..], i - 1, c, t);
    }
  }

  lemma {:induction false} QueuedIn(qs: seq<seq<nat>>, p: nat, t: nat)
    requires p < |qs|
    ensures Times(qs[p], t) <= Queued(qs, t)
  {
    if p > 0 {
      QueuedIn(qs[1..], p - 1, t);
    }
  }

  lemma {:induction false} OnCpuIn(cs: seq<Option<nat>>, i: nat, t: nat)
    requires i < |cs|
    ensures Here(cs[i], t) <= OnCpu(cs, t)
  {
    if i > 0 {
      OnCpuIn(cs[1..], i - 1, t);
    }
  }

  lemma {:induction false} TimesIn(q: seq<nat>, t: nat)
    ensures Times(q, t) > 0 <==> t in q
  {
    if q != [] {
      TimesIn(q[1..], t);
      assert q == [q[0]] + q[1..];
    }
  }

  lemma {:induction false} TimesWithout(q: seq<nat>, x: nat, t: nat)
    ensures Times(Without(q, x), t) == Times(q, t) - (if x == t && x in q then 1 else 0)
  {
    if q != [] {
      assert q == [q[0]] + q[1..];
      if q[0] != x {
        TimesWithout(q[1..], x, t);
        assert ([q[0]] + Without(q[1..], x))[1..] == Without(q[1..], x);
      }
    }
  }

  lemma {:induction false} TimesMore(q: seq<nat>, x: nat, t: nat)
    ensures Times(q + [x], t) == Times(q, t) + (if x == t then 1 else 0)
  {
    if q != [] {
      assert (q + [x])[1..] == q[1..] + [x];
      TimesMore(q[1..], x, t);
    }
  }

  lemma {:induction false} DequeuedTimes(qs: seq<seq<nat>>, p: nat, x: nat, t: nat)
    requires p < |qs|
    ensures Queued(Dequeue(qs, p, x), t) == Queued(qs, t) - (if x == t && x in qs[p] then 1 else 0)
  {
    QueuedUpdate(qs, p, Without(qs[p], x), t);
    TimesWithout(qs[p], x, t);
  }

  lemma {:induction false} EnqueuedTimes(qs: seq<seq<nat>>, p: nat, x: nat, t: nat)
    requires p < |qs|
    ensures Queued(Enqueue(qs, p, x), t) == Queued(qs, t) + (if x == t then 1 else 0)
  {
    QueuedUpdate(qs, p, qs[p] + [x], t);
    TimesMore(qs[p], x, t);
  }

  /** A switch moves threads between the queues and the CPUs; every thread keeps its number of places. */
  lemma {:induction false} SwitchPlaces(s: Sched, cpu: nat, th: Threads, x: nat, now: int, t: nat)
    requires cpu < |s.current| && x in th && th[x].priority < |s.queues| && x in s.queues[th[x].priority]
    requires s.current[cpu].Some? ==> s.current[cpu].value in th && th[s.current[cpu].value].priority < |s.queues|
    ensures Places(Switch(s, cpu, th, x, now), t) == Places(s, t)
  {
    var prev := s.current[cpu];
    var qs := Dequeue(s.queues, th[x].priority, x);
    DequeuedTimes(s.queues, th[x].priority, x, t);
    OnCpuUpdate(s.current, cpu, Some(x), t);
    if prev.Some? {
      EnqueuedTimes(qs, th[prev.value].priority, prev.value, t);
    }
  }

  // ------------------------------------------------------------------ what the invariant means

  lemma {:induction false} OneCpu(cs: seq<Option<nat>>, i: nat, j: nat, t: nat)
    requires i < j < |cs| && cs[i] == Some(t) && cs[j] == Some(t)
    ensures OnCpu(cs, t) >= 2
  {
    if i == 0 {
      OnCpuIn(cs[1..], j - 1, t);
    } else {
      OneCpu(cs[1..], i - 1, j - 1, t);
    }
  }

  lemma {:induction false} OneQueue(qs: seq<seq<nat>>, i: nat, j: nat, t: nat)
    requires i < j < |qs| && t in qs[i] && t in qs[j]
    ensures Queued(qs, t) >= 2
  {
    if i == 0 {
      QueuedIn(qs[1..], j - 1, t);
      TimesIn(qs[0], t);
      TimesIn(qs[1..][j - 1], t);
    } else {
      OneQueue(qs[1..], i - 1, j - 1, t);
    }
  }

  ghost predicate CurrentOn(s: Sched, c: int, t: nat)
  {
    0 <= c < |s.current| && s.current[c] == Some(t)
  }

  ghost predicate QueuedAt(s: Sched, p: int, t: nat)
  {
    0 <= p < |s.queues| && t in s.queues[p]
  }

  lemma {:induction false} OnSomeCpu(cs: seq<Option<nat>>, t: nat) returns (c: nat)
    requires OnCpu(cs, t) > 0
    ensures c < |cs| && cs[c] == Some(t)
  {
    if cs[0] == Some(t) {
      c := 0;
    } else {
      c := OnSomeCpu(cs[1..], t);
      c := c + 1;
    }
  }

  lemma {:induction false} InSomeQueue(qs: seq<seq<nat>>, t: nat) returns (p: nat)
    requires Queued(qs, t) > 0
    ensures p < |qs| && t in qs[p]
  {
    TimesIn(qs[0], t);
    if t in qs[0] {
      p := 0;
    } else {
      p := InSomeQueue(qs[1..], t);
      p := p + 1;
    }
  }

  /**
    A registered thread is current on exactly one CPU and in no queue, or it is once in the queue of its own
    priority, in no other, and on no CPU.
   */
  lemma {:induction false} OnePlace(s: Sched, t: nat)
    requires Inv(s) && Places(s, t) > 0
    ensures (exists c :: CurrentOn(s, c, t)) <==> !(exists p :: QueuedAt(s, p, t))
    ensures forall c, d :: CurrentOn(s, c, t) && CurrentOn(s, d, t) ==> c == d
    ensures forall p :: QueuedAt(s, p, t) ==> p == s.threads[t].priority && Times(s.queues[p], t) == 1
  {
    forall c, d | CurrentOn(s, c, t) && CurrentOn(s, d, t)
      ensures c == d
    {
      if c < d {
        OneCpu(s.current, c, d, t);
      } else if d < c {
        OneCpu(s.current, d, c, t);
      }
    }
    forall p | QueuedAt(s, p, t)
      ensures Times(s.queues[p], t) == 1
    {
      QueuedIn(s.queues, p, t);
      TimesIn(s.queues[p], t);
    }
    forall p, c | QueuedAt(s, p, t) && CurrentOn(s, c, t)
      ensures false
    {
      QueuedIn(s.queues, p, t);
      TimesIn(s.queues[p], t);
      OnCpuIn(s.current, c, t);
    }
    if OnCpu(s.current, t) > 0 {
      var c := OnSomeCpu(s.current, t);
      assert CurrentOn(s, c, t);
    } else {
      var p := InSomeQueue(s.queues, t);
      assert QueuedAt(s, p, t);
    }
  }
}
