/**
  How many always runnable threads the scheduler needs: as many as there are CPUs, and no fewer. The states
  that show it are reached from an empty scheduler.
 */
module SchedIdle {
  import opened Options
  import opened SchedModel
  import opened SchedRuns

  /** The first `m` threads. */
  function Firsts(m: nat): (r: set<nat>)
    ensures |r| == m && forall t: nat :: t in r <==> t < m
  {
    if m == 0 then {} else Firsts(m - 1) + {m - 1}
  }

  /** The first `k` of `n` CPUs run a thread each and nothing is queued. */
  function Busy(n: nat, k: nat): Sched
  {
    Sched(seq(PRIOS, _ => []), Running(n, k), map c | c in Firsts(k) :: Thread(Runnable, 0, TIMESLICE))
  }

  function Running(n: nat, k: nat): seq<Option<nat>>
  {
    seq(n, c requires 0 <= c < n => if c < k then Some(c) else None)
  }

  /** At most one CPU runs the thread. */
  lemma {:induction false} AtMostOnce(cs: seq<Option<nat>>, t: nat)
    requires forall i, j :: 0 <= i < j < |cs| ==> !(cs[i] == Some(t) && cs[j] == Some(t))
    ensures OnCpu(cs, t) <= 1
    ensures (forall i :: 0 <= i < |cs| ==> cs[i] != Some(t)) ==> OnCpu(cs, t) == 0
  {
    if cs != [] {
      AtMostOnce(cs[1..], t);
    }
  }

  lemma {:induction false} BusyPlaces(n: nat, k: nat, t: nat)
    requires k <= n
    ensures Places(Busy(n, k), t) == if t < k then 1 else 0
  {
    var s := Busy(n, k);
    NoneQueued(s.queues, t);
    AtMostOnce(s.current, t);
    if t < k {
      OnCpuIn(s.current, t, t);
    }
  }

  lemma {:induction false} BusyInv(n: nat, k: nat)
    requires k <= n
    ensures Inv(Busy(n, k))
  {
    forall t: nat
      ensures Places(Busy(n, k), t) <= 1
    {
      BusyPlaces(n, k, t);
    }
  }

  /** When the thread of a CPU exits and nothing is queued, no thread is left for it. */
  lemma {:induction false} BusyStop(n: nat, m: nat)
    requires m < n
    ensures var s, e := Busy(n, n), Stop(m, m, Exited, 0);
            Inv(s) && Possible(s, e) && Step(s, e) == NoThread
  {
    BusyInv(n, n);
    var s := Busy(n, n);
    NoneToChoose(s.queues, WithState(s, m, Exited).threads, PRIOS);
  }

  // ------------------------------------------------------------------ reaching it

  function Fresh(): Thread
  {
    Thread(Runnable, 0, 0)
  }

  /** A thread is registered. */
  function Joined(n: nat, k: nat): Sched
  {
    var s := Busy(n, k);
    Sched(Enqueue(s.queues, 0, k), s.current, s.threads[k := Fresh()])
  }

  lemma {:induction false} JoinStep(n: nat, k: nat)
    requires k < n
    ensures Leads(Busy(n, k), Add(k, Fresh()), Joined(n, k))
  {
    BusyPlaces(n, k, k);
    BusyInv(n, k);
  }

  lemma {:induction false} OnlyChoice(qs: seq<seq<nat>>, th: Threads, n: nat, t: nat)
    requires 0 < n <= |qs| && qs[0] == [t] && Ready(th, t)
    requires forall p :: 0 < p < |qs| ==> qs[p] == []
    ensures Choose(qs, th, n) == Some(t)
  {
    ChooseStep(qs, th, n);
    if n > 1 {
      OnlyChoice(qs, th, n - 1, t);
    }
  }

  /** The CPU without a thread takes the one that joined. */
  lemma {:induction false} TakeStep(n: nat, k: nat)
    requires k < n
    ensures Leads(Joined(n, k), Tick(k, 0), Busy(n, k + 1))
  {
    JoinStep(n, k);
    BusyInv(n, k);
    StepKeeps(Busy(n, k), Add(k, Fresh()));
    var s := Joined(n, k);
    assert s.queues[0] == [k];
    OnlyChoice(s.queues, s.threads, PRIOS, k);
    var r := Switch(s, k, s.threads, k, 0);
    assert r.queues == Busy(n, k + 1).queues;
    assert r.current == Busy(n, k + 1).current;
    assert r.threads == Busy(n, k + 1).threads;
  }

  lemma {:induction false} RunMore(run: seq<Sched>, es: seq<Event>, e: Event, s: Sched)
    requires IsRun(run, es) && Leads(run[|es|], e, s)
    ensures IsRun(run + [s], es + [e])
  {
    var rs, fs := run + [s], es + [e];
    forall i | 0 <= i < |fs|
      ensures StepAt(rs, fs, i)
    {
      assert i < |es| ==> StepAt(run, es, i);
    }
  }

  /** Only registrations and timer ticks. */
  ghost predicate Harmless(es: seq<Event>)
  {
    forall i :: 0 <= i < |es| ==> es[i].Add? || es[i].Tick?
  }

  /** A scheduler with `n` CPUs and no threads. */
  function Empty(n: nat): Sched
  {
    Sched(seq(PRIOS, _ => []), seq(n, _ => None), map[])
  }

  /** Some run of registrations and ticks leads from an empty scheduler to the state. */
  ghost predicate Reaches(n: nat, s: Sched)
  {
    exists run, es :: ReachedBy(n, s, run, es)
  }

  ghost predicate ReachedBy(n: nat, s: Sched, run: seq<Sched>, es: seq<Event>)
  {
    IsRun(run, es) && Harmless(es) && run[0] == Empty(n) && run[|es|] == s
  }

  lemma {:induction false} ReachesNext(n: nat, s: Sched, e: Event, r: Sched)
    requires Reaches(n, s) && Leads(s, e, r) && (e.Add? || e.Tick?)
    ensures Reaches(n, r)
  {
    var run, es :| ReachedBy(n, s, run, es);
    RunMore(run, es, e, r);
    assert ReachedBy(n, r, run + [r], es + [e]);
  }

  lemma {:induction false} JoinReached(n: nat, k: nat)
    requires k < n && Reaches(n, Busy(n, k))
    ensures Reaches(n, Joined(n, k))
  {
    JoinStep(n, k);
    ReachesNext(n, Busy(n, k), Add(k, Fresh()), Joined(n, k));
  }

  lemma {:induction false} TakeReached(n: nat, k: nat)
    requires k < n && Reaches(n, Joined(n, k))
    ensures Reaches(n, Busy(n, k + 1))
  {
    TakeStep(n, k);
    ReachesNext(n, Joined(n, k), Tick(k, 0), Busy(n, k + 1));
  }

  lemma {:induction false} StartReached(n: nat, k: nat)
    requires k == 0
    ensures Reaches(n, Busy(n, k))
  {
    var s := Busy(n, k);
    assert s.current == Empty(n).current && s.threads == Empty(n).threads;
    assert ReachedBy(n, s, [s], []);
  }

  /** From a scheduler without threads to one with a thread on each of the first `k` CPUs. */
  lemma {:induction false} BusyReached(n: nat, k: nat)
    requires k <= n
    ensures Reaches(n, Busy(n, k))
  {
    if k == 0 {
      StartReached(n, k);
    } else {
      BusyReached(n, k - 1);
      JoinReached(n, k - 1);
      TakeReached(n, k - 1);
    }
  }

  // ------------------------------------------------------------------ the exact number

  /** The threads are registered and can run, and the next step leaves them so. */
  ghost predicate Kept(s: Sched, idle: set<nat>, e: Event)
  {
    Inv(s) && Possible(s, e) && Spares(e, idle) && forall t :: t in idle ==> Places(s, t) == 1 && Ready(s.threads, t)
  }

  /**
    Fewer such threads than CPUs are not enough: from an empty scheduler a state is reached in which all of
    them can run, and then another thread exits and no thread is left.
   */
  lemma {:induction false} IdleNeeded(n: nat, m: nat)
    requires m < n
    ensures var s, e := Busy(n, n), Stop(m, m, Exited, 0);
            && Reaches(n, s) && |s.current| == n && |Firsts(m)| == m
            && Kept(s, Firsts(m), e) && Step(s, e) == NoThread
  {
    BusyReached(n, n);
    BusyStop(n, m);
    forall t | t in Firsts(m)
      ensures Places(Busy(n, n), t) == 1
    {
      BusyPlaces(n, n, t);
    }
  }

  /** With `m` such threads no possible step on `n` CPUs ends with no thread left. */
  ghost predicate Enough(n: nat, m: nat)
  {
    forall s: Sched, idle: set<nat>, e: Event ::
      |s.current| == n && |idle| == m && Kept(s, idle, e) ==> Step(s, e).Next?
  }

  /** Exactly as many as there are CPUs are enough. */
  lemma {:induction false} EnoughIff(n: nat, m: nat)
    ensures Enough(n, m) <==> m >= n
  {
    if m >= n {
      forall s: Sched, idle: set<nat>, e: Event | |s.current| == n && |idle| == m && Kept(s, idle, e)
        ensures Step(s, e).Next?
      {
        StepGoesOn(s, e, idle);
      }
    } else {
      IdleNeeded(n, m);
      assert Kept(Busy(n, n), Firsts(m), Stop(m, m, Exited, 0));
    }
  }

  /** A thread that is current stays registered when it is removed. */
  lemma {:induction false} RemovedStays(n: nat, c: nat)
    requires c < n
    ensures var s := Busy(n, n);
            Inv(s) && Possible(s, Remove(c)) && CurrentOn(s, c, c) && Step(s, Remove(c)) == Next(s) && Places(s, c) == 1
  {
    BusyInv(n, n);
    BusyPlaces(n, n, c);
    var s := Busy(n, n);
    assert Dequeue(s.queues, 0, c) == s.queues;
  }
}
