/**
  The scheduler's operations on its linked queues (src/sched.c, src/thread.c). Each operation takes the
  same step as the state machine. A thread is known by its address; `threads` holds the threads' fields.
 */
module Schedulers {
  import opened Options
  import opened LinkedLists
  import opened SchedModel
  import SchedRuns

  /** The objects of a queue; a queue that was never used is null. */
  ghost function Foot(l: List?): set<object>
    reads l
  {
    if l == null then {} else {l} + l.Nodes()
  }

  ghost predicate Carries(l: List?, row: seq<nat>)
    reads l, Foot(l)
  {
    if l == null then row == [] else l.Valid() && l.items == row
  }

  ghost predicate Inside(l: List?, arena: set<object>)
    reads arena
  {
    l != null ==> l in arena && Foot(l) <= arena
  }

  ghost predicate Separate(k: List?, l: List?)
    reads k, l
  {
    Foot(k) !! Foot(l)
  }

  /** The queues hold the rows; all their objects are in the arena, and no two queues share one. */
  ghost predicate Hold(qs: seq<List?>, rows: seq<seq<nat>>, arena: set<object>)
    reads arena
  {
    && |qs| == |rows|
    && (forall p :: 0 <= p < |qs| ==> Inside(qs[p], arena) && Carries(qs[p], rows[p]))
    && forall i, j {:trigger Separate(qs[i], qs[j])} :: 0 <= i < j < |qs| ==> Separate(qs[i], qs[j])
  }

  lemma {:induction false} OthersApart(qs: seq<List?>, p: nat, rows: seq<seq<nat>>, arena: set<object>)
    requires Hold(qs, rows, arena) && p < |qs|
    ensures forall j :: 0 <= j < |qs| && j != p ==> Separate(qs[j], qs[p])
  {
    forall j | 0 <= j < |qs| && j != p
      ensures Separate(qs[j], qs[p])
    {
      assert if j < p then Separate(qs[j], qs[p]) else Separate(qs[p], qs[j]);
    }
  }

  /** Creates queue `p` when it is first used. */
  method Provide(qs: seq<List?>, p: nat, ghost rows: seq<seq<nat>>, ghost arena: set<object>)
    returns (rs: seq<List?>, ghost wider: set<object>)
    requires Hold(qs, rows, arena) && p < |qs|
    ensures Hold(rs, rows, wider) && rs[p] != null && fresh(Foot(rs[p]) - Foot(qs[p]))
    ensures arena <= wider && fresh(wider - arena)
  {
    rs, wider := qs, arena;
    if rs[p] == null {
      var l := new List();
      rs, wider := rs[p := l], wider + {l};
      forall i, j | 0 <= i < j < |rs|
        ensures Separate(rs[i], rs[j])
      {
        assert Separate(qs[i], qs[j]);
      }
    }
  }

  method AppendTo(qs: seq<List?>, p: nat, t: nat, ghost rows: seq<seq<nat>>, ghost arena: set<object>)
    returns (ghost wider: set<object>)
    requires Hold(qs, rows, arena) && p < |qs| && qs[p] != null
    modifies Foot(qs[p])
    ensures Hold(qs, Enqueue(rows, p, t), wider)
    ensures arena <= wider && fresh(wider - arena)
  {
    OthersApart(qs, p, rows, arena);
    qs[p].Add(t);
    wider := arena + Foot(qs[p]);
    forall j | 0 <= j < |qs| && j != p
      ensures Inside(qs[j], wider) && Carries(qs[j], rows[j])
    {
      assert old(Inside(qs[j], arena) && Carries(qs[j], rows[j]));
    }
    forall i, j | 0 <= i < j < |qs|
      ensures Separate(qs[i], qs[j])
    {
      assert old(Separate(qs[i], qs[j]));
    }
  }

  /** Takes a thread out of queue `p`. */
  method RemoveFrom(qs: seq<List?>, p: nat, t: nat, ghost rows: seq<seq<nat>>, ghost arena: set<object>)
    requires Hold(qs, rows, arena) && p < |qs|
    modifies Foot(qs[p])
    ensures Hold(qs, Dequeue(rows, p, t), arena)
  {
    OthersApart(qs, p, rows, arena);
    if qs[p] != null {
      qs[p].Remove(t);
    }
    forall j | 0 <= j < |qs| && j != p
      ensures Inside(qs[j], arena) && Carries(qs[j], rows[j])
    {
      assert old(Inside(qs[j], arena) && Carries(qs[j], rows[j]));
    }
    forall i, j | 0 <= i < j < |qs|
      ensures Separate(qs[i], qs[j])
    {
      assert old(Separate(qs[i], qs[j]));
    }
  }

  /** Puts a thread at the end of queue `p`. */
  method AddTo(qs: seq<List?>, p: nat, t: nat, ghost rows: seq<seq<nat>>, ghost arena: set<object>)
    returns (rs: seq<List?>, ghost wider: set<object>)
    requires Hold(qs, rows, arena) && p < |qs|
    modifies arena
    ensures Hold(rs, Enqueue(rows, p, t), wider)
    ensures arena <= wider && fresh(wider - arena)
  {
    rs, wider := Provide(qs, p, rows, arena);
    assert Inside(rs[p], wider);
    wider := AppendTo(rs, p, t, rows, wider);
  }

  /** The queues after a switch: thread `t` leaves queue `p`, the old thread goes to the end of queue `q`. */
  ghost function Swapped(rows: seq<seq<nat>>, p: nat, t: nat, prev: Option<nat>, q: nat): seq<seq<nat>>
    requires p < |rows| && q < |rows|
  {
    if prev.Some? then Enqueue(Dequeue(rows, p, t), q, prev.value) else Dequeue(rows, p, t)
  }

  method SwitchQueues(qs: seq<List?>, p: nat, t: nat, prev: Option<nat>, q: nat, ghost rows: seq<seq<nat>>,
      ghost arena: set<object>)
    returns (rs: seq<List?>, ghost wider: set<object>)
    requires Hold(qs, rows, arena) && p < |qs| && q < |qs|
    modifies arena
    ensures Hold(rs, Swapped(rows, p, t, prev, q), wider)
    ensures arena <= wider && fresh(wider - arena)
  {
    assert Inside(qs[p], arena);
    RemoveFrom(qs, p, t, rows, arena);
    rs, wider := qs, arena;
    if prev.Some? {
      rs, wider := AddTo(qs, q, prev.value, Dequeue(rows, p, t), arena);
    }
  }

  /** The first thread of a queue that can run, node by node. */
  method FirstIn(l: List?, th: Threads, ghost row: seq<nat>) returns (r: Option<nat>)
    requires Carries(l, row)
    ensures r == First(row, th)
  {
    if l == null {
      return None;
    }
    var node := l.head;
    ghost var k := 0;
    while node != null
      invariant k <= |row| && l.Valid() && l.items == row && node == At(l.spine, k)
      invariant First(row, th) == First(row[k..], th)
      decreases |row| - k
    {
      if Ready(th, node.data) {
        return Some(node.data);
      }
      assert row[k..][1..] == row[k + 1..];
      node := node.next;
      k := k + 1;
    }
    r := None;
  }

  /** From the highest priority down, the first thread that can run. */
  method ChooseFrom(qs: seq<List?>, th: Threads, ghost rows: seq<seq<nat>>, ghost arena: set<object>)
      returns (r: Option<nat>)
    requires Hold(qs, rows, arena)
    ensures r == Choose(rows, th, |rows|)
  {
    ghost var goal := Choose(rows, th, |rows|);
    var i := |qs|;
    r := None;
    while i > 0 && r.None?
      invariant 0 <= i <= |qs|
      invariant if r.None? then Choose(rows, th, i) == goal else r == goal
    {
      ChooseStep(rows, th, i);
      i := i - 1;
      assert old(Carries(qs[i], rows[i]));
      r := FirstIn(qs[i], th, rows[i]);
    }
    ChooseStep(rows, th, i);
  }

  datatype Result = Done | Fatal | NullThread | Halted

  /** The method's result agrees with the outcome of the step. */
  ghost predicate Agrees(o: Outcome, r: Result, s: Sched)
  {
    match o
    case Next(n) => r == Done && s == n
    case NoThread => r == Fatal
    case NoCurrent => r == NullThread
  }

  class Scheduler {
    var queues: seq<List?>
    var current: seq<Option<nat>>
    var threads: Threads
    ghost var rows: seq<seq<nat>>
    ghost var arena: set<object>

    ghost predicate Valid()
      reads this, arena
    {
      this !in arena && |queues| == PRIOS && Hold(queues, rows, arena)
    }

    ghost function Model(): Sched
      reads this
    {
      Sched(rows, current, threads)
    }

    constructor (cpus: nat)
      ensures Valid() && Model() == Sched(seq(PRIOS, _ => []), seq(cpus, _ => None), map[]) && arena == {}
    {
      queues, rows := seq(PRIOS, _ => null), seq(PRIOS, _ => []);
      current, threads, arena := seq(cpus, _ => None), map[], {};
    }

    /** Takes over queues. */
    method InstallQueues(rs: seq<List?>, ghost ys: seq<seq<nat>>, ghost wider: set<object>)
      requires this !in wider && |rs| == PRIOS && Hold(rs, ys, wider)
      modifies `queues, `rows, `arena
      ensures Valid() && rows == ys && arena == wider
    {
      queues, rows, arena := rs, ys, wider;
    }

    /** Writes the current threads and the threads' fields. */
    method Put(cs: seq<Option<nat>>, th: Threads)
      requires Valid()
      modifies `current, `threads
      ensures Valid() && current == cs && threads == th
    {
      current, threads := cs, th;
    }

    /** Gives the CPU to the thread it should run now. */
    method Schedule(cpu: nat, now: int) returns (r: Result)
      requires Valid() && Typed(Model()) && cpu < |current|
      modifies this, arena
      ensures Valid() && fresh(arena - old(arena))
      ensures Agrees(SchedModel.Schedule(old(Model()), cpu, now), r, Model())
    {
      var prev, th := current[cpu], threads;
      if prev.Some? {
        if th[prev.value].state == Runnable && th[prev.value].preemptAt > now {
          return Done;
        }
        if th[prev.value].state == Yielded {
          th := th[prev.value := th[prev.value].(state := Runnable)];
        }
      }
      var chosen := ChooseFrom(queues, th, rows, arena);
      if chosen.Some? {
        SwitchTo(cpu, chosen.value, th, now);
        r := Done;
      } else {
        Put(current, th);
        r := if prev.None? then NullThread else if th[prev.value].state == Runnable then Done else Fatal;
      }
    }

    /** Makes a queued thread current and puts the old one at the end of its queue. */
    method SwitchTo(cpu: nat, t: nat, th: Threads, now: int)
      requires Valid() && cpu < |current| && t in th && th[t].priority < PRIOS
      requires current[cpu].Some? ==> current[cpu].value in th && th[current[cpu].value].priority < PRIOS
      modifies this, arena
      ensures Valid() && fresh(arena - old(arena))
      ensures Model() == Switch(old(Model()), cpu, th, t, now)
    {
      var prev := current[cpu];
      var p, q := th[t].priority, if prev.Some? then th[prev.value].priority else 0;
      var cs := current[cpu := Some(t)];
      ghost var ys, wider := Swapped(rows, p, t, prev, q), arena;
      var rs;
      rs, wider := SwitchQueues(queues, p, t, prev, q, rows, arena);
      InstallQueues(rs, ys, wider);
      Put(cs, th[t := th[t].(preemptAt := now + TIMESLICE)]);
    }

    /** Gives up the rest of the time slice. */
    method Yield(cpu: nat, now: int) returns (r: Result)
      requires Valid() && Typed(Model()) && cpu < |current| && current[cpu].Some?
      modifies this, arena
      ensures Valid() && fresh(arena - old(arena))
      ensures Agrees(SchedRuns.Step(old(Model()), SchedRuns.Yield(cpu, now)), r, Model())
    {
      var t := current[cpu].value;
      Put(current, threads[t := threads[t].(state := Yielded)]);
      r := Schedule(cpu, now);
    }

    /** Ends a thread: it will not be chosen again. */
    method Exit(cpu: nat, t: nat, now: int) returns (r: Result)
      requires Valid() && Typed(Model()) && cpu < |current| && t in threads
      modifies this, arena
      ensures Valid() && fresh(arena - old(arena))
      ensures Agrees(SchedRuns.Step(old(Model()), SchedRuns.Stop(cpu, t, Exited, now)), r, Model())
    {
      Put(current, threads[t := threads[t].(state := Exited)]);
      r := Schedule(cpu, now);
    }

    /** Ends a thread after a fault; one of the kernel's own process halts the system. */
    method Abort(cpu: nat, t: nat, kernelProcess: bool, now: int) returns (r: Result)
      requires Valid() && Typed(Model()) && cpu < |current| && t in threads
      modifies this, arena
      ensures Valid() && fresh(arena - old(arena))
      ensures r == Halted <==> kernelProcess
      ensures !kernelProcess ==> Agrees(SchedRuns.Step(old(Model()), SchedRuns.Stop(cpu, t, Aborting, now)), r, Model())
    {
      Put(current, threads[t := threads[t].(state := Aborting)]);
      if kernelProcess {
        return Halted;
      }
      r := Schedule(cpu, now);
    }

    /** Registers a thread. */
    method Add(t: nat)
      requires Valid() && Typed(Model()) && t in threads
      modifies `queues, `rows, `arena, arena
      ensures Valid() && fresh(arena - old(arena))
      ensures var p := threads[t].priority; rows == old(rows)[p := old(rows)[p] + [t]]
      ensures var e := SchedRuns.Add(t, threads[t]);
              SchedRuns.Possible(old(Model()), e) ==> SchedRuns.Step(old(Model()), e) == Next(Model())
    {
      ghost var th, p := threads, threads[t].priority;
      ghost var ys, wider := Enqueue(rows, p, t), arena;
      var rs;
      rs, wider := AddTo(queues, threads[t].priority, t, rows, arena);
      InstallQueues(rs, ys, wider);
      assert th[t := th[t]] == th;
    }

    /** Takes a thread out of its queue; a thread that is current on a CPU is not touched. */
    method Remove(t: nat)
      requires Valid() && Typed(Model()) && t in threads
      modifies `queues, `rows, `arena, arena
      ensures Valid() && arena == old(arena)
      ensures SchedRuns.Step(old(Model()), SchedRuns.Remove(t)) == Next(Model())
    {
      var rs, p := queues, threads[t].priority;
      ghost var xs, ys, objects := rows, Dequeue(rows, p, t), arena;
      ghost var s := Model();
      assert Inside(rs[p], objects);
      RemoveFrom(rs, p, t, xs, objects);
      InstallQueues(rs, ys, objects);
      SchedRuns.RemoveStep(s, t, ys);
    }
  }
}
