/**
  The page-table manager (src/vmem_mgmt.c, src/vmem.c). Tables are reached through a window
  of ten slots, each of which maps one frame; a table pointer is the number of its slot.
 */
module PageTables {
  import opened Options
  import opened PageTree
  import opened ClobberTree

  const SLOTS := 10

  /** The entry that makes frame `f` visible in a slot. */
  function SlotFor(f: nat): Entry
  {
    Entry(f, {Present, Writable, Global})
  }

  function FreeSlots(slots: seq<Entry>): set<nat>
  {
    set i: nat | i < |slots| && !IsPresent(slots[i])
  }

  lemma TakeSlot(slots: seq<Entry>, s: nat, f: nat)
    requires s < |slots| && !IsPresent(slots[s])
    ensures FreeSlots(slots[s := SlotFor(f)]) == FreeSlots(slots) - {s}
    ensures |FreeSlots(slots[s := SlotFor(f)])| == |FreeSlots(slots)| - 1
  {
    assert FreeSlots(slots[s := SlotFor(f)]) == FreeSlots(slots) - {s};
  }

  ghost predicate WindowOk(slots: seq<Entry>)
  {
    |slots| == SLOTS && forall i :: 0 <= i < SLOTS && !IsPresent(slots[i]) ==> slots[i] == ZERO
  }

  // Slots that were zero are zero again once released.

  lemma Restore1(s: seq<Entry>, a: nat, x: Entry)
    requires a < |s| && s[a] == ZERO
    ensures s[a := x][a := ZERO] == s
  {
  }

  lemma Restore2(s: seq<Entry>, a: nat, b: nat, x: Entry, y: Entry)
    requires a < |s| && b < |s| && a != b && s[a] == s[b] == ZERO
    ensures s[a := x][b := y][a := ZERO][b := ZERO] == s
  {
  }

  datatype Check = Linked | Absent | Halted

  datatype SplitResult =
    | TableNotMapped
    | SmallExpected
    | LargeExpected
    | SplitSuccess
    | OutOfMemory // the physical allocator stops the kernel

  class Vmem {
    var mem: Memory
    var slots: seq<Entry>
    var pool: seq<nat> // the frames the physical allocator will hand out, in order
    var freed: seq<FreeCall> // what has been given back to the physical allocator
    const shared: Shared
    ghost var own: Owners

    /** The tables of `space` form a tree, free slots are zero, and frames still to be handed out are not in use. */
    ghost predicate Inv(space: nat)
      reads this
    {
      && Tree(mem, own, space)
      && WindowOk(slots)
      && (forall i :: 0 <= i < |pool| ==> pool[i] !in own)
      && (forall i, j :: 0 <= i < j < |pool| ==> pool[i] != pool[j])
    }

    /** Slot `x` shows table `f`. */
    ghost predicate Shows(x: nat, f: nat)
      reads this
    {
      x < |slots| && slots[x] == SlotFor(f)
    }

    // ---------------------------------------------------------------- the slot window

    method MapSlot(f: nat) returns (s: nat)
      requires |slots| == SLOTS && FreeSlots(slots) != {}
      modifies this`slots
      ensures s < SLOTS && !IsPresent(old(slots)[s])
      ensures slots == old(slots)[s := SlotFor(f)]
    {
      ghost var some :| some in FreeSlots(slots);
      s := 0;
      while s < SLOTS
        invariant s <= some
        invariant forall j :: 0 <= j < s ==> IsPresent(slots[j])
        invariant slots == old(slots)
      {
        if !IsPresent(slots[s]) {
          slots := slots[s := SlotFor(f)];
          return;
        }
        s := s + 1;
      }
      assert false;
    }

    method UnmapSlot(x: nat)
      requires |slots| == SLOTS
      modifies this`slots
      ensures slots == if x < SLOTS then old(slots)[x := ZERO] else old(slots)
    {
      var i := 0;
      while i < SLOTS
        invariant 0 <= i <= SLOTS && (x < SLOTS ==> i <= x)
        invariant slots == old(slots)
      {
        if i == x {
          slots := slots[i := ZERO];
          return;
        }
        i := i + 1;
      }
    }

    /** A zeroed frame for a new table. */
    method AllocTable(space: nat) returns (c: Option<nat>)
      requires Inv(space) && FreeSlots(slots) != {}
      modifies this`slots, this`mem, this`pool
      ensures Inv(space) && slots == old(slots)
      ensures c == None <==> old(pool) == []
      ensures c == None ==> mem == old(mem) && pool == []
      ensures c != None ==> c.value == old(pool)[0] && pool == old(pool)[1..] && mem == old(mem)[c.value := EMPTY]
      ensures SameWalks(old(mem), mem, space) && (Clean(old(mem), own) ==> Clean(mem, own))
      ensures SameEntries(old(mem), mem, space)
      ensures c != None ==> c.value !in own && (forall i :: 0 <= i < |pool| ==> pool[i] != c.value)
    {
      if pool == [] {
        return None;
      }
      var phys := pool[0];
      pool := pool[1..];
      var x := MapSlot(phys);
      Outside(mem, own, space, phys, EMPTY);
      OutsideEntries(mem, own, space, phys, EMPTY);
      mem := mem[slots[x].frame := EMPTY];
      UnmapSlot(x);
      assert slots == old(slots);
      c := Some(phys);
    }

    // ---------------------------------------------------------------- the walk

    /** Frames that are not tables of the space are left alone. */
    twostate predicate Confined()
      reads this
    {
      && (forall t :: t in old(own) ==> t in own && own[t] == old(own)[t])
      && (forall t :: t in old(mem) && t !in own ==> t in mem && mem[t] == old(mem)[t])
      && (forall i :: 0 <= i < |pool| ==> pool[i] in old(pool))
    }

    /** Of the tables the space had, only `f` has changed. */
    twostate predicate OnlyTable(f: nat)
      reads this
    {
      forall t :: t in old(own) && t != f ==> t in mem && t in old(mem) && mem[t] == old(mem)[t]
    }

    /** A missing table has been created where there was none, and then the flags added. */
    lemma {:induction false} CheckOpened(m0: Memory, m1: Memory, m2: Memory, space: nat, f: nat, v: Path, d: nat,
        u: set<Flag>)
      requires d < 4 && f in m0 && f in m1 && f in m2 && Leads(m0, space, 0, f, d, v)
      requires IsPresent(m1[f][v[d]]) && m2[f][v[d]] == Widened(m1[f][v[d]], u)
      requires if IsPresent(m0[f][v[d]]) then m1 == m0
               else m1[f][v[d]].flags == {Present, Writable} && OneEntry(m0, m1, space, v, d, m1[f][v[d]])
      requires OneEntry(m1, m2, space, v, d, m2[f][v[d]])
      ensures Opened(m0, m2, space, v, d, d + 1, u)
    {
      if !IsPresent(m0[f][v[d]]) {
        OneEntryTwice(m0, m1, m2, space, v, d, m1[f][v[d]], m2[f][v[d]]);
      }
      OneOpened(m0, m2, space, f, v, d, d + 1, m2[f][v[d]], u);
    }

    /**
      Makes sure that entry `v[d]` of the table in slot `x` leads to a table. With `alloc` a
      missing table is created and the flags `u` are added to the entry.
     */
    method CheckEntry(space: nat, x: nat, d: nat, v: Path, alloc: bool, u: set<Flag>, ghost f: nat) returns (r: Check)
      requires Inv(space) && d < 3 && FreeSlots(slots) != {}
      requires Shows(x, f) && Leads(mem, space, 0, f, d, v)
      requires f in mem && (IsPresent(mem[f][v[d]]) ==> IsLink(d, mem[f][v[d]]))
      requires alloc && d == 2 ==> Large !in u
      modifies this`mem, this`pool, this`own, this`slots
      ensures Inv(space) && slots == old(slots)
      ensures SameWalks(old(mem), mem, space) && Confined() && OnlyTable(f)
      ensures Large !in u && Clean(old(mem), old(own)) ==> Clean(mem, own)
      ensures r == Halted ==> alloc && pool == []
      ensures r == Absent <==> !alloc && !IsPresent(old(mem)[f][v[d]])
      ensures r == Linked ==> f in mem && IsLink(d, mem[f][v[d]]) && Leads(mem, space, 0, mem[f][v[d]].frame, d + 1, v)
      ensures r == Linked ==> Leads(mem, space, 0, f, d, v)
      ensures r == Linked && alloc ==> u <= mem[f][v[d]].flags
      ensures r == Linked && alloc ==> Opened(old(mem), mem, space, v, d, d + 1, u)
      ensures !alloc ==> unchanged(`mem, `pool, `own)
    {
      LeadsOwner(mem, own, space, space, 0, f, d, v);
      assert EntryOk(mem, own, f, v[d]);
      if !IsPresent(mem[slots[x].frame][v[d]]) {
        if alloc {
          var ok := NewTable(space, x, d, v, f);
          if !ok {
            return Halted;
          }
        } else {
          return Absent;
        }
      }
      if alloc {
        ghost var m1 := mem;
        WidenEntry(space, x, d, v, u, f);
        CheckOpened(old(mem), m1, mem, space, f, v, d, u);
      }
      LeadsOn(mem, space, 0, f, d, v);
      r := Linked;
    }

    method LinkTable(space: nat, x: nat, d: nat, v: Path, c: nat, ghost f: nat)
      requires Inv(space) && d < 3
      requires Shows(x, f) && Leads(mem, space, 0, f, d, v)
      requires f in own && own[f] == v[..d] && mem[f][v[d]] == ZERO
      requires c !in own && c in mem && mem[c] == EMPTY && forall i :: 0 <= i < |pool| ==> pool[i] != c
      modifies this`mem, this`own
      ensures Inv(space) && SameWalks(old(mem), mem, space)
      ensures Clean(old(mem), old(own)) ==> Clean(mem, own)
      ensures f in mem && f in own && own == old(own)[c := v[..d] + [v[d]]]
      ensures Leads(mem, space, 0, f, d, v) && IsLink(d, mem[f][v[d]])
      ensures mem[f][v[d]] == Entry(c, {Present, Writable}) && OneEntry(old(mem), mem, space, v, d, mem[f][v[d]])
      ensures forall t :: t in old(mem) && t != f ==> t in mem && mem[t] == old(mem)[t]
    {
      Link(mem, own, space, f, v[d], c, {Present, Writable});
      LeadsOther(mem, own, space, f, v[d], Entry(c, {Present, Writable}), space, 0, v);
      PutOneEntry(mem, own, space, f, d, v, Entry(c, {Present, Writable}));
      mem := Put(mem, slots[x].frame, v[d], Entry(c, {Present, Writable}));
      own := own[c := own[f] + [v[d]]];
    }

    /** Creates the table that entry `v[d]` of the table in slot `x` lacks. */
    method NewTable(space: nat, x: nat, d: nat, v: Path, ghost f: nat) returns (ok: bool)
      requires Inv(space) && d < 3 && FreeSlots(slots) != {}
      requires Shows(x, f) && Leads(mem, space, 0, f, d, v)
      requires f in own && own[f] == v[..d] && mem[f][v[d]] == ZERO
      modifies this`mem, this`pool, this`own, this`slots
      ensures Inv(space) && slots == old(slots)
      ensures SameWalks(old(mem), mem, space) && Confined() && OnlyTable(f)
      ensures Clean(old(mem), old(own)) ==> Clean(mem, own)
      ensures !ok ==> pool == []
      ensures ok ==> f in mem && f in own && Leads(mem, space, 0, f, d, v) && IsLink(d, mem[f][v[d]])
      ensures ok ==> mem[f][v[d]].flags == {Present, Writable} && OneEntry(old(mem), mem, space, v, d, mem[f][v[d]])
    {
      var c := AllocTable(space);
      if c == None {
        return false;
      }
      LeadsOutside(old(mem), own, space, c.value, EMPTY, space, 0, f, d, v);
      ghost var m1 := mem;
      LinkTable(space, x, d, v, c.value, f);
      SameThenOne(old(mem), m1, mem, space, v, d, mem[f][v[d]]);
      ok := true;
    }

    method WidenEntry(space: nat, x: nat, d: nat, v: Path, u: set<Flag>, ghost f: nat)
      requires Inv(space) && d < 3
      requires Shows(x, f) && Leads(mem, space, 0, f, d, v)
      requires f in own && own[f] == v[..d] && IsLink(d, mem[f][v[d]])
      requires d == 2 ==> Large !in u
      modifies this`mem
      ensures Inv(space) && SameWalks(old(mem), mem, space)
      ensures Large !in u && Clean(old(mem), own) ==> Clean(mem, own)
      ensures f in mem && Leads(mem, space, 0, f, d, v)
      ensures mem[f][v[d]] == Widened(old(mem)[f][v[d]], u) && IsLink(d, mem[f][v[d]])
      ensures OneEntry(old(mem), mem, space, v, d, mem[f][v[d]])
      ensures forall t :: t in old(mem) && t != f ==> t in mem && mem[t] == old(mem)[t]
    {
      Widen(mem, own, space, f, v[d], u);
      LeadsOther(mem, own, space, f, v[d], Widened(mem[f][v[d]], u), space, 0, v);
      PutOneEntry(mem, own, space, f, d, v, Widened(mem[f][v[d]], u));
      mem := Put(mem, slots[x].frame, v[d], Widened(mem[slots[x].frame][v[d]], u));
    }

    /** Follows entry `v[d]` of the table in slot `x` and maps the table behind it. */
    method Descend(space: nat, x: nat, d: nat, v: Path, alloc: bool, u: set<Flag>, ghost f: nat)
        returns (r: Check, y: nat, ghost g: nat)
      requires Inv(space) && d < 3 && FreeSlots(slots) != {}
      requires Shows(x, f) && Leads(mem, space, 0, f, d, v)
      requires f in mem && (IsPresent(mem[f][v[d]]) ==> IsLink(d, mem[f][v[d]]))
      requires alloc && d == 2 ==> Large !in u
      modifies this`mem, this`pool, this`own, this`slots
      ensures Inv(space) && SameWalks(old(mem), mem, space) && Confined() && OnlyTable(f)
      ensures Large !in u && Clean(old(mem), old(own)) ==> Clean(mem, own)
      ensures r != Linked ==> slots == old(slots)
      ensures r == Halted ==> alloc && pool == []
      ensures r == Absent ==> !alloc && Walk(mem, space, 0, v) == None
      ensures r == Linked ==> y < SLOTS && !IsPresent(old(slots)[y]) && slots == old(slots)[y := SlotFor(g)]
      ensures r == Linked ==> Shows(x, f) && |FreeSlots(slots)| == |FreeSlots(old(slots))| - 1
      ensures r == Linked ==> Leads(mem, space, 0, f, d, v) && Leads(mem, space, 0, g, d + 1, v) && f in mem && g in mem
      ensures r == Linked ==> IsLink(d, mem[f][v[d]])
      ensures r == Linked && alloc ==> u <= mem[f][v[d]].flags
      ensures r == Linked && alloc ==> Opened(old(mem), mem, space, v, d, d + 1, u)
      ensures !alloc ==> unchanged(`mem, `pool, `own)
    {
      y, g := 0, 0;
      r := CheckEntry(space, x, d, v, alloc, u, f);
      if r == Absent {
        LeadsWalk(mem, space, 0, f, d, v);
      }
      if r == Linked {
        g := mem[f][v[d]].frame;
        LeadsOwner(mem, own, space, space, 0, g, d + 1, v);
        y := MapSlot(mem[slots[x].frame][v[d]].frame);
        TakeSlot(old(slots), y, g);
      }
    }

    /** The last part of the walk, from the page directory in slot `pd`. */
    method SplitLow(space: nat, pd: nat, v: Path, alloc: bool, large: bool, u: set<Flag>, ghost fd: nat)
        returns (res: SplitResult, pt: Option<nat>, ghost ft: nat)
      requires Inv(space) && FreeSlots(slots) != {}
      requires Shows(pd, fd) && Leads(mem, space, 0, fd, 2, v) && fd in mem
      requires alloc && !large ==> Large !in u
      modifies this`mem, this`pool, this`own, this`slots
      ensures Inv(space) && SameWalks(old(mem), mem, space) && Confined() && OnlyTable(fd)
      ensures Large !in u && Clean(old(mem), old(own)) ==> Clean(mem, own)
      ensures res != SplitSuccess || large ==> slots == old(slots)
      ensures res == TableNotMapped ==> !alloc && !large && Walk(mem, space, 0, v) == None
      ensures res == SmallExpected ==> !large && Walk(mem, space, 0, v).Some? && Walk(mem, space, 0, v).value.Big?
      ensures res == LargeExpected ==> large && HasPageTable(mem, space, v)
      ensures res == LargeExpected ==> Walk(mem, space, 0, v).Some? ==> Walk(mem, space, 0, v).value.Small?
      ensures res == SplitSuccess && large ==> !IsLink(2, mem[fd][v[2]])
      ensures large || res != SplitSuccess ==> pt == None
      ensures res == SplitSuccess || large ==> Shows(pd, fd) && Leads(mem, space, 0, fd, 2, v) && fd in mem
      ensures large || res == SmallExpected ==> mem == old(mem)
      ensures res == OutOfMemory ==> alloc && !large && pool == []
      ensures res == SplitSuccess && !large ==>
                && pt.Some? && pt.value < SLOTS && !IsPresent(old(slots)[pt.value])
                && slots == old(slots)[pt.value := SlotFor(ft)]
                && Leads(mem, space, 0, ft, 3, v) && ft in mem && IsLink(2, mem[fd][v[2]])
      ensures res == SplitSuccess && !large && alloc ==> Opened(old(mem), mem, space, v, 2, 3, u)
      ensures !alloc ==> unchanged(`mem, `pool, `own)
    {
      pt, ft := None, 0;
      LeadsWalk(mem, space, 0, fd, 2, v);
      var e := mem[slots[pd].frame][v[2]];
      if large {
        if IsPresent(e) && Large !in e.flags {
          LeadsOn(mem, space, 0, fd, 2, v);
          return LargeExpected, None, 0;
        }
      } else {
        if IsPresent(e) && Large in e.flags {
          return SmallExpected, None, 0;
        }
        var r, y, g := Descend(space, pd, 2, v, alloc, u, fd);
        if r == Absent {
          return TableNotMapped, None, 0;
        } else if r == Halted {
          return OutOfMemory, None, 0;
        }
        pt, ft := Some(y), g;
      }
      res := SplitSuccess;
    }

    /** The first step: maps the root into slot `a` and the table behind its entry into slot `b`. */
    method SplitRoot(space: nat, v: Path, alloc: bool, u: set<Flag>) returns (r: Check, a: nat, b: nat, ghost f1: nat)
      requires Inv(space) && |FreeSlots(slots)| >= 4
      modifies this`mem, this`pool, this`own, this`slots
      ensures Inv(space) && SameWalks(old(mem), mem, space) && Confined()
      ensures Large !in u && Clean(old(mem), old(own)) ==> Clean(mem, own)
      ensures r == Halted ==> alloc && pool == []
      ensures r == Absent ==> !alloc && slots == old(slots) && Walk(mem, space, 0, v) == None
      ensures r == Linked ==>
                && a < SLOTS && b < SLOTS && a != b && !IsPresent(old(slots)[a]) && !IsPresent(old(slots)[b])
                && slots == old(slots)[a := SlotFor(space)][b := SlotFor(f1)]
                && |FreeSlots(slots)| >= 2
                && Leads(mem, space, 0, f1, 1, v) && f1 in mem && f1 in own && f1 != space && space in own
      ensures r == Linked && alloc ==> space in mem && u <= mem[space][v[0]].flags
      ensures r == Linked && alloc ==> Opened(old(mem), mem, space, v, 0, 1, u)
      ensures !alloc ==> unchanged(`mem, `pool, `own)
    {
      ghost var s0 := slots;
      a := MapSlot(space);
      TakeSlot(s0, a, space);
      assert FreeSlots(slots) != {};
      r, b, f1 := Descend(space, a, 0, v, alloc, u, space);
      if r == Linked {
        LeadsOwner(mem, own, space, space, 0, f1, 1, v);
        TakeSlot(s0[a := SlotFor(space)], b, f1);
      } else if r == Absent {
        UnmapSlot(a);
        assert slots == s0;
      }
    }

    /** The first three levels: maps root, second and third table into slots `a`, `b` and `c`. */
    method SplitHigh(space: nat, v: Path, alloc: bool, u: set<Flag>)
        returns (r: Check, a: nat, b: nat, c: nat, ghost f1: nat, ghost fd: nat)
      requires Inv(space) && |FreeSlots(slots)| >= 4
      modifies this`mem, this`pool, this`own, this`slots
      ensures Inv(space) && SameWalks(old(mem), mem, space) && Confined()
      ensures Large !in u && Clean(old(mem), old(own)) ==> Clean(mem, own)
      ensures r == Halted ==> alloc && pool == []
      ensures r == Absent ==> !alloc && slots == old(slots) && Walk(mem, space, 0, v) == None
      ensures r == Linked ==> Held(old(slots), slots, a, b, c, space, f1, fd) && |FreeSlots(slots)| >= 1
      ensures r == Linked ==> Leads(mem, space, 0, fd, 2, v) && fd in mem
      ensures r == Linked && alloc ==> space in mem && u <= mem[space][v[0]].flags
      ensures r == Linked && alloc ==> Opened(old(mem), mem, space, v, 0, 2, u)
      ensures !alloc ==> unchanged(`mem, `pool, `own)
    {
      ghost var s0 := slots;
      c, fd := 0, 0;
      r, a, b, f1 := SplitRoot(space, v, alloc, u);
      if r == Linked {
        ghost var m1 := mem;
        r, c, fd := Descend(space, b, 1, v, alloc, u, f1);
        if r == Linked && alloc {
          OpenedMore(old(mem), m1, mem, space, v, 0, 1, 2, u);
        }
        if r == Absent {
          Restore2(s0, a, b, SlotFor(space), SlotFor(f1));
          UnmapSlot(a);
          UnmapSlot(b);
        }
      }
    }

    /** The window `s0` with three more slots in use. */
    static ghost predicate Held(s0: seq<Entry>, s: seq<Entry>, a: nat, b: nat, c: nat, f0: nat, f1: nat, f2: nat)
    {
      && a < |s0| && b < |s0| && c < |s0| && a != b && a != c && b != c
      && !IsPresent(s0[a]) && !IsPresent(s0[b]) && !IsPresent(s0[c])
      && s == s0[a := SlotFor(f0)][b := SlotFor(f1)][c := SlotFor(f2)]
    }

    /** The tables that a successful walk leaves mapped: the directory and, for small pages, the page table. */
    ghost predicate Reached(space: nat, v: Path, large: bool, pd: Option<nat>, pt: Option<nat>, fd: nat, ft: nat)
      reads this
    {
      && pd.Some? && Shows(pd.value, fd) && Leads(mem, space, 0, fd, 2, v) && fd in mem
      && (large ==> pt == None && !IsLink(2, mem[fd][v[2]]))
      && (!large ==> pt.Some? && pt != pd && Shows(pt.value, ft) && Leads(mem, space, 0, ft, 3, v) && ft in mem
                     && IsLink(2, mem[fd][v[2]]))
    }

    /** The window with the result slots released again. */
    static function Released(slots: seq<Entry>, pd: Option<nat>, pt: Option<nat>): seq<Entry>
    {
      var s := if pt.Some? && pt.value < |slots| then slots[pt.value := ZERO] else slots;
      if pd.Some? && pd.value < |s| then s[pd.value := ZERO] else s
    }

    /** Releases the slots of the upper tables, and on failure also that of the directory. */
    method LeaveWindow(a: nat, b: nat, c: nat, ok: bool, ghost s0: seq<Entry>, ghost f0: nat, ghost f1: nat,
        ghost fd: nat, ghost pt: Option<nat>, ghost ft: nat)
      requires WindowOk(s0) && |slots| == SLOTS
      requires pt.Some? ==> ok && pt.value < SLOTS && pt.value != a && pt.value != b && pt.value != c
      requires Held(s0, if pt.Some? then slots[pt.value := ZERO] else slots, a, b, c, f0, f1, fd)
      requires pt.Some? ==> s0[pt.value] == ZERO && slots[pt.value] == SlotFor(ft)
      modifies this`slots
      ensures WindowOk(slots)
      ensures !ok ==> slots == s0
      ensures ok ==> slots[c] == SlotFor(fd) && (pt.Some? ==> slots[pt.value] == SlotFor(ft))
      ensures ok ==> Released(slots, Some(c), pt) == s0
    {
      UnmapSlot(a);
      UnmapSlot(b);
      if !ok {
        UnmapSlot(c);
      }
      assert forall i :: 0 <= i < SLOTS && i != c && Some(i) != pt ==> slots[i] == s0[i];
      assert Released(slots, Some(c), pt) == s0;
    }

    /** The rest of the walk, with root, second and third table in slots `a`, `b` and `c`. */
    method SplitRest(space: nat, a: nat, b: nat, c: nat, v: Path, alloc: bool, large: bool, u: set<Flag>,
        ghost s0: seq<Entry>, ghost f1: nat, ghost fd: nat)
        returns (res: SplitResult, pt: Option<nat>, ghost ft: nat)
      requires Inv(space) && WindowOk(s0) && |FreeSlots(slots)| >= 1
      requires Held(s0, slots, a, b, c, space, f1, fd) && Leads(mem, space, 0, fd, 2, v) && fd in mem
      requires alloc && !large ==> Large !in u
      modifies this`mem, this`pool, this`own, this`slots
      ensures Inv(space) && SameWalks(old(mem), mem, space) && Confined() && OnlyTable(fd)
      ensures fd in old(own) && fd != space
      ensures Large !in u && Clean(old(mem), old(own)) ==> Clean(mem, own)
      ensures res == SplitSuccess ==>
                Reached(space, v, large, Some(c), pt, fd, ft) && Released(slots, Some(c), pt) == s0
      ensures res != SplitSuccess ==> slots == s0 && pt == None
      ensures res == TableNotMapped ==> !alloc && Walk(mem, space, 0, v) == None
      ensures res == SmallExpected ==> !large && Walk(mem, space, 0, v).Some? && Walk(mem, space, 0, v).value.Big?
      ensures res == LargeExpected ==> large && HasPageTable(mem, space, v)
      ensures res == LargeExpected ==> Walk(mem, space, 0, v).Some? ==> Walk(mem, space, 0, v).value.Small?
      ensures res == OutOfMemory ==> alloc && pool == []
      ensures res == SplitSuccess && !large && alloc ==> Opened(old(mem), mem, space, v, 2, 3, u)
      ensures large || res == SmallExpected ==> mem == old(mem)
      ensures !alloc ==> unchanged(`mem, `pool, `own)
    {
      LeadsOwner(mem, own, space, space, 0, fd, 2, v);
      res, pt, ft := SplitLow(space, c, v, alloc, large, u, fd);
      LeaveWindow(a, b, c, res == SplitSuccess, s0, space, f1, fd, pt, ft);
    }

    method Split(space: nat, v: Path, alloc: bool, large: bool, u: set<Flag>)
        returns (res: SplitResult, pd: Option<nat>, pt: Option<nat>, ghost fd: nat, ghost ft: nat)
      requires Inv(space) && |FreeSlots(slots)| >= 4
      requires alloc && !large ==> Large !in u
      modifies this`mem, this`pool, this`own, this`slots
      ensures Inv(space) && SameWalks(old(mem), mem, space) && Confined()
      ensures Large !in u && Clean(old(mem), old(own)) ==> Clean(mem, own)
      ensures res == SplitSuccess ==> Reached(space, v, large, pd, pt, fd, ft) && Released(slots, pd, pt) == old(slots)
      ensures res != SplitSuccess && res != OutOfMemory ==> slots == old(slots)
      ensures res == TableNotMapped ==> !alloc && Walk(mem, space, 0, v) == None
      ensures res == SmallExpected ==> !large && Walk(mem, space, 0, v).Some? && Walk(mem, space, 0, v).value.Big?
      ensures res == LargeExpected ==> large && HasPageTable(mem, space, v)
      ensures res == LargeExpected ==> Walk(mem, space, 0, v).Some? ==> Walk(mem, space, 0, v).value.Small?
      ensures res == OutOfMemory ==> alloc && pool == []
      ensures res == SplitSuccess && alloc ==> space in mem && u <= mem[space][v[0]].flags
      ensures alloc && res != OutOfMemory ==>
                Opened(old(mem), mem, space, v, 0, if res == SplitSuccess && !large then 3 else 2, u)
      ensures !alloc ==> unchanged(`mem, `pool, `own)
    {
      ghost var s0 := slots;
      pd, pt, fd, ft := None, None, 0, 0;
      var r, pml4, pdpt, y, f1, f2 := SplitHigh(space, v, alloc, u);
      if r == Linked {
        fd := f2;
        ghost var m1 := mem;
        res, pt, ft := SplitRest(space, pml4, pdpt, y, v, alloc, large, u, s0, f1, fd);
        if res == SplitSuccess && alloc && !large {
          OpenedMore(old(mem), m1, mem, space, v, 0, 2, 3, u);
        }
        pd := if res == SplitSuccess then Some(y) else None;
      } else {
        res := if r == Halted then OutOfMemory else TableNotMapped;
      }
    }

    // ---------------------------------------------------------------- map, unmap, resolve

    /** Stores `e` in entry `v[d]` of the table in slot `x`; neither the old nor the new entry is a link. */
    method PutPage(space: nat, x: nat, d: nat, v: Path, e: Entry, ghost f: nat)
      requires Inv(space) && 2 <= d < 4
      requires Shows(x, f) && Leads(mem, space, 0, f, d, v) && f in mem
      requires !IsLink(d, mem[f][v[d]]) && !IsLink(d, e) && (IsPresent(e) || e == ZERO)
      modifies this`mem
      ensures Inv(space) && PageSet(old(mem), mem, space, d, v, e)
      ensures PageSet(old(mem), old(mem), space, d, v, old(mem)[f][v[d]])
      ensures f in own && own[f] == v[..d] && mem == Put(old(mem), f, v[d], e)
      ensures OneEntry(old(mem), mem, space, v, d, e)
    {
      SetPage(mem, own, space, f, d, v, e);
      LeadsOwner(mem, own, space, space, 0, f, d, v);
      PutOneEntry(mem, own, space, f, d, v, e);
      mem := Put(mem, slots[x].frame, v[d], e);
    }

    /** Releases the result slots of a walk. */
    method Finish(pd: Option<nat>, pt: Option<nat>)
      requires |slots| == SLOTS && (pd.Some? ==> pd.value < SLOTS) && (pt.Some? ==> pt.value < SLOTS)
      modifies this`slots
      ensures slots == Released(old(slots), pd, pt)
    {
      if pt.Some? {
        UnmapSlot(pt.value);
      }
      if pd.Some? {
        UnmapSlot(pd.value);
      }
    }

    /** Translation of a page in the space. */
    function Lookup(space: nat, v: Path): Option<Leaf>
      reads this
    {
      Walk(mem, space, 0, v)
    }

    /** Nothing is mapped at `v`, and the entry at depth `d` that a page there needs is free. */
    static predicate Vacant(mem: Memory, space: nat, v: Path, d: nat)
      requires d < 4
    {
      Walk(mem, space, 0, v) == None && EntryOn(mem, space, 0, d, v) == None
    }

    static predicate IsBig(l: Option<Leaf>)
    {
      l.Some? && l.value.Big?
    }

    /** The second half of a mapping: the entry is filled unless it is in use. */
    method Fill(space: nat, v: Path, phys: nat, flags: set<Flag>, pd: nat, pt: Option<nat>, ghost fd: nat,
        ghost ft: nat, ghost m: Memory)
        returns (ok: bool)
      requires Inv(space) && Reached(space, v, Large in flags, Some(pd), pt, fd, ft)
      requires Opened(m, mem, space, v, 0, if Large in flags then 2 else 3, flags)
      modifies this`mem
      ensures Inv(space) && (forall t :: t in old(mem) && t !in own ==> t in mem && mem[t] == old(mem)[t])
      ensures ok <==> old(Lookup(space, v)) == None
      ensures var d := if Large in flags then 2 else 3;
              ok ==> && PageSet(old(mem), old(mem), space, d, v, ZERO)
                     && PageSet(old(mem), mem, space, d, v, Entry(phys, flags + {Present}))
                     && Mapped(m, mem, space, v, d, Entry(phys, flags + {Present}), flags)
      ensures !ok ==> mem == old(mem)
      ensures Clean(old(mem), own) ==> Clean(mem, own)
      ensures Large in flags ==> forall t :: t in old(mem) && t != fd ==> t in mem && mem[t] == old(mem)[t]
    {
      var d, x := if Large in flags then 2 else 3, if Large in flags then pd else pt.value;
      ghost var f := if Large in flags then fd else ft;
      LeadsWalk(mem, space, 0, f, d, v);
      LeadsOwner(mem, own, space, space, 0, f, d, v);
      if IsPresent(mem[slots[x].frame][v[d]]) {
        return false;
      }
      LeadsEntry(mem, space, 0, f, d, v, v);
      PutPage(space, x, d, v, Entry(phys, flags + {Present}), f);
      OpenedThenOne(m, old(mem), mem, space, v, d, Entry(phys, flags + {Present}), flags);
      ok := true;
    }

    /**
      Maps a page to the frame `phys`. `None` means that the physical allocator ran out of
      frames for new tables, which stops the kernel.
     */
    method MapPage(space: nat, phys: nat, v: Path, flags: set<Flag>) returns (ok: Option<bool>)
      requires Inv(space) && |FreeSlots(slots)| >= 4
      modifies this`mem, this`pool, this`own, this`slots
      ensures Inv(space) && Confined()
      ensures ok == None ==> pool == []
      ensures ok != None ==> slots == old(slots)
      ensures ok != Some(true) ==> SameWalks(old(mem), mem, space)
      ensures var d := if Large in flags then 2 else 3;
              ok == Some(true) ==> && PageSet(old(mem), old(mem), space, d, v, ZERO)
                                   && PageSet(old(mem), mem, space, d, v, Entry(phys, flags + {Present}))
                                   && Mapped(old(mem), mem, space, v, d, Entry(phys, flags + {Present}), flags)
      ensures ok == Some(false) ==> old(Lookup(space, v)).Some? || (Large in flags && HasPageTable(mem, space, v))
      ensures ok == Some(false) ==>
                var hi := if Large in flags || IsBig(old(Lookup(space, v))) then 2 else 3;
                Opened(old(mem), mem, space, v, 0, hi, flags)
      ensures Large !in flags && Clean(old(mem), old(own)) ==> Clean(mem, own)
      ensures ok == Some(true) && Large in flags ==> HardwareWalk(mem, space, 0, v) == ReservedBit
    {
      var large := Large in flags;
      var res, pd, pt, fd, ft := Split(space, v, true, large, flags);
      if res == OutOfMemory {
        return None;
      }
      if res != SplitSuccess {
        return Some(false);
      }
      LeadsOwner(mem, own, space, space, 0, fd, 2, v);
      assert EntryOk(mem, own, space, v[0]);
      var r := Fill(space, v, phys, flags, pd.value, pt, fd, ft, old(mem));
      Finish(pd, pt);
      ok := Some(r);
    }

    /** The part of unmap and resolve behind the walk: reads the entry and, if asked, clears it. */
    method TakeEntry(space: nat, v: Path, large: bool, pd: nat, pt: Option<nat>, unmap: bool, ghost fd: nat,
        ghost ft: nat)
        returns (phys: nat)
      requires Inv(space) && Reached(space, v, large, Some(pd), pt, fd, ft)
      requires large ==> IsPresent(mem[fd][v[2]])
      modifies this`mem
      ensures Inv(space)
      ensures phys == FrameOf(old(Lookup(space, v)))
      ensures !unmap ==> unchanged(`mem)
      ensures unmap ==> PageSet(old(mem), mem, space, if large then 2 else 3, v, ZERO)
      ensures unmap ==> OneEntry(old(mem), mem, space, v, if large then 2 else 3, ZERO)
      ensures Clean(old(mem), own) ==> Clean(mem, own)
      ensures forall t :: t in old(mem) && t !in own ==> t in mem && mem[t] == old(mem)[t]
    {
      var big := Large in mem[slots[pd].frame][v[2]].flags;
      var d, x := if big then 2 else 3, if big then pd else pt.value;
      ghost var f := if large then fd else ft;
      LeadsWalk(mem, space, 0, f, d, v);
      LeadsOwner(mem, own, space, space, 0, f, d, v);
      assert EntryOk(mem, own, f, v[d]);
      phys := mem[slots[x].frame][v[d]].frame;
      if unmap {
        PutPage(space, x, d, v, ZERO, f);
      }
    }

    /** The frame of a translation, and 0 when there is none. */
    static function FrameOf(l: Option<Leaf>): nat
    {
      if l == None then 0 else l.value.entry.frame
    }

    /** Depth of the entry that translates `v`. */
    static function LeafDepth(l: Option<Leaf>): nat
    {
      if l.Some? && l.value.Big? then 2 else 3
    }

    /** The walk of unmap and resolve: a large page is met by asking a second time. */
    method Locate(space: nat, v: Path)
        returns (found: bool, large: bool, pd: Option<nat>, pt: Option<nat>, ghost fd: nat, ghost ft: nat)
      requires Inv(space) && |FreeSlots(slots)| >= 4
      modifies this`mem, this`slots, this`pool, this`own
      ensures Inv(space) && unchanged(`mem, `pool, `own)
      ensures !found ==> slots == old(slots) && Walk(mem, space, 0, v) == None
      ensures found ==> Reached(space, v, large, pd, pt, fd, ft) && Released(slots, pd, pt) == old(slots)
      ensures found && large ==> IsPresent(mem[fd][v[2]]) && LeafDepth(Walk(mem, space, 0, v)) == 2
      ensures found && !large ==> LeafDepth(Walk(mem, space, 0, v)) == 3
    {
      large := false;
      var res;
      res, pd, pt, fd, ft := Split(space, v, false, false, {});
      if res == TableNotMapped {
        return false, false, None, None, 0, 0;
      }
      if res == SmallExpected {
        large := true;
        res, pd, pt, fd, ft := Split(space, v, false, true, {});
        assert res == SplitSuccess;
        LeadsWalk(mem, space, 0, fd, 2, v);
      } else {
        LeadsWalk(mem, space, 0, ft, 3, v);
      }
      found := true;
    }

    method FindUnmap(space: nat, v: Path, unmap: bool) returns (phys: nat)
      requires Inv(space) && |FreeSlots(slots)| >= 4
      modifies this`mem, this`slots, this`pool, this`own
      ensures Inv(space) && slots == old(slots) && unchanged(`pool, `own)
      ensures phys == FrameOf(old(Lookup(space, v)))
      ensures !unmap ==> unchanged(`mem)
      ensures unmap ==> PageSet(old(mem), mem, space, LeafDepth(old(Lookup(space, v))), v, ZERO)
      ensures unmap ==> OneEntry(old(mem), mem, space, v, LeafDepth(old(Lookup(space, v))), ZERO)
      ensures Clean(old(mem), own) ==> Clean(mem, own)
      ensures forall t :: t in old(mem) && t !in own ==> t in mem && mem[t] == old(mem)[t]
    {
      var found, large, pd, pt, fd, ft := Locate(space, v);
      if !found {
        NoneEntry(mem, space, 3, v);
        return 0;
      }
      phys := TakeEntry(space, v, large, pd.value, pt, unmap, fd, ft);
      Finish(pd, pt);
    }

    // ---------------------------------------------------------------- the interface, on addresses

    /**
      On success the page of `virt` was not mapped and now translates to `phys`; every other
      address keeps its translation. On failure no translation changes.
     */
    method Map(space: nat, phys: nat, virt: nat, flags: set<Flag>) returns (ok: Option<bool>)
      requires Inv(space) && |FreeSlots(slots)| >= 4
      modifies this`mem, this`pool, this`own, this`slots
      ensures Inv(space) && Confined()
      ensures ok == None ==> pool == []
      ensures ok != None ==> slots == old(slots)
      ensures ok != Some(true) ==> forall w: nat :: Translate(mem, space, w) == old(Translate(mem, space, w))
      ensures ok == Some(true) && Large !in flags ==>
                && old(Translate(mem, space, virt)) == None
                && OnlyPage(old(mem), mem, space, 3, virt, Some(Small(Entry(phys, flags + {Present}))))
      ensures ok == Some(true) && Large in flags ==>
                && OnlyPage(old(mem), old(mem), space, 2, virt, None)
                && OnlyPage(old(mem), mem, space, 2, virt, Some(Big(Entry(phys, flags + {Present}))))
      ensures ok == Some(true) ==>
                Mapped(old(mem), mem, space, Indices(virt), if Large in flags then 2 else 3,
                       Entry(phys, flags + {Present}), flags)
      ensures ok == Some(false) ==>
                Opened(old(mem), mem, space, Indices(virt), 0,
                       if Large in flags || IsBig(old(Translate(mem, space, virt))) then 2 else 3, flags)
      ensures ok.Some? ==> (ok.value <==> Vacant(old(mem), space, Indices(virt), if Large in flags then 2 else 3))
      ensures Large !in flags && Clean(old(mem), old(own)) ==> Clean(mem, own)
      ensures ok == Some(true) && Large in flags ==> HardwareWalk(mem, space, 0, Indices(virt)) == ReservedBit
    {
      ok := MapPage(space, phys, Indices(virt), flags);
      ghost var d := if Large in flags then 2 else 3;
      if ok == Some(true) {
        PageSetAddresses(old(mem), old(mem), space, d, virt, ZERO);
        PageSetAddresses(old(mem), mem, space, d, virt, Entry(phys, flags + {Present}));
      } else if ok == Some(false) && Large in flags {
        ThirdTaken(old(mem), mem, space, Indices(virt), d, flags);
      }
      assert ok.Some? ==> ok == if ok.value then Some(true) else Some(false);
    }

    /** Removes the page of `virt`, small or large, and returns its frame, or 0. */
    method Unmap(space: nat, virt: nat) returns (phys: nat)
      requires Inv(space) && |FreeSlots(slots)| >= 4
      modifies this`mem, this`pool, this`own, this`slots
      ensures Inv(space) && slots == old(slots) && unchanged(`pool, `own)
      ensures match old(Translate(mem, space, virt))
              case None => phys == 0 && OnlyPage(old(mem), mem, space, 3, virt, None)
                           && OneEntry(old(mem), mem, space, Indices(virt), 3, ZERO)
              case Some(Small(e)) => phys == e.frame && OnlyPage(old(mem), mem, space, 3, virt, None)
                                     && OneEntry(old(mem), mem, space, Indices(virt), 3, ZERO)
              case Some(Big(e)) => phys == e.frame && OnlyPage(old(mem), mem, space, 2, virt, None)
                                   && OneEntry(old(mem), mem, space, Indices(virt), 2, ZERO)
      ensures Clean(old(mem), own) ==> Clean(mem, own)
      ensures forall t :: t in old(mem) && t !in own ==> t in mem && mem[t] == old(mem)[t]
    {
      phys := FindUnmap(space, Indices(virt), true);
      PageSetAddresses(old(mem), mem, space, LeafDepth(old(Translate(mem, space, virt))), virt, ZERO);
    }

    /** Unmapping a page straight after mapping it gives its frame back and restores every translation. */
    method MapAndUnmap(space: nat, phys: nat, virt: nat, flags: set<Flag>) returns (ok: Option<bool>, back: nat)
      requires Inv(space) && |FreeSlots(slots)| >= 4
      modifies this`mem, this`pool, this`own, this`slots
      ensures ok == Some(true) ==> Inv(space) && slots == old(slots) && back == phys
      ensures ok == Some(true) ==> forall w: nat :: Translate(mem, space, w) == old(Translate(mem, space, w))
    {
      back := 0;
      ghost var m := mem;
      ok := Map(space, phys, virt, flags);
      if ok == Some(true) {
        ghost var e := Entry(phys, flags + {Present});
        ghost var d, leaf := if Large in flags then 2 else 3, if Large in flags then Big(e) else Small(e);
        ghost var m1 := mem;
        WasUnmapped(m, space, d, virt);
        back := Unmap(space, virt);
        UnmapRestores(m, m1, mem, space, d, virt, leaf);
      }
    }

    /** Reads the translation of `virt`: the frame of its page, or 0. */
    method Resolve(space: nat, virt: nat) returns (phys: nat)
      requires Inv(space) && |FreeSlots(slots)| >= 4
      modifies this`mem, this`pool, this`own, this`slots
      ensures Inv(space) && slots == old(slots) && unchanged(`mem, `pool, `own)
      ensures match Translate(mem, space, virt)
              case None => phys == 0
              case Some(Small(e)) => phys == e.frame
              case Some(Big(e)) => phys == e.frame
    {
      phys := FindUnmap(space, Indices(virt), false);
    }

    // ---------------------------------------------------------------- destroying a space

    /** Table `f` at depth `d`, shown in slot `x`, is worked through. `m` is the memory at the start. */
    ghost predicate Clobbering(x: nat, d: nat, f: nat, m: Memory, space: nat)
      reads this
    {
      && d < 4 && WindowOk(slots) && |FreeSlots(slots)| >= 3 - d
      && Tree(m, own, space) && SharedPlaced(m, own, shared, space)
      && f in own && |own[f]| == d && (d == 0 ==> f == space) && !Protected(own, shared, f)
      && Shows(x, f)
    }

    /** Frees what the table in slot `x` leads to, and marks its entries as not present. */
    method ClobberTable(x: nat, d: nat, ghost f: nat, ghost m: Memory, ghost space: nat)
      requires Clobbering(x, d, f, m, space) && f in mem && IntactBelow(mem, m, own, own[f])
      modifies this`mem, this`slots, this`freed
      ensures slots == old(slots)
      ensures freed == old(freed) + Calls(Releases(m, shared, f, d, own[f], 0))
      ensures ConfinedTo(old(mem), mem, own, shared, own[f])
      ensures f in mem && forall j :: 0 <= j < ENTRIES ==> Done(mem[f][j], m[f][j], shared, d)
      decreases 4 - d, 1
    {
      ProgressStart(mem, m, own, shared, f, d);
      if d == 2 && mem[slots[x].frame][0].frame == shared.low {
        mem := Put(mem, slots[x].frame, 0, ZERO);
        mem := Put(mem, slots[x].frame, 1, ZERO);
      }
      ghost var m1 := mem;
      ClobberEntries(x, d, f, m, space);
      ConfinedTrans(old(mem), m1, mem, own, shared, own[f]);
    }

    method ClobberEntries(x: nat, d: nat, ghost f: nat, ghost m: Memory, ghost space: nat)
      requires Clobbering(x, d, f, m, space) && Progress(mem, m, own, shared, f, d, 0)
      modifies this`mem, this`slots, this`freed
      ensures slots == old(slots)
      ensures freed == old(freed) + Calls(Releases(m, shared, f, d, own[f], 0))
      ensures ConfinedTo(old(mem), mem, own, shared, own[f])
      ensures f in mem && forall j :: 0 <= j < ENTRIES ==> Done(mem[f][j], m[f][j], shared, d)
      decreases 4 - d, 0, 1
    {
      var i := 0;
      ghost var left := Calls(Releases(m, shared, f, d, own[f], 0));
      ghost var goal := freed + left;
      while i < ENTRIES
        invariant i <= ENTRIES && slots == old(slots)
        invariant Progress(mem, m, own, shared, f, d, i)
        invariant ConfinedTo(old(mem), mem, own, shared, own[f])
        invariant left == Calls(Releases(m, shared, f, d, own[f], i)) && freed + left == goal
      {
        ghost var before := freed;
        ghost var here := ClobberEntry(x, d, i, f, m, space);
        left := CallsNext(m, shared, f, d, own[f], i, before, here, left);
        i := i + 1;
      }
      assert left == [];
    }

    method ClobberEntry(x: nat, d: nat, i: nat, ghost f: nat, ghost m: Memory, ghost space: nat)
        returns (ghost here: seq<FreeCall>)
      requires Clobbering(x, d, f, m, space) && i < ENTRIES
      requires Progress(mem, m, own, shared, f, d, i)
      modifies this`mem, this`slots, this`freed
      ensures slots == old(slots)
      ensures Progress(mem, m, own, shared, f, d, i + 1)
      ensures ConfinedTo(old(mem), mem, own, shared, own[f])
      ensures here == HereCalls(m, shared, f, d, own[f], i) && freed == old(freed) + here
      decreases 4 - d, 0, 0, 2
    {
      here := HereCalls(m, shared, f, d, own[f], i);
      var e := mem[slots[x].frame][i];
      if !IsPresent(e) || (d == 0 && e.frame == shared.kernel) {
        ProgressNext(mem, mem, m, own, shared, f, d, i, e);
        return;
      }
      ghost var m1 := mem;
      ClobberBelow(x, d, i, f, m, space, e);
      ghost var cleared := Entry(e.frame, e.flags - {Present});
      ProgressNext(m1, mem, m, own, shared, f, d, i, cleared);
      freed := freed + [FreeCall(e.frame, 1)];
      mem := Put(mem, slots[x].frame, i, Entry(e.frame, e.flags - {Present}));
    }

    /** The part of a present entry's work that comes before its own frame is freed. */
    method ClobberBelow(x: nat, d: nat, i: nat, ghost f: nat, ghost m: Memory, ghost space: nat, e: Entry)
      requires Clobbering(x, d, f, m, space) && i < ENTRIES
      requires Progress(mem, m, own, shared, f, d, i) && e == mem[f][i]
      requires !Skipped(m, shared, f, d, i) && e == m[f][i]
      modifies this`mem, this`slots, this`freed
      ensures slots == old(slots)
      ensures f in mem && mem[f] == old(mem)[f]
      ensures ConfinedTo(old(mem), mem, own, shared, own[f] + [i])
      ensures freed + [FreeCall(e.frame, 1)] == old(freed) + Calls(EntryReleases(m, shared, e, d, own[f] + [i]))
      decreases 4 - d, 0, 0, 1
    {
      EntryCalls(m, shared, e, d, own[f] + [i]);
      if d == 2 && Large in e.flags {
        freed := freed + [FreeCall(e.frame, ENTRIES)];
      } else if d < 3 {
        ClobberChild(x, d, i, f, m, space, e);
      }
    }

    method ClobberChild(x: nat, d: nat, i: nat, ghost f: nat, ghost m: Memory, ghost space: nat, e: Entry)
      requires Clobbering(x, d, f, m, space) && i < ENTRIES && d < 3
      requires Progress(mem, m, own, shared, f, d, i)
      requires !Skipped(m, shared, f, d, i) && e == m[f][i] && IsLink(d, e)
      modifies this`mem, this`slots, this`freed
      ensures slots == old(slots)
      ensures f in mem && mem[f] == old(mem)[f]
      ensures ConfinedTo(old(mem), mem, own, shared, own[f] + [i])
      ensures freed == old(freed) + Calls(Releases(m, shared, e.frame, d + 1, own[f] + [i], 0))
      decreases 4 - d, 0, 0, 0
    {
      assert EntryOk(m, own, f, i);
      ChildUnprotected(m, own, shared, space, f, i, e.frame);
      PendingIntact(mem, m, own, shared, f, d, i);
      ghost var s0 := slots;
      var y := MapSlot(e.frame);
      TakeSlot(s0, y, e.frame);
      Restore1(s0, y, SlotFor(e.frame));
      ClobberTable(y, d + 1, e.frame, m, space);
      UnmapSlot(y);
    }

    method ClobberRoot(x: nat, d: nat, ghost space: nat)
      requires d == 0 && Clobbering(x, d, space, mem, space) && space in mem
      modifies this`mem, this`slots, this`freed
      ensures slots == old(slots)
      ensures freed == old(freed) + Calls(AllReleases(old(mem), shared, space))
      ensures ConfinedTo(old(mem), mem, own, shared, [])
      ensures space in mem && forall j :: 0 <= j < ENTRIES ==> Done(mem[space][j], old(mem)[space][j], shared, d)
    {
      assert own[space] == [];
      AllReleasesIs(mem, shared, space, own[space], d, 0);
      ClobberTable(x, d, space, mem, space);
    }

    /** Works through the root table of a space, mapped into a slot. */
    method ClobberAll(space: nat)
      requires Inv(space) && |FreeSlots(slots)| >= 4 && SharedPlaced(mem, own, shared, space)
      modifies this`mem, this`slots, this`freed
      ensures slots == old(slots)
      ensures freed == old(freed) + Calls(AllReleases(old(mem), shared, space))
      ensures ConfinedTo(old(mem), mem, own, shared, [])
      ensures space in mem && forall j :: 0 <= j < ENTRIES ==> Done(mem[space][j], old(mem)[space][j], shared, 0)
    {
      ghost var s0 := slots;
      var x := MapSlot(space);
      TakeSlot(s0, x, space);
      Restore1(s0, x, SlotFor(space));
      ClobberRoot(x, 0, space);
      UnmapSlot(x);
    }

    /** Destroys all mappings and tables of a space, except those it shares with every other space. */
    method ClobberSpace(space: nat)
      requires Inv(space) && |FreeSlots(slots)| >= 4 && SharedPlaced(mem, own, shared, space)
      modifies this`mem, this`slots, this`freed
      ensures slots == old(slots)
      ensures freed == old(freed) + Calls(AllReleases(old(mem), shared, space))
      ensures mem.Keys == old(mem).Keys && forall t :: t in mem && t !in own ==> mem[t] == old(mem)[t]
      ensures forall t, r :: (t in mem && t in own && r in own && (r == shared.kernel || r == shared.low)
                              && own[r] <= own[t]) ==> mem[t] == old(mem)[t]
      ensures space in mem && forall j :: 0 <= j < ENTRIES ==>
                var e := mem[space][j];
                !IsPresent(e) || (e == old(mem)[space][j] && e.frame == shared.kernel)
      ensures forall v: Path :: Unshared(old(mem), shared, space, v) ==>
                match Walk(old(mem), space, 0, v)
                case None => true
                case Some(Small(e)) => FreeCall(e.frame, 1) in freed
                case Some(Big(e)) => FreeCall(e.frame, ENTRIES) in freed
    {
      ghost var m := mem;
      ClobberAll(space);
      PagesGiven(m, shared, space, Calls(AllReleases(m, shared, space)));
    }
  }
}
