/**
  The stack allocator (src/stka.c): stacks are handed out from the top of a region downwards, each with
  room to grow and a page between it and the next. Addresses are 64-bit words; `works` tells for which
  addresses a page can be had and mapped.
 */
module Stacks {

  const PAGE := 0x1000
  const INITIAL := 2 * PAGE
  const FIXED := 4 * PAGE
  const ROOM := 256 * PAGE
  const WORDS := 0x1_0000_0000_0000_0000

  predicate Word(x: int)
  {
    0 <= x < WORDS
  }

  predicate Aligned(x: int)
  {
    x % PAGE == 0
  }

  function Minus(a: nat, b: nat): (r: nat)
    requires Word(a) && Word(b)
    ensures Word(r)
  {
    if a >= b then a - b else a - b + WORDS
  }

  function Down(x: nat): (r: nat)
    ensures r <= x < r + PAGE && Aligned(r)
  {
    x - x % PAGE
  }

  /** Rounding up wraps around at the end of the address space. */
  function Up(x: nat): nat
    requires Word(x)
  {
    Down((x + PAGE - 1) % WORDS)
  }

  class Stack {
    const top: nat
    const guard: nat
    var mapped: nat

    constructor (t: nat, g: nat)
      ensures top == t && guard == g && mapped == t
    {
      top, guard, mapped := t, g, t;
    }

    /** The mapped part lies between guard and top, in whole pages. */
    ghost predicate Valid()
      reads this
    {
      guard <= mapped <= top < WORDS && Aligned(guard) && Aligned(mapped) && Aligned(top)
    }
  }

  ghost predicate AllMapped(pages: set<nat>, lo: nat, hi: nat)
  {
    forall a :: lo <= a < hi && Aligned(a) ==> a in pages
  }

  /** The pages that have been added are borders of pages from `lo` up to `hi`. */
  ghost predicate NewWithin(was: set<nat>, pages: set<nat>, lo: nat, hi: nat)
  {
    forall a :: a in pages && a !in was ==> lo <= a < hi && a % PAGE == 0
  }

  ghost predicate AllWork(works: nat -> bool, lo: nat, hi: nat)
  {
    forall a :: lo <= a < hi && Aligned(a) ==> works(a)
  }

  // ------------------------------------------------------------------ how far a fault grows a stack

  /** The new end of the mapped part: the growth is rounded up in words that wrap around. */
  function Grown(mapped: nat, fault: nat): nat
    requires Word(mapped) && Word(fault)
  {
    Minus(mapped, Up(Minus(mapped, fault)))
  }

  /** A fault below the mapped part moves its end to the page of the fault. */
  lemma {:induction false} GrownBelow(mapped: nat, fault: nat)
    requires Word(mapped) && Aligned(mapped) && fault < mapped
    ensures Grown(mapped, fault) == Down(fault)
    ensures Up(Minus(mapped, fault)) == mapped - Down(fault)
  {
    var d := mapped - fault;
    assert Minus(mapped, fault) == d;
    assert (d + PAGE - 1) % WORDS == d + PAGE - 1;
    assert d + PAGE - 1 == mapped - Down(fault) + (PAGE - 1 - fault % PAGE);
    DownMultiple(mapped - Down(fault), PAGE - 1 - fault % PAGE);
  }

  lemma {:induction false} DownMultiple(x: nat, r: nat)
    requires Aligned(x) && r < PAGE
    ensures Down(x + r) == x
  {
  }

  lemma {:induction false} UpWrapped(d: nat)
    requires 0 < d < WORDS
    ensures Up(WORDS - d) == if d < PAGE then 0 else WORDS - Down(d)
  {
    var x := WORDS - d;
    if d < PAGE {
      assert (x + PAGE - 1) % WORDS == PAGE - 1 - d;
    } else {
      assert (x + PAGE - 1) % WORDS == x + PAGE - 1;
      assert x + PAGE - 1 == (WORDS - Down(d)) + (PAGE - 1 - d % PAGE);
      DownMultiple(WORDS - Down(d), PAGE - 1 - d % PAGE);
    }
  }

  /** A fault inside the mapped part moves its end up to the last page border below the fault. */
  lemma {:induction false} GrownAbove(mapped: nat, fault: nat)
    requires Word(fault) && Aligned(mapped) && mapped <= fault
    ensures Grown(mapped, fault) == Down(fault)
    ensures Grown(mapped, fault) > mapped <==> fault >= mapped + PAGE
  {
    var d := fault - mapped;
    DownSum(mapped, d);
    assert d < PAGE ==> Down(d) == 0;
    if d == 0 {
      assert Minus(mapped, fault) == 0 && Up(0) == 0;
    } else {
      assert Minus(mapped, fault) == WORDS - d;
      UpWrapped(d);
      assert d >= PAGE ==> Minus(mapped, WORDS - Down(d)) == mapped + Down(d);
    }
  }

  lemma {:induction false} DownSum(x: nat, d: nat)
    requires Aligned(x)
    ensures Down(x + d) == x + Down(d)
  {
    DownMultiple(x + Down(d), d % PAGE);
  }

  // ------------------------------------------------------------------ the allocator

  /** A stack further down the list lies below, with at least a page in between. */
  ghost predicate Below(s: Stack, t: Stack)
  {
    s.top + PAGE <= t.guard
  }

  ghost predicate Descending(ss: seq<Stack>)
  {
    forall i, j :: 0 <= i < j < |ss| ==> Below(ss[j], ss[i])
  }

  ghost predicate Committed(s: Stack, pages: set<nat>)
    reads s
  {
    s.Valid() && AllMapped(pages, s.mapped, s.top)
  }

  class Allocator {
    const bottom: nat
    const top: nat
    const fixed: bool
    var next: nat
    var stacks: seq<Stack>
    var pages: set<nat>

    /**
      The reserved ranges of all stacks are disjoint with a page between any two, everything above `next`
      is taken, and the mapped part of every stack really is mapped.
     */
    ghost predicate Valid()
      reads this, stacks
    {
      && ROOM + PAGE <= bottom && Word(next) && Aligned(next)
      && Descending(stacks) && (forall i :: 0 <= i < |stacks| ==> next + PAGE <= stacks[i].guard)
      && forall i :: 0 <= i < |stacks| ==> Committed(stacks[i], pages)
    }

    constructor (low: nat, high: nat, fix: bool)
      requires ROOM + PAGE <= low && Word(high) && Aligned(high)
      ensures Valid() && bottom == low && top == high && fixed == fix && next == high && stacks == [] && pages == {}
    {
      bottom, top, fixed, next, stacks, pages := low, high, fix, high, [], {};
    }

    function Size(): nat
    {
      if fixed then FIXED else ROOM
    }

    /** Maps `amount` more bytes below the mapped part. Pages mapped before a failure stay mapped. */
    method Grow(s: Stack, amount: nat, works: nat -> bool) returns (ok: bool)
      requires s.Valid() && Word(amount)
      modifies `pages, s`mapped
      ensures var low := Minus(old(s.mapped), amount);
              && (ok <==> Aligned(amount) && s.guard <= low && AllWork(works, low, old(s.mapped)))
              && (ok ==> s.mapped == low && AllMapped(pages, low, old(s.mapped)))
      ensures !ok ==> s.mapped == old(s.mapped)
      ensures old(pages) <= pages && (Aligned(amount) ==> Aligned(s.mapped))
      ensures NewWithin(old(pages), pages, Minus(old(s.mapped), amount), old(s.mapped))
    {
      if amount % PAGE != 0 {
        return false;
      }
      var low := Minus(s.mapped, amount);
      if low < s.guard {
        return false;
      }
      var i := low;
      while i < s.mapped
        invariant low <= i && Aligned(i) && s.mapped == old(s.mapped) && old(pages) <= pages
        invariant AllWork(works, low, i) && AllMapped(pages, low, i) && NewWithin(old(pages), pages, low, s.mapped)
      {
        if !works(i) {
          return false;
        }
        pages := pages + {i};
        NextPage(i);
        i := i + PAGE;
      }
      s.mapped := low;
      ok := true;
    }

    /** The stack below `next`, with its initial pages mapped when that works. */
    method NewStack(works: nat -> bool) returns (s: Stack)
      requires ROOM + PAGE <= bottom < next && Word(next) && Aligned(next)
      modifies `pages
      ensures fresh(s) && Committed(s, pages) && s.top == next && s.guard == s.top - Size()
      ensures var low := s.top - (if fixed then FIXED else INITIAL);
              s.mapped == if AllWork(works, low, s.top) then low else s.top
      ensures old(pages) <= pages && NewWithin(old(pages), pages, s.guard, s.top)
    {
      s := new Stack(next, Minus(next, Size()));
      var _ := Grow(s, if fixed then FIXED else INITIAL, works);
    }

    /**
      A new stack below all others, or none when the initial pages would not fit. The room to grow may
      reach below the region: only the initial pages are compared with its bottom.
     */
    method Alloc(works: nat -> bool) returns (s: Stack?)
      requires Valid()
      modifies this
      ensures Valid()
      ensures s == null <==> old(next) <= bottom || old(next) - INITIAL < bottom
      ensures s == null ==> stacks == old(stacks) && next == old(next) && pages == old(pages)
      ensures s != null ==> && fresh(s) && stacks == old(stacks) + [s] && next == s.guard - PAGE
                            && s.top == old(next) && s.guard == s.top - Size()
                            && (s.guard >= bottom <==> old(next) >= bottom + Size())
                            && var low := s.top - (if fixed then FIXED else INITIAL);
                               s.mapped == if AllWork(works, low, s.top) then low else s.top
      ensures s != null ==> NewWithin(old(pages), pages, s.guard, s.top)
    {
      if next <= bottom || Minus(next, INITIAL) < bottom {
        return null;
      }
      s := NewStack(works);
      forall i | 0 <= i < |stacks|
        ensures Committed(stacks[i], pages)
      {
        assert old(Committed(stacks[i], pages));
      }
      next := Minus(s.guard, PAGE);
      stacks := stacks + [s];
    }

    /** Moves the end of the mapped part to the page of a fault between guard and top. */
    method GrowTo(s: Stack, fault: nat, works: nat -> bool) returns (ok: bool)
      requires Committed(s, pages) && s.guard < fault < s.top && Word(fault)
      modifies `pages, s`mapped
      ensures Committed(s, pages) && old(pages) <= pages && NewWithin(old(pages), pages, s.guard, old(s.mapped))
      ensures ok <==> AllWork(works, Down(fault), old(s.mapped))
      ensures ok ==> s.mapped == Down(fault)
      ensures s.mapped > old(s.mapped) <==> old(s.mapped) + PAGE <= fault
      ensures !ok ==> s.mapped == old(s.mapped)
    {
      ghost var m := s.mapped;
      if fault < m {
        GrownBelow(m, fault);
      } else {
        GrownAbove(m, fault);
      }
      DownAbove(fault, s.guard);
      ok := Grow(s, Up(Minus(s.mapped, fault)), works);
    }

    /**
      A fault between guard and top maps everything down to the page of the fault. Below the mapped part it is
      never refused for want of room; inside it, a page or more above its lower end, it moves that end up.
     */
    method PageFault(s: Stack, fault: nat, works: nat -> bool) returns (ok: bool)
      requires Valid() && s in stacks && Word(fault)
      modifies `pages, s`mapped
      ensures Valid()
      ensures fault <= s.guard || fault >= s.top ==> !ok
      ensures s.guard < fault < s.top ==> (ok <==> AllWork(works, Down(fault), old(s.mapped)))
      ensures ok ==> s.guard <= s.mapped <= fault < s.mapped + PAGE && s.mapped % PAGE == 0
      ensures ok ==> AllMapped(pages, s.mapped, s.top)
      ensures old(pages) <= pages && NewWithin(old(pages), pages, s.guard, old(s.mapped))
      ensures s.mapped > old(s.mapped) <==> old(s.mapped) + PAGE <= fault < s.top
      ensures !ok ==> s.mapped == old(s.mapped)
    {
      if fault <= s.guard || fault >= s.top {
        return false;
      }
      assert Committed(stacks[Index(stacks, s)], pages);
      ok := GrowTo(s, fault, works);
      forall i | 0 <= i < |stacks|
        ensures Committed(stacks[i], pages)
      {
        assert old(Committed(stacks[i], pages));
      }
    }

    /** Unmaps the mapped part of a stack. */
    method UnmapPages(s: Stack)
      requires s.Valid()
      modifies `pages
      ensures Unmapped(old(pages), pages, s.mapped, s.top)
    {
      var m := s.mapped;
      while m < s.top
        invariant s.mapped <= m <= s.top && Aligned(m)
        invariant Unmapped(old(pages), pages, s.mapped, m)
      {
        NextPage(m);
        pages := pages - {m};
        m := m + PAGE;
      }
    }

    /** Takes the mapped part's pages back and drops the stack; its range is not used again. */
    method Free(s: Stack)
      requires Valid() && s in stacks
      modifies `pages, `stacks
      ensures Valid() && Unmapped(old(pages), pages, s.mapped, s.top)
      ensures exists k :: 0 <= k < |old(stacks)| && old(stacks)[k] == s && stacks == Cut(old(stacks), k)
    {
      ghost var k, ss, was := Index(stacks, s), stacks, pages;
      assert Committed(ss[k], was);
      UnmapPages(s);
      var i := 0;
      while stacks[i] != s
        invariant 0 <= i <= k && stacks == ss
        decreases k - i
      {
        i := i + 1;
      }
      OthersCommitted(ss, i, was, pages);
      stacks := Cut(stacks, i);
    }
  }

  function Cut(ss: seq<Stack>, k: nat): seq<Stack>
    requires k < |ss|
  {
    ss[..k] + ss[k + 1..]
  }

  /** Unmapping one stack leaves the others mapped and apart. */
  lemma {:induction false} OthersCommitted(ss: seq<Stack>, k: nat, was: set<nat>, pages: set<nat>)
    requires k < |ss| && Descending(ss) && Unmapped(was, pages, ss[k].mapped, ss[k].top)
    requires forall i :: 0 <= i < |ss| ==> Committed(ss[i], was)
    ensures Descending(Cut(ss, k))
    ensures forall i :: 0 <= i < |ss| - 1 ==> Committed(Cut(ss, k)[i], pages)
  {
    var r := Cut(ss, k);
    forall i | 0 <= i < |r|
      ensures Committed(r[i], pages)
    {
      var l := if i < k then i else i + 1;
      assert Committed(ss[l], was) && Committed(ss[k], was) && (Below(ss[l], ss[k]) || Below(ss[k], ss[l]));
    }
    forall i, j | 0 <= i < j < |r|
      ensures Below(r[j], r[i])
    {
      assert Below(ss[if j < k then j else j + 1], ss[if i < k then i else i + 1]);
    }
  }

  /** The pages from `lo` on are no longer mapped. */
  ghost predicate Unmapped(was: set<nat>, pages: set<nat>, lo: nat, hi: nat)
  {
    forall a :: a in pages <==> a in was && !(lo <= a < hi && Aligned(a))
  }

  ghost function Index(ss: seq<Stack>, s: Stack): (k: nat)
    requires s in ss
    ensures k < |ss| && ss[k] == s
  {
    var k :| 0 <= k < |ss| && ss[k] == s;
    k
  }

  lemma {:induction false} DownAbove(x: nat, g: nat)
    requires Aligned(g) && g <= x
    ensures g <= Down(x)
  {
  }

  /** Between two page borders there is no third. */
  lemma {:induction false} NextPage(i: nat)
    requires Aligned(i)
    ensures forall a :: i <= a < i + PAGE && Aligned(a) ==> a == i
  {
  }
}
