/**
  The physical page allocator (src/pmem.c) over the list of regions. A region is known by the number of
  its first page; each critical section is one step.
 */
module PhysMem {
  import opened Options
  import opened Bitmaps
  import opened PhysZones

  const PAGE := 0x1000

  /** Pages needed for so many bytes: enough, and not one more. */
  function Pages(length: nat): (n: nat)
    ensures n * PAGE >= length
    ensures n > 0 ==> (n - 1) * PAGE < length
  {
    (length + PAGE - 1) / PAGE
  }

  /** The page at byte `p * PAGE` is one of those at `addr` exactly when it starts within the bytes asked for. */
  lemma {:induction false} PageBytes(addr: nat, length: nat, p: nat)
    requires addr % PAGE == 0
    ensures addr / PAGE <= p < addr / PAGE + Pages(length) <==> addr <= p * PAGE < addr + length
    ensures Pages(addr + length) == addr / PAGE + Pages(length)
  {
    var a, n := addr / PAGE, Pages(length);
    assert addr == a * PAGE;
    assert p < a + n ==> p * PAGE <= (a + n - 1) * PAGE;
    assert p >= a + n ==> p * PAGE >= (a + n) * PAGE;
  }

  datatype Region = Region(first: nat, bmap: Bitmap)

  ghost function Cells(rs: seq<Region>): set<object>
  {
    (set i | 0 <= i < |rs| :: rs[i].bmap as object) + (set i | 0 <= i < |rs| :: rs[i].bmap.bits as object)
  }

  ghost predicate Distinct(q: Region, r: Region)
  {
    q.bmap != r.bmap && q.bmap.bits != r.bmap.bits
  }

  /** No bitmap and no storage serves two regions. */
  ghost predicate Unshared(rs: seq<Region>)
  {
    forall i, j {:trigger Distinct(rs[i], rs[j])} :: 0 <= i < j < |rs| ==> Distinct(rs[i], rs[j])
  }

  lemma {:induction false} OthersDistinct(rs: seq<Region>, i: nat)
    requires Unshared(rs) && i < |rs|
    ensures forall j :: 0 <= j < |rs| && j != i ==> Distinct(rs[j], rs[i])
  {
    forall j | 0 <= j < |rs| && j != i
      ensures Distinct(rs[j], rs[i])
    {
      assert if i < j then Distinct(rs[i], rs[j]) else Distinct(rs[j], rs[i]);
    }
  }

  /** The region shows these bits and this hint. */
  ghost predicate Shows(r: Region, z: Zone, h: nat)
    reads r.bmap, r.bmap.bits
  {
    r.first == z.first && r.bmap.bits[..] == z.bits && r.bmap.hint == h
  }

  ghost predicate AllShow(rs: seq<Region>, zs: seq<Zone>, hs: seq<nat>)
    reads Cells(rs)
  {
    |rs| == |zs| == |hs| && forall i :: 0 <= i < |rs| ==> Shows(rs[i], zs[i], hs[i])
  }

  /** Every count of set bits is right. */
  ghost predicate AllCounted(rs: seq<Region>, zs: seq<Zone>)
    reads Cells(rs)
  {
    |rs| == |zs| && forall i :: 0 <= i < |rs| ==> rs[i].bmap.setCnt == Count(zs[i].bits)
  }

  ghost predicate Sound(rs: seq<Region>, zs: seq<Zone>, hs: seq<nat>)
    reads Cells(rs)
  {
    Unshared(rs) && AllShow(rs, zs, hs) && AllCounted(rs, zs) && Disjoint(zs)
  }

  // ------------------------------------------------------------------ when a search succeeds

  /** No run of `n` free pages that leaves out the last page of the region. */
  ghost predicate NoRoom(s: seq<bool>, n: nat)
  {
    forall lo: nat :: RunAt(s, false, lo, n) ==> n == 0 || lo + n >= |s|
  }

  /**
    What a pass leaves behind when it finds no room for `n` pages in a region: there is none, or at most `n`
    pages are free, or the hint stands behind the end, so that the next search starts over.
   */
  ghost predicate Tried(s: seq<bool>, hint: nat, n: nat)
  {
    NoRoom(s, n) || Count(s) >= |s| - n || hint >= |s|
  }

  /** The fill-degree filter passes over a region only if it has no more free pages than requested. */
  lemma {:induction false} FilteredIsFull(cnt: nat, bits: nat, length: nat)
    requires bits > 0 && cnt <= bits
    requires bits * PAGE * (100 - cnt * 100 / bits) <= length * 100
    ensures cnt >= bits - Pages(length)
  {
    var d := cnt * 100 / bits;
    assert d * bits <= cnt * 100;
    assert length <= Pages(length) * PAGE;
    assert bits * (100 - d) * PAGE <= Pages(length) * 100 * PAGE;
    assert bits * (100 - d) <= Pages(length) * 100;
    assert bits * (100 - d) == bits * 100 - d * bits;
  }

  /** A search that was refused although something was found: the hint then stands behind the end. */
  ghost predicate RefusedAt(s: seq<bool>, n: nat, hint: nat, index: nat)
  {
    && n > 0 && index < |s| <= index + n
    && (Hit(s, false, n, hint, index) || (NoRun(s, false, n, hint, |s|) && Hit(s, false, n, 0, index)))
  }

  /** A refused search from behind the end started over and met the first run of all. */
  lemma {:induction false} RefusedFromStart(s: seq<bool>, n: nat, hint: nat, index: nat)
    requires RefusedAt(s, n, hint, index) && hint >= |s|
    ensures NoRoom(s, n)
  {
    forall lo: nat | RunAt(s, false, lo, n)
      ensures lo + n >= |s|
    {
      assert lo < index ==> !RunAt(s, false, lo, n);
    }
  }

  /** With at most `n` free pages a refused search means that they touch the end. */
  lemma {:induction false} RefusedFull(s: seq<bool>, n: nat, hint: nat, index: nat)
    requires RefusedAt(s, n, hint, index) && Count(s) >= |s| - n
    ensures NoRoom(s, n)
  {
    forall lo: nat | RunAt(s, false, lo, n)
      ensures lo + n >= |s|
    {
      if lo + n < |s| {
        OnlyRun(s, n, lo, |s| - 1);
        assert false;
      }
    }
  }

  lemma {:induction false} RefusedAgain(s: seq<bool>, n: nat, hint: nat, index: nat)
    requires RefusedAt(s, n, hint, index) && Tried(s, hint, n)
    ensures NoRoom(s, n)
  {
    if hint >= |s| {
      RefusedFromStart(s, n, hint, index);
    } else if Count(s) >= |s| - n {
      RefusedFull(s, n, hint, index);
    }
  }

  /** Takes `n` free pages from the region. */
  method AllocIn(r: Region, n: nat) returns (got: Option<nat>)
    requires r.bmap.Counted()
    modifies r.bmap, r.bmap.bits
    ensures r.bmap.Counted()
    ensures got.None? ==> r.bmap.bits[..] == old(r.bmap.bits[..])
    ensures got.Some? ==>
              && n > 0 && got.value + n < r.bmap.bits.Length
              && RunAt(old(r.bmap.bits[..]), false, got.value, n)
              && r.bmap.bits[..] == Filled(old(r.bmap.bits[..]), true, got.value, got.value + n)
    ensures got.None? ==> Tried(r.bmap.bits[..], r.bmap.hint, n)
    ensures got.None? && old(Tried(r.bmap.bits[..], r.bmap.hint, n)) ==> NoRoom(r.bmap.bits[..], n)
  {
    var b := r.bmap;
    ghost var s := b.bits[..];
    var found, index := b.Search(false, n, true);
    if found {
      var ok := b.Fill(true, index, index + n);
      if ok {
        return Some(index);
      }
      if Tried(s, old(b.hint), n) {
        RefusedAgain(s, n, old(b.hint), index);
      }
    }
    got := None;
  }

  /** The regions from `lo` to `hi` have been tried in vain. */
  ghost predicate TriedBetween(zs: seq<Zone>, hs: seq<nat>, lo: nat, hi: nat, n: nat)
    requires |zs| == |hs|
  {
    forall i :: lo <= i < hi && i < |zs| ==> Tried(zs[i].bits, hs[i], n)
  }

  ghost predicate FullBelow(zs: seq<Zone>, i: nat, n: nat)
  {
    forall k :: 0 <= k < i && k < |zs| ==> NoRoom(zs[k].bits, n)
  }

  /** No region has room for `n` pages. */
  ghost predicate Full(zs: seq<Zone>, n: nat)
  {
    FullBelow(zs, |zs|, n)
  }

  /** Pages `lo` up to `lo + n` of region `k` are free, and more pages of it follow. */
  ghost predicate FreeRun(zs: seq<Zone>, k: nat, lo: nat, n: nat)
  {
    k < |zs| && n > 0 && lo + n < |zs[k].bits| && RunAt(zs[k].bits, false, lo, n)
  }

  lemma {:induction false} FullIff(zs: seq<Zone>, n: nat)
    ensures Full(zs, n) <==> forall k, lo :: !FreeRun(zs, k, lo, n)
  {
    if !Full(zs, n) {
      var k :| 0 <= k < |zs| && !NoRoom(zs[k].bits, n);
      var lo: nat :| RunAt(zs[k].bits, false, lo, n) && n != 0 && lo + n < |zs[k].bits|;
      assert FreeRun(zs, k, lo, n);
    }
  }

  /** For one page: every page but the last of its region is taken. */
  lemma {:induction false} FullOnePage(zs: seq<Zone>, n: nat)
    requires n == 1
    ensures Full(zs, n) <==> forall k, i :: 0 <= k < |zs| && 0 <= i < |zs[k].bits| - 1 ==> zs[k].bits[i]
  {
    if Full(zs, n) {
      forall k, i | 0 <= k < |zs| && 0 <= i < |zs[k].bits| - 1
        ensures zs[k].bits[i]
      {
        assert NoRoom(zs[k].bits, n);
        assert !RunAt(zs[k].bits, false, i, n);
      }
    } else {
      var k :| 0 <= k < |zs| && !NoRoom(zs[k].bits, n);
      var i: nat :| RunAt(zs[k].bits, false, i, n) && i + n < |zs[k].bits|;
      assert !zs[k].bits[i];
    }
  }

  /**
    From page `lo` of region `k` on there is room for so many bytes: the pages that start within them are free,
    and they end before the last page of the region.
   */
  ghost predicate RoomAt(zs: seq<Zone>, k: nat, lo: nat, length: nat)
  {
    && k < |zs| && 0 < length && lo * PAGE + length <= (|zs[k].bits| - 1) * PAGE
    && forall i :: lo <= i < |zs[k].bits| && i * PAGE < lo * PAGE + length ==> !zs[k].bits[i]
  }

  lemma {:induction false} RoomIsRun(zs: seq<Zone>, k: nat, lo: nat, length: nat)
    ensures RoomAt(zs, k, lo, length) <==> FreeRun(zs, k, lo, Pages(length))
  {
    var n, at := Pages(length), lo * PAGE;
    assert at / PAGE == lo;
    if k < |zs| {
      var bits := zs[k].bits;
      PageBytes(at, length, if bits == [] then 0 else |bits| - 1);
      if length > 0 {
        PageBytes(at, length, lo + n - 1);
      }
      forall i: nat | lo <= i < |bits|
        ensures i < lo + n <==> i * PAGE < at + length
      {
        PageBytes(at, length, i);
      }
    }
  }

  /** A request is refused exactly when no region has room for its bytes. */
  lemma {:induction false} FullBytes(zs: seq<Zone>, length: nat)
    ensures Full(zs, Pages(length)) <==> forall k, lo :: !RoomAt(zs, k, lo, length)
  {
    FullIff(zs, Pages(length));
    forall k, lo
      ensures RoomAt(zs, k, lo, length) <==> FreeRun(zs, k, lo, Pages(length))
    {
      RoomIsRun(zs, k, lo, length);
    }
  }

  /** The pages taken at an address, in bytes. */
  lemma {:induction false} SpanBytes(addr: nat, length: nat)
    requires addr % PAGE == 0
    ensures Span(Block(addr / PAGE, Pages(length))) == iset p: nat | addr <= p * PAGE < addr + length
  {
    var want := iset p: nat | addr <= p * PAGE < addr + length;
    forall p: nat
      ensures p in Span(Block(addr / PAGE, Pages(length))) <==> p in want
    {
      PageBytes(addr, length, p);
    }
  }

  lemma {:induction false} RunHanded(zs: seq<Zone>, k: nat, lo: nat, n: nat)
    requires Disjoint(zs) && FreeRun(zs, k, lo, n)
    ensures Handed(zs, FillZone(zs, k, true, lo, lo + n), Block(zs[k].first + lo, n))
  {
    FillHeld(zs, k, true, lo, n);
    RunHeld(zs, k, lo, n);
    assert Inside(zs[k], Block(zs[k].first + lo, n));
  }

  /** The outcome of a search: nothing has changed, or the block at an address has been handed out. */
  ghost predicate Granted(zs: seq<Zone>, ys: seq<Zone>, got: Option<nat>, n: nat)
  {
    match got
    case None => ys == zs
    case Some(addr) => addr % PAGE == 0 && Handed(zs, ys, Block(addr / PAGE, n)) && !Full(zs, n)
  }

  lemma {:induction false} AddressGranted(zs: seq<Zone>, ys: seq<Zone>, got: Option<nat>, k: nat, lo: nat, n: nat)
    requires Disjoint(zs) && FreeRun(zs, k, lo, n) && ys == FillZone(zs, k, true, lo, lo + n)
    requires got == Some((zs[k].first + lo) * PAGE)
    ensures Granted(zs, ys, got, n) && Disjoint(ys)
  {
    assert got.value / PAGE == zs[k].first + lo;
    RunHanded(zs, k, lo, n);
    ShapeDisjoint(zs, ys);
    assert !NoRoom(zs[k].bits, n);
  }

  /** The filling degree does not rule the region out. */
  predicate RoomFor(b: Bitmap, length: nat, useFdeg: bool)
    requires b.bits.Length > 0
    reads b
  {
    var fdeg := if useFdeg then b.Fdeg() else 0;
    fdeg == 0 || b.bits.Length * PAGE * (100 - fdeg) > length * 100
  }

  /** Takes `n` pages of region `i`. */
  method AllocAt(rs: seq<Region>, i: nat, n: nat, ghost zs: seq<Zone>, ghost hs: seq<nat>)
    returns (got: Option<nat>, ghost ys: seq<Zone>, ghost gs: seq<nat>)
    requires Sound(rs, zs, hs) && i < |rs|
    modifies rs[i].bmap, rs[i].bmap.bits
    ensures Sound(rs, ys, gs) && gs == hs[i := gs[i]]
    ensures Granted(zs, ys, got, n)
    ensures got.None? ==> Tried(zs[i].bits, gs[i], n) && (Tried(zs[i].bits, hs[i], n) ==> NoRoom(zs[i].bits, n))
  {
    OthersDistinct(rs, i);
    assert Shows(rs[i], zs[i], hs[i]) && |zs[i].bits| > 0;
    var idx := AllocIn(rs[i], n);
    gs := hs[i := rs[i].bmap.hint];
    if idx.Some? {
      ys := FillZone(zs, i, true, idx.value, idx.value + n);
      got := Some((rs[i].first + idx.value) * PAGE);
      AddressGranted(zs, ys, got, i, idx.value, n);
    } else {
      got, ys := None, zs;
    }
  }

  /** What a pass of a search for `n` pages leaves behind in the regions up to `i`. */
  ghost predicate Searched(zs: seq<Zone>, hs: seq<nat>, i: nat, n: nat, useFdeg: bool)
    requires |zs| == |hs|
  {
    if useFdeg then TriedBetween(zs, hs, 0, i, n) else FullBelow(zs, i, n) && TriedBetween(zs, hs, i, |zs|, n)
  }

  lemma {:induction false} SearchedStep(zs: seq<Zone>, hs: seq<nat>, gs: seq<nat>, i: nat, n: nat, useFdeg: bool)
    requires |zs| == |hs| && i < |zs| && |gs| == |hs| && gs == hs[i := gs[i]]
    requires useFdeg ==> Tried(zs[i].bits, gs[i], n)
    requires !useFdeg && Tried(zs[i].bits, hs[i], n) ==> NoRoom(zs[i].bits, n)
    ensures Searched(zs, hs, i, n, useFdeg) ==> Searched(zs, gs, i + 1, n, useFdeg)
  {
  }

  /** The step of a search at one region, tried unless the filling degree says that it is too full. */
  method SearchRegion(rs: seq<Region>, i: nat, length: nat, useFdeg: bool, ghost zs: seq<Zone>, ghost hs: seq<nat>)
    returns (got: Option<nat>, ghost ys: seq<Zone>, ghost gs: seq<nat>)
    requires Sound(rs, zs, hs) && i < |rs|
    modifies rs[i].bmap, rs[i].bmap.bits
    ensures Sound(rs, ys, gs)
    ensures Granted(zs, ys, got, Pages(length))
    ensures got.None? && Searched(zs, hs, i, Pages(length), useFdeg) ==> Searched(zs, gs, i + 1, Pages(length), useFdeg)
  {
    assert Shows(rs[i], zs[i], hs[i]) && |zs[i].bits| > 0;
    if RoomFor(rs[i].bmap, length, useFdeg) {
      got, ys, gs := AllocAt(rs, i, Pages(length), zs, hs);
    } else {
      CountBound(zs[i].bits);
      FilteredIsFull(rs[i].bmap.setCnt, rs[i].bmap.bits.Length, length);
      got, ys, gs := None, zs, hs;
    }
    if got.None? {
      SearchedStep(zs, hs, gs, i, Pages(length), useFdeg);
    }
  }

  /** Searches the regions in order, passing over the ones that seem too full when told to. */
  method AllocHelper(rs: seq<Region>, length: nat, useFdeg: bool, ghost zs: seq<Zone>, ghost hs: seq<nat>)
    returns (got: Option<nat>, ghost ys: seq<Zone>, ghost gs: seq<nat>)
    requires Sound(rs, zs, hs)
    modifies Cells(rs)
    ensures Sound(rs, ys, gs)
    ensures Granted(zs, ys, got, Pages(length))
    ensures got.None? && Searched(zs, hs, 0, Pages(length), useFdeg) ==> Searched(zs, gs, |zs|, Pages(length), useFdeg)
  {
    ys, gs := zs, hs;
    var i := 0;
    while i < |rs|
      invariant i <= |rs| && Sound(rs, zs, gs) && ys == zs
      invariant Searched(zs, hs, 0, Pages(length), useFdeg) ==> Searched(zs, gs, i, Pages(length), useFdeg)
    {
      got, ys, gs := SearchRegion(rs, i, length, useFdeg, zs, gs);
      if got.Some? {
        return;
      }
      i := i + 1;
    }
    got := None;
  }

  /** With the filter first, then without it. */
  method AllocPages(rs: seq<Region>, length: nat, ghost zs: seq<Zone>, ghost hs: seq<nat>)
    returns (got: Option<nat>, ghost ys: seq<Zone>, ghost gs: seq<nat>)
    requires Sound(rs, zs, hs)
    modifies Cells(rs)
    ensures Sound(rs, ys, gs)
    ensures Granted(zs, ys, got, Pages(length))
    ensures got.None? <==> Full(zs, Pages(length))
  {
    got, ys, gs := AllocHelper(rs, length, true, zs, hs);
    if got.None? {
      got, ys, gs := AllocHelper(rs, length, false, zs, gs);
    }
  }

  /** The live blocks after a request. */
  ghost function LiveWith(live: set<Block>, got: Option<nat>, n: nat): set<Block>
  {
    match got
    case None => live
    case Some(addr) => live + {Block(addr / PAGE, n)}
  }

  lemma {:induction false} GrantedLive(zs: seq<Zone>, ys: seq<Zone>, live: set<Block>, got: Option<nat>, n: nat)
    requires LiveOk(zs, live) && Granted(zs, ys, got, n)
    ensures LiveOk(ys, LiveWith(live, got, n))
    ensures got.Some? ==> Block(got.value / PAGE, n) !in live
  {
    if got.Some? {
      LiveGets(zs, ys, live, Block(got.value / PAGE, n));
    }
  }

  // ------------------------------------------------------------------ giving back

  /** The first region from `i` on that holds the page; the number of regions if none does. */
  ghost function Holder(zs: seq<Zone>, i: nat, p: nat): (k: nat)
    requires i <= |zs|
    ensures i <= k <= |zs|
    ensures k < |zs| ==> zs[k].Holds(p)
    ensures forall j :: i <= j < k ==> !zs[j].Holds(p)
    decreases |zs| - i
  {
    if i == |zs| || zs[i].Holds(p) then i else Holder(zs, i + 1, p)
  }

  /** The pages of a block cleared in region `k`, unless they reach its last page. */
  ghost function ReleasedAt(zs: seq<Zone>, k: nat, b: Block): seq<Zone>
    requires k < |zs| && zs[k].Holds(b.page)
  {
    if Inside(zs[k], b) then FillZone(zs, k, false, b.page - zs[k].first, b.page - zs[k].first + b.pages) else zs
  }

  ghost function Released(zs: seq<Zone>, b: Block): seq<Zone>
  {
    var k := Holder(zs, 0, b.page);
    if k < |zs| then ReleasedAt(zs, k, b) else zs
  }

  lemma {:induction false} ReleasedLive(zs: seq<Zone>, ys: seq<Zone>, live: set<Block>, b: Block)
    requires Disjoint(zs) && LiveOk(zs, live) && b in live && ys == Released(zs, b)
    ensures LiveOk(ys, live - {b}) && Held(ys) == Held(zs) - Span(b)
  {
    var k :| 0 <= k < |zs| && Inside(zs[k], b);
    ZoneUnique(zs, k, Holder(zs, 0, b.page), b.page);
    var lo := b.page - zs[k].first;
    FillHeld(zs, k, false, lo, b.pages);
    assert Block(zs[k].first + lo, b.pages) == b;
    assert ys == FillZone(zs, k, false, lo, lo + b.pages);
    LiveGives(zs, ys, live, b);
  }

  method ReleaseAt(rs: seq<Region>, i: nat, page: nat, n: nat, ghost zs: seq<Zone>, ghost hs: seq<nat>)
      returns (ghost ys: seq<Zone>)
    requires Sound(rs, zs, hs) && i < |rs| && zs[i].Holds(page)
    modifies rs[i].bmap, rs[i].bmap.bits
    ensures AllShow(rs, ys, hs) && Disjoint(ys) && ys == ReleasedAt(zs, i, Block(page, n))
    ensures Span(Block(page, n)) <= Held(zs) ==> AllCounted(rs, ys)
  {
    OthersDistinct(rs, i);
    assert Shows(rs[i], zs[i], hs[i]);
    var lo := page - rs[i].first;
    var ok := rs[i].bmap.Fill(false, lo, lo + n);
    ys := ReleasedAt(zs, i, Block(page, n));
    ShapeDisjoint(zs, ys);
    if ok {
      RunHeld(zs, i, lo, n);
      assert Block(zs[i].first + lo, n) == Block(page, n);
    }
  }

  /** Clears the pages in the first region that holds the address. */
  method Release(rs: seq<Region>, page: nat, n: nat, ghost zs: seq<Zone>, ghost hs: seq<nat>)
      returns (ghost ys: seq<Zone>)
    requires Sound(rs, zs, hs)
    modifies Cells(rs)
    ensures AllShow(rs, ys, hs) && Disjoint(ys) && ys == Released(zs, Block(page, n))
    ensures Span(Block(page, n)) <= Held(zs) ==> AllCounted(rs, ys)
  {
    var i := 0;
    while i < |rs|
      invariant i <= |rs| && Sound(rs, zs, hs)
      invariant Holder(zs, 0, page) == Holder(zs, i, page)
    {
      assert Shows(rs[i], zs[i], hs[i]);
      if rs[i].first <= page < rs[i].first + rs[i].bmap.bits.Length {
        ys := ReleaseAt(rs, i, page, n, zs, hs);
        return;
      }
      i := i + 1;
    }
    ys := zs;
  }

  // ------------------------------------------------------------------ reserving

  /** The check pass: no page that it visits is taken. */
  method CheckPass(rs: seq<Region>, from: nat, top: nat, ghost zs: seq<Zone>, ghost hs: seq<nat>) returns (ok: bool)
    requires AllShow(rs, zs, hs)
    ensures ok <==> AllFree(zs, 0, from, top)
  {
    var i, cur := 0, from;
    while cur < top
      invariant i <= |rs| && AllShow(rs, zs, hs)
      invariant AllFree(zs, 0, from, top) <==> AllFree(zs, i, cur, top)
      decreases top - cur, |rs| - i
    {
      if i == |rs| {
        cur, i := cur + 1, 0;
      } else {
        assert Shows(rs[i], zs[i], hs[i]);
        if rs[i].first <= cur < rs[i].first + rs[i].bmap.bits.Length {
          var taken := rs[i].bmap.Get(cur - rs[i].first);
          if taken {
            return false;
          }
          cur := cur + 1;
        } else {
          i := i + 1;
        }
      }
    }
    ok := true;
  }

  /** Marks one free page. */
  method Mark(rs: seq<Region>, i: nat, page: nat, ghost zs: seq<Zone>, ghost hs: seq<nat>) returns (ghost ys: seq<Zone>)
    requires Sound(rs, zs, hs) && i < |rs| && zs[i].Holds(page) && !zs[i].Takes(page)
    modifies rs[i].bmap, rs[i].bmap.bits
    ensures Sound(rs, ys, hs) && ys == Marked(zs, i, page)
  {
    OthersDistinct(rs, i);
    assert Shows(rs[i], zs[i], hs[i]);
    CountSet(zs[i].bits, page - rs[i].first, true);
    rs[i].bmap.Set(page - rs[i].first, true);
    ys := Marked(zs, i, page);
    ShapeDisjoint(zs, ys);
  }

  /** The second pass: marks every page that it visits. */
  method SetPass(rs: seq<Region>, from: nat, top: nat, ghost zs: seq<Zone>, ghost hs: seq<nat>)
      returns (ghost ys: seq<Zone>)
    requires Sound(rs, zs, hs) && AllFree(zs, 0, from, top)
    modifies Cells(rs)
    ensures Sound(rs, ys, hs) && ys == SetAll(zs, 0, from, top)
  {
    ys := zs;
    var i, cur := 0, from;
    while cur < top
      invariant i <= |rs| && Sound(rs, ys, hs)
      invariant AllFree(ys, i, cur, top) && SetAll(ys, i, cur, top) == SetAll(zs, 0, from, top)
      decreases top - cur, |rs| - i
    {
      if i == |rs| {
        cur, i := cur + 1, 0;
      } else {
        assert Shows(rs[i], ys[i], hs[i]);
        if rs[i].first <= cur < rs[i].first + rs[i].bmap.bits.Length {
          AllFreeMarked(ys, i, cur, i, cur + 1, top);
          ys := Mark(rs, i, cur, ys, hs);
          cur := cur + 1;
        } else {
          i := i + 1;
        }
      }
    }
  }

  datatype Reservation = Misaligned | Busy | Reserved

  lemma {:induction false} ReservedLive(zs: seq<Zone>, ys: seq<Zone>, live: set<Block>, from: nat, top: nat)
    requires Disjoint(zs) && LiveOk(zs, live) && ys == SetAll(zs, 0, from, top)
    ensures LiveOk(ys, live) && Held(ys) == Held(zs) + Reached(zs, 0, from, top)
  {
    SetAllHeld(zs, ys, 0, from, top);
    LiveKept(zs, ys, live);
  }

  // ------------------------------------------------------------------ adding a region

  /** What is left of the pages from `first` to `last` for a new region: both ends are moved out of the others. */
  method ClipRequest(rs: seq<Region>, first: nat, last: nat, ghost zs: seq<Zone>, ghost hs: seq<nat>)
      returns (left: Option<(nat, nat)>)
    requires AllShow(rs, zs, hs)
    ensures left == Clip(zs, 0, first, last)
  {
    var i, s, e := 0, first, last;
    while i < |rs|
      invariant i <= |rs| && 0 <= s && 0 <= e && Clip(zs, i, s, e) == Clip(zs, 0, first, last)
      decreases e - s, |rs| - i
    {
      assert Shows(rs[i], zs[i], hs[i]);
      var r, end := rs[i].first, rs[i].first + rs[i].bmap.bits.Length;
      if r <= s < end {
        if e <= end {
          return None;
        }
        s, i := end, 0;
      } else if r < e < end {
        if s >= r {
          return None;
        }
        e, i := r, 0;
      } else {
        i := i + 1;
      }
    }
    left := Some((s, e));
  }

  // ------------------------------------------------------------------ the allocator

  /** Number of taken pages in the zones. */
  ghost function TakenCount(zs: seq<Zone>): nat
  {
    if zs == [] then 0 else TakenCount(zs[..|zs| - 1]) + Count(zs[|zs| - 1].bits)
  }

  /** Number of pages in the zones. */
  ghost function PageCount(zs: seq<Zone>): nat
  {
    if zs == [] then 0 else PageCount(zs[..|zs| - 1]) + |zs[|zs| - 1].bits|
  }

  /** A region with clear storage of its own, at the end of the list. */
  method NewRegion(rs: seq<Region>, s: nat, e: nat, ghost zs: seq<Zone>, ghost hs: seq<nat>) returns (qs: seq<Region>)
    requires s < e && Unshared(rs) && AllShow(rs, zs, hs) && AllCounted(rs, zs)
    ensures Unshared(qs) && AllShow(qs, zs + [Fresh(s, e)], hs + [0]) && AllCounted(qs, zs + [Fresh(s, e)])
  {
    var storage := new bool[e - s](_ => false);
    var b := new Bitmap(storage);
    qs := rs + [Region(s, b)];
    assert storage[..] == Fresh(s, e).bits;
    forall i, j | 0 <= i < j < |qs|
      ensures Distinct(qs[i], qs[j])
    {
      assert j < |rs| ==> Distinct(rs[i], rs[j]);
    }
  }

  lemma {:induction false} AddedEffect(zs: seq<Zone>, live: set<Block>, s: nat, e: nat)
    requires Disjoint(zs) && LiveOk(zs, live) && s < e
    ensures Clip(zs, 0, s, e).Some? ==> Clip(zs, 0, s, e).value.0 < Clip(zs, 0, s, e).value.1
    ensures LiveOk(Added(zs, s, e), live) && Held(Added(zs, s, e)) == Held(zs)
    ensures Disjoint(Added(zs, s, e)) <==> NoneSwallowed(zs, s, e)
    ensures forall p: nat :: Managed(Added(zs, s, e), p) <==> Managed(zs, p) || s <= p < e
  {
    ClipKeeps(zs, 0, s, e);
    LiveAdded(zs, live, s, e);
    AddedHeld(zs, s, e);
    AddedDisjointIff(zs, s, e);
    forall p: nat
      ensures Managed(Added(zs, s, e), p) <==> Managed(zs, p) || s <= p < e
    {
      AddedPages(zs, s, e, p);
    }
  }

  // ------------------------------------------------------------------ runs

  datatype Pool = Pool(zones: seq<Zone>, live: set<Block>)

  /** A block is handed out or given back, a range is reserved, a region is added. */
  datatype Event =
    | Hand(block: Block)
    | Return(block: Block)
    | Keep(from: nat, top: nat)
    | Extend(first: nat, last: nat)

  /** The effect of a successful operation; only live blocks are given back and no region is swallowed. */
  ghost predicate Step(s: Pool, e: Event, t: Pool)
  {
    match e
    case Hand(b) => Handed(s.zones, t.zones, b) && t.live == s.live + {b}
    case Return(b) => b in s.live && t.zones == Released(s.zones, b) && t.live == s.live - {b}
    case Keep(from, top) =>
      AllFree(s.zones, 0, from, top) && t.zones == SetAll(s.zones, 0, from, top) && t.live == s.live
    case Extend(a, b) => a < b && NoneSwallowed(s.zones, a, b) && t.zones == Added(s.zones, a, b) && t.live == s.live
  }

  ghost predicate PoolOk(s: Pool)
  {
    Disjoint(s.zones) && LiveOk(s.zones, s.live)
  }

  lemma {:induction false} StepOk(s: Pool, e: Event, t: Pool)
    requires PoolOk(s) && Step(s, e, t)
    ensures PoolOk(t)
  {
    match e {
      case Hand(b) =>
        LiveGets(s.zones, t.zones, s.live, b);
        ShapeDisjoint(s.zones, t.zones);
      case Return(b) =>
        ReleasedLive(s.zones, t.zones, s.live, b);
        ShapeDisjoint(s.zones, t.zones);
      case Keep(from, top) =>
        ReservedLive(s.zones, t.zones, s.live, from, top);
        ShapeDisjoint(s.zones, t.zones);
      case Extend(a, b) =>
        AddedDisjointIff(s.zones, a, b);
        LiveAdded(s.zones, s.live, a, b);
    }
  }

  ghost predicate StepAt(run: seq<Pool>, es: seq<Event>, i: int)
  {
    0 <= i < |es| < |run| && Step(run[i], es[i], run[i + 1])
  }

  /** In every state of every run no page is in two live blocks; a block handed out shares no page with a live one. */
  lemma {:induction false} NeverTwice(run: seq<Pool>, es: seq<Event>, i: nat)
    requires |run| == |es| + 1 && PoolOk(run[0]) && i < |run|
    requires forall k :: 0 <= k < |es| ==> StepAt(run, es, k)
    ensures PoolOk(run[i])
    ensures i < |es| && es[i].Hand? ==> forall b :: b in run[i].live ==> Apart(b, es[i].block)
  {
    if i > 0 {
      NeverTwice(run, es, i - 1);
      assert StepAt(run, es, i - 1);
      StepOk(run[i - 1], es[i - 1], run[i]);
    }
    if i < |es| && es[i].Hand? {
      assert StepAt(run, es, i);
    }
  }

  /** What a reservation visits, in bytes. */
  lemma {:induction false} ReservedBytes(zs: seq<Zone>, addr: nat, length: nat)
    requires Disjoint(zs) && addr % PAGE == 0
    ensures forall p: nat :: p in Reached(zs, 0, addr / PAGE, Pages(addr + length)) ==>
              Managed(zs, p) && addr <= p * PAGE < addr + length
    ensures NoneAbuts(zs, addr / PAGE, Pages(addr + length)) ==>
              forall p: nat :: addr <= p * PAGE < addr + length && Managed(zs, p) ==>
                p in Reached(zs, 0, addr / PAGE, Pages(addr + length))
  {
    var from, top := addr / PAGE, Pages(addr + length);
    ReachedAllIff(zs, from, top);
    forall p: nat
      ensures p in Reached(zs, 0, from, top) ==> Managed(zs, p) && addr <= p * PAGE < addr + length
      ensures addr <= p * PAGE < addr + length ==> from <= p < top
    {
      PageBytes(addr, length, p);
      if p in Reached(zs, 0, from, top) {
        ReachedWithin(zs, 0, from, top, p);
      }
    }
  }

  class Allocator {
    var regions: seq<Region>
    ghost var zones: seq<Zone>
    ghost var hints: seq<nat>
    ghost var live: set<Block>

    /** The counts are right, the regions are disjoint, and no page is in two live blocks. */
    ghost predicate Valid()
      reads this, Cells(regions)
    {
      Sound(regions, zones, hints) && LiveOk(zones, live)
    }

    ghost function State(): Pool
      reads this
    {
      Pool(zones, live)
    }

    /** The boot region, with clear storage. */
    constructor (first: nat, storage: array<bool>)
      requires storage.Length > 0 && forall i :: 0 <= i < storage.Length ==> !storage[i]
      modifies storage
      ensures Valid() && zones == [Fresh(first, first + storage.Length)] && live == {}
    {
      var b := new Bitmap(storage);
      regions := [Region(first, b)];
      zones := [Fresh(first, first + storage.Length)];
      hints := [0];
      live := {};
      new;
      assert storage[..] == zones[0].bits;
    }

    ghost method Record(ys: seq<Zone>, gs: seq<nat>, blocks: set<Block>)
      requires Sound(regions, ys, gs) && LiveOk(ys, blocks)
      modifies `zones, `hints, `live
      ensures Valid() && zones == ys && hints == gs && live == blocks
    {
      zones, hints, live := ys, gs, blocks;
    }

    /**
      Hands out pages that nobody holds, or reports that memory ran out (None): exactly when no region has a
      run of so many free pages that leaves out its last page.
     */
    method Alloc(length: nat) returns (addr: Option<nat>)
      requires Valid()
      modifies Cells(regions), `zones, `hints, `live
      ensures Valid()
      ensures Granted(old(zones), zones, addr, Pages(length)) && live == LiveWith(old(live), addr, Pages(length))
      ensures addr.Some? ==> Block(addr.value / PAGE, Pages(length)) !in old(live)
      ensures addr.Some? ==> Step(old(State()), Hand(Block(addr.value / PAGE, Pages(length))), State())
      ensures addr.None? <==> forall k, lo :: !RoomAt(old(zones), k, lo, length)
      ensures addr.Some? ==>
                var pages := iset p: nat | addr.value <= p * PAGE < addr.value + length;
                pages !! Held(old(zones)) && Held(zones) == Held(old(zones)) + pages && addr.value % PAGE == 0
    {
      ghost var zs, blocks, ys, gs := zones, live, zones, hints;
      addr, ys, gs := AllocPages(regions, length, zs, gs);
      GrantedLive(zs, ys, blocks, addr, Pages(length));
      FullBytes(zs, length);
      if addr.Some? {
        SpanBytes(addr.value, length);
      }
      Record(ys, gs, LiveWith(blocks, addr, Pages(length)));
    }

    /** Gives pages back. For a live block exactly its pages become free; the counts stay right. */
    method Free(addr: nat, length: nat)
      requires Valid()
      modifies Cells(regions), `zones, `live
      ensures AllShow(regions, zones, hints) && zones == Released(old(zones), Block(addr / PAGE, Pages(length)))
      ensures var b := Block(addr / PAGE, Pages(length));
              b in old(live) ==>
                Valid() && Step(old(State()), Return(b), State()) && Held(zones) == Held(old(zones)) - Span(b)
      ensures addr % PAGE == 0 && Block(addr / PAGE, Pages(length)) in old(live) ==>
                Held(zones) == Held(old(zones)) - iset p: nat | addr <= p * PAGE < addr + length
    {
      ghost var b := Block(addr / PAGE, Pages(length));
      ghost var zs, blocks := zones, live;
      ghost var ys := Release(regions, addr / PAGE, Pages(length), zs, hints);
      if b in blocks {
        ReleasedLive(zs, ys, blocks, b);
      }
      if addr % PAGE == 0 {
        SpanBytes(addr, length);
      }
      zones, live := ys, blocks - {b};
    }

    /**
      Reserves the pages of a range, all of those it visits or none. It is refused exactly when one of
      them is taken.
     */
    method Reserve(addr: nat, length: nat) returns (r: Reservation)
      requires Valid()
      modifies Cells(regions), `zones, `hints, `live
      ensures Valid() && live == old(live)
      ensures r == Misaligned <==> addr % PAGE != 0
      ensures var visited := Reached(old(zones), 0, addr / PAGE, Pages(addr + length));
              && (r == Reserved <==> addr % PAGE == 0 && visited !! Held(old(zones)))
              && (r == Reserved ==> Held(zones) == Held(old(zones)) + visited)
      ensures r == Reserved ==> Step(old(State()), Keep(addr / PAGE, Pages(addr + length)), State())
      ensures r == Reserved ==> forall p: nat :: p in Held(zones) && p !in Held(old(zones)) ==>
                                  Managed(old(zones), p) && addr <= p * PAGE < addr + length
      ensures r == Reserved && NoneAbuts(old(zones), addr / PAGE, Pages(addr + length)) ==>
                forall p: nat :: addr <= p * PAGE < addr + length && Managed(old(zones), p) ==> p in Held(zones)
      ensures r != Reserved ==> zones == old(zones)
      ensures SameShape(old(zones), zones)
    {
      if addr % PAGE != 0 {
        return Misaligned;
      }
      ghost var zs, blocks := zones, live;
      AllFreeIff(zs, 0, addr / PAGE, Pages(addr + length));
      var ok := CheckPass(regions, addr / PAGE, Pages(addr + length), zs, hints);
      if !ok {
        return Busy;
      }
      ghost var ys := SetPass(regions, addr / PAGE, Pages(addr + length), zs, hints);
      ReservedLive(zs, ys, blocks, addr / PAGE, Pages(addr + length));
      ReservedBytes(zs, addr, length);
      Record(ys, hints, blocks);
      r := Reserved;
    }

    method Install(qs: seq<Region>, ghost ys: seq<Zone>, ghost gs: seq<nat>)
      requires Unshared(qs) && AllShow(qs, ys, gs) && AllCounted(qs, ys)
      modifies `regions, `zones, `hints
      ensures zones == ys && (Valid() <==> Disjoint(ys) && LiveOk(ys, live))
    {
      regions, zones, hints := qs, ys, gs;
    }

    /**
      Adds the pages of a range that no region manages yet. `room` tells whether the memory for the new
      region's description can be had. The regions stay disjoint exactly when none is swallowed.
     */
    method Add(first: nat, count: nat, room: bool)
      requires Valid() && count > 0
      modifies `regions, `zones, `hints
      ensures zones == if room then Added(old(zones), first, first + count) else old(zones)
      ensures room ==> forall p: nat :: Managed(zones, p) <==> Managed(old(zones), p) || first <= p < first + count
      ensures Held(zones) == Held(old(zones))
      ensures Valid() <==> !room || NoneSwallowed(old(zones), first, first + count)
      ensures room && Valid() ==> Step(old(State()), Extend(first, first + count), State())
    {
      ghost var zs, hs := zones, hints;
      var left := ClipRequest(regions, first, first + count, zs, hs);
      AddedEffect(zs, live, first, first + count);
      if left.Some? && room {
        var (s, e) := left.value;
        var qs := NewRegion(regions, s, e, zs, hs);
        Install(qs, zs + [Fresh(s, e)], hs + [0]);
      }
    }

    /** Pages in use and free: the counts of the bitmaps add up to the bits that are set and clear. */
    method Info() returns (taken: int, free: int)
      requires Valid()
      ensures taken == TakenCount(zones) && taken + free == PageCount(zones)
    {
      taken, free := 0, 0;
      for i := 0 to |regions|
        invariant taken == TakenCount(zones[..i]) && taken + free == PageCount(zones[..i])
      {
        assert zones[..i + 1][..i] == zones[..i] && zones[..i + 1][i] == zones[i];
        assert Shows(regions[i], zones[i], hints[i]);
        taken := taken + regions[i].bmap.setCnt;
        free := free + regions[i].bmap.bits.Length - regions[i].bmap.setCnt;
      }
      assert zones[..|regions|] == zones;
    }
  }
}
