/**
  Physical memory as values: zones of pages with one bit each (set: the page is taken), in the order of
  the region list. What adding a region, reserving a range and handing out pages mean for single pages.
 */
module PhysZones {
  import opened Options
  import opened Bitmaps

  /** A region: the number of its first page and a bit for each page. */
  datatype Zone = Zone(first: nat, bits: seq<bool>) {
    function End(): nat
    {
      first + |bits|
    }

    predicate Holds(p: nat)
    {
      first <= p < End()
    }

    predicate Takes(p: nat)
    {
      Holds(p) && bits[p - first]
    }
  }

  ghost predicate Managed(zs: seq<Zone>, p: nat)
  {
    exists k :: 0 <= k < |zs| && zs[k].Holds(p)
  }

  ghost predicate Taken(zs: seq<Zone>, p: nat)
  {
    exists k :: 0 <= k < |zs| && zs[k].Takes(p)
  }

  ghost predicate Separate(y: Zone, z: Zone)
  {
    y.End() <= z.first || z.End() <= y.first
  }

  /** Zones have pages and share none. */
  ghost predicate Disjoint(zs: seq<Zone>)
  {
    && (forall k :: 0 <= k < |zs| ==> |zs[k].bits| > 0)
    && (forall i, j {:trigger Separate(zs[i], zs[j])} :: 0 <= i < j < |zs| ==> Separate(zs[i], zs[j]))
  }

  lemma {:induction false} Separated(zs: seq<Zone>, i: nat, j: nat)
    requires Disjoint(zs) && i < |zs| && j < |zs| && i != j
    ensures Separate(zs[i], zs[j])
  {
    assert i < j ==> Separate(zs[i], zs[j]);
    assert j < i ==> Separate(zs[j], zs[i]);
  }

  lemma {:induction false} ZoneUnique(zs: seq<Zone>, i: nat, j: nat, p: nat)
    requires Disjoint(zs) && i < |zs| && j < |zs| && zs[i].Holds(p) && zs[j].Holds(p)
    ensures i == j
  {
    if i != j {
      Separated(zs, i, j);
    }
  }

  lemma {:induction false} TakenIn(zs: seq<Zone>, k: nat, p: nat)
    requires Disjoint(zs) && k < |zs| && zs[k].Holds(p)
    ensures Taken(zs, p) <==> zs[k].Takes(p)
  {
    if Taken(zs, p) {
      var j :| 0 <= j < |zs| && zs[j].Takes(p);
      ZoneUnique(zs, j, k, p);
    }
  }

  // ------------------------------------------------------------------ adding a region

  /**
    The part of the pages from `s` to `e` that a new region gets: the list is walked from its head, a
    start inside a region moves to that region's end, an end inside one moves to its start, and either
    begins the walk again. None: nothing is left.
   */
  function Clip(zs: seq<Zone>, i: nat, s: nat, e: nat): Option<(nat, nat)>
    requires i <= |zs|
    decreases e - s, |zs| - i
  {
    if i == |zs| then Some((s, e))
    else if zs[i].Holds(s) then
      if e <= zs[i].End() then None else Clip(zs, 0, zs[i].End(), e)
    else if zs[i].first < e < zs[i].End() then
      if s >= zs[i].first then None else Clip(zs, 0, s, zs[i].first)
    else Clip(zs, i + 1, s, e)
  }

  /** Neither end of the range lies inside one of the first `i` zones. */
  ghost predicate Passed(zs: seq<Zone>, i: nat, s: nat, e: nat)
    requires i <= |zs|
  {
    forall k :: 0 <= k < i ==> !zs[k].Holds(s) && !(zs[k].first < e < zs[k].End())
  }

  ghost predicate AllManaged(zs: seq<Zone>, lo: nat, hi: nat)
  {
    forall p :: lo <= p < hi ==> Managed(zs, p)
  }

  /** Where the end of a range may have been moved to. */
  ghost predicate EndClipped(zs: seq<Zone>, e: nat, top: nat)
  {
    top == e || exists k :: 0 <= k < |zs| && zs[k].first == top && top < e < zs[k].End()
  }

  /** What clipping leaves out was managed before; what it keeps starts and ends outside every region. */
  lemma {:induction false} ClipKeeps(zs: seq<Zone>, i: nat, s: nat, e: nat)
    requires i <= |zs| && s < e && Disjoint(zs) && Passed(zs, i, s, e)
    ensures Clip(zs, i, s, e).None? ==> AllManaged(zs, s, e)
    ensures Clip(zs, i, s, e).Some? ==>
              var (a, b) := Clip(zs, i, s, e).value;
              && s <= a < b <= e && AllManaged(zs, s, a) && AllManaged(zs, b, e)
              && Passed(zs, |zs|, a, b) && EndClipped(zs, e, b)
    decreases e - s, |zs| - i
  {
    if i < |zs| {
      var z := zs[i];
      if z.Holds(s) {
        HeldManaged(zs, i, s, if e <= z.End() then e else z.End());
        if z.End() < e {
          ClipKeeps(zs, 0, z.End(), e);
        }
      } else if z.first < e < z.End() {
        assert s < z.first;
        HeldManaged(zs, i, z.first, e);
        ClipKeeps(zs, 0, s, z.first);
        if Clip(zs, 0, s, z.first).Some? {
          var b := Clip(zs, 0, s, z.first).value.1;
          assert b == z.first by {
            EndClippedOnce(zs, i, b);
          }
        }
      } else {
        ClipKeeps(zs, i + 1, s, e);
      }
    }
  }

  lemma {:induction false} HeldManaged(zs: seq<Zone>, i: nat, lo: nat, hi: nat)
    requires i < |zs| && zs[i].first <= lo && hi <= zs[i].End()
    ensures AllManaged(zs, lo, hi)
  {
    forall p | lo <= p < hi
      ensures Managed(zs, p)
    {
      assert zs[i].Holds(p);
    }
  }

  lemma {:induction false} EndClippedOnce(zs: seq<Zone>, i: nat, b: nat)
    requires Disjoint(zs) && i < |zs| && EndClipped(zs, zs[i].first, b)
    ensures b == zs[i].first
  {
    forall k | 0 <= k < |zs|
      ensures !(zs[k].first < zs[i].first < zs[k].End())
    {
      if k != i {
        Separated(zs, k, i);
      }
    }
  }

  /** A new region, its pages all clear. */
  function Fresh(a: nat, b: nat): (z: Zone)
    ensures z.first == a && (a <= b ==> z.End() == b)
    ensures forall p: nat :: !z.Takes(p)
  {
    Zone(a, seq(if a <= b then b - a else 0, _ => false))
  }

  /** The list with a region for what is left of the request at its end. */
  function Added(zs: seq<Zone>, s: nat, e: nat): seq<Zone>
  {
    match Clip(zs, 0, s, e)
    case None => zs
    case Some((a, b)) => zs + [Fresh(a, b)]
  }

  /** No region ends within the request and starts behind a page of the request that nobody manages. */
  ghost predicate NoneSwallowed(zs: seq<Zone>, s: nat, e: nat)
  {
    forall k, p :: 0 <= k < |zs| && zs[k].End() <= e && s <= p < zs[k].first ==> Managed(zs, p)
  }

  lemma {:induction false} Appended(zs: seq<Zone>, z: Zone, p: nat)
    ensures Managed(zs + [z], p) <==> Managed(zs, p) || z.Holds(p)
    ensures Taken(zs + [z], p) <==> Taken(zs, p) || z.Takes(p)
  {
    var ys := zs + [z];
    assert ys[|zs|] == z && forall k :: 0 <= k < |zs| ==> ys[k] == zs[k];
    if Managed(zs, p) {
      var k :| 0 <= k < |zs| && zs[k].Holds(p);
      assert ys[k].Holds(p);
    }
    if Taken(zs, p) {
      var k :| 0 <= k < |zs| && zs[k].Takes(p);
      assert ys[k].Takes(p);
    }
  }

  /** The managed pages afterwards are the ones before and the requested ones; none of the new ones is taken. */
  lemma {:induction false} AddedPages(zs: seq<Zone>, s: nat, e: nat, p: nat)
    requires Disjoint(zs) && s < e
    ensures Managed(Added(zs, s, e), p) <==> Managed(zs, p) || s <= p < e
    ensures Taken(Added(zs, s, e), p) <==> Taken(zs, p)
  {
    ClipKeeps(zs, 0, s, e);
    if Clip(zs, 0, s, e).Some? {
      var (a, b) := Clip(zs, 0, s, e).value;
      Appended(zs, Fresh(a, b), p);
    }
  }

  /** Adding keeps the regions disjoint exactly when no region is swallowed. */
  lemma {:induction false} AddedDisjointIff(zs: seq<Zone>, s: nat, e: nat)
    requires Disjoint(zs) && s < e
    ensures Disjoint(Added(zs, s, e)) <==> NoneSwallowed(zs, s, e)
  {
    ClipKeeps(zs, 0, s, e);
    var c := Clip(zs, 0, s, e);
    if c.Some? {
      var (a, b) := c.value;
      AppendedDisjointIff(zs, Fresh(a, b));
      if NoneSwallowed(zs, s, e) {
        forall k | 0 <= k < |zs|
          ensures Separate(zs[k], Fresh(a, b))
        {
          KeptApart(zs, s, e, a, b, k);
        }
      } else {
        var k, p :| 0 <= k < |zs| && zs[k].End() <= e && s <= p < zs[k].first && !Managed(zs, p);
        SwallowedMeets(zs, s, e, a, b, k, p);
        assert !Separate(zs[k], Fresh(a, b));
      }
    }
  }

  lemma {:induction false} AppendedDisjointIff(zs: seq<Zone>, z: Zone)
    requires Disjoint(zs) && |z.bits| > 0
    ensures Disjoint(zs + [z]) <==> forall k :: 0 <= k < |zs| ==> Separate(zs[k], z)
  {
    var ys := zs + [z];
    if Disjoint(ys) {
      forall k | 0 <= k < |zs|
        ensures Separate(zs[k], z)
      {
        assert Separate(ys[k], ys[|zs|]);
      }
    }
  }

  lemma {:induction false} KeptApart(zs: seq<Zone>, s: nat, e: nat, a: nat, b: nat, k: nat)
    requires s <= a < b <= e && k < |zs| && NoneSwallowed(zs, s, e) && Passed(zs, |zs|, a, b)
    ensures zs[k].End() <= a || b <= zs[k].first
  {
    assert !Managed(zs, a);
    assert !(zs[k].End() <= e && s <= a < zs[k].first);
  }

  lemma {:induction false} SwallowedMeets(zs: seq<Zone>, s: nat, e: nat, a: nat, b: nat, k: nat, p: nat)
    requires Disjoint(zs) && k < |zs| && zs[k].End() <= e && s <= p < zs[k].first && !Managed(zs, p)
    requires AllManaged(zs, s, a) && AllManaged(zs, b, e) && EndClipped(zs, e, b)
    ensures a <= p < zs[k].first < b
  {
    if b != e {
      var j :| 0 <= j < |zs| && zs[j].first == b && b < e < zs[j].End();
      Separated(zs, j, k);
    }
  }

  /** A region in the middle of a request is swallowed: the new region shares its page. */
  lemma {:induction false} SwallowedExample()
    ensures var zs := [Fresh(1, 2)];
            Disjoint(zs) && !NoneSwallowed(zs, 0, 3) && !Disjoint(Added(zs, 0, 3))
  {
    var zs := [Fresh(1, 2)];
    assert Clip(zs, 0, 0, 3) == Clip(zs, 1, 0, 3) == Some((0, 3));
    var ys := Added(zs, 0, 3);
    assert ys == [Fresh(1, 2), Fresh(0, 3)];
    assert !Separate(ys[0], ys[1]);
    AddedDisjointIff(zs, 0, 3);
  }

  // ------------------------------------------------------------------ reserving a range

  /**
    The pages that a pass over the range from `cur` to `top` visits, the walk standing at region `i`.
    A page inside the region is visited and the walk stays there; at the end of the list it goes on
    with the next page from the head.
   */
  ghost function Reached(zs: seq<Zone>, i: nat, cur: nat, top: nat): iset<nat>
    requires i <= |zs|
    decreases top - cur, |zs| - i
  {
    if cur >= top then iset{}
    else if i == |zs| then Reached(zs, 0, cur + 1, top)
    else if zs[i].Holds(cur) then iset{cur} + Reached(zs, i, cur + 1, top)
    else Reached(zs, i + 1, cur, top)
  }

  /** A pass visits only managed pages of the range. */
  lemma {:induction false} ReachedWithin(zs: seq<Zone>, i: nat, cur: nat, top: nat, p: nat)
    requires i <= |zs| && p in Reached(zs, i, cur, top)
    ensures cur <= p < top && Managed(zs, p)
    decreases top - cur, |zs| - i
  {
    if i == |zs| {
      ReachedWithin(zs, 0, cur + 1, top, p);
    } else if zs[i].Holds(cur) {
      if p != cur {
        ReachedWithin(zs, i, cur + 1, top, p);
      }
    } else {
      ReachedWithin(zs, i + 1, cur, top, p);
    }
  }

  /** Region `j` ends where the region `i` listed before it starts, inside the range. */
  ghost predicate Abuts(zs: seq<Zone>, from: nat, top: nat, i: nat, j: nat)
  {
    i < j < |zs| && zs[j].End() == zs[i].first && from < zs[i].first < top
  }

  ghost predicate NoneAbuts(zs: seq<Zone>, from: nat, top: nat)
  {
    forall i, j :: !Abuts(zs, from, top, i, j)
  }

  /** No region before `i` holds the page. */
  ghost predicate NotBefore(zs: seq<Zone>, i: nat, p: nat)
    requires i <= |zs|
  {
    forall k :: 0 <= k < i ==> !zs[k].Holds(p)
  }

  lemma {:induction false} ReachedAll(zs: seq<Zone>, from: nat, i: nat, cur: nat, top: nat, p: nat)
    requires Disjoint(zs) && NoneAbuts(zs, from, top)
    requires i <= |zs| && from <= cur <= p < top && Managed(zs, p) && NotBefore(zs, i, cur)
    ensures p in Reached(zs, i, cur, top)
    decreases top - cur, |zs| - i
  {
    if i == |zs| {
      ReachedAll(zs, from, 0, cur + 1, top, p);
    } else if zs[i].Holds(cur) {
      if p != cur {
        forall k | 0 <= k < i
          ensures !zs[k].Holds(cur + 1)
        {
          assert !Abuts(zs, from, top, k, i);
          Separated(zs, k, i);
        }
        ReachedAll(zs, from, i, cur + 1, top, p);
      }
    } else {
      ReachedAll(zs, from, i + 1, cur, top, p);
    }
  }

  /** The walk stands behind the only region that holds the page: it misses it. */
  lemma {:induction false} ReachedMissed(zs: seq<Zone>, i: nat, k: nat, cur: nat, top: nat)
    requires Disjoint(zs) && i < k <= |zs| && zs[i].Holds(cur)
    ensures cur !in Reached(zs, k, cur, top)
    decreases |zs| - k
  {
    if cur < top {
      if k == |zs| {
        if cur in Reached(zs, 0, cur + 1, top) {
          ReachedWithin(zs, 0, cur + 1, top, cur);
        }
      } else {
        if zs[k].Holds(cur) {
          ZoneUnique(zs, i, k, cur);
        } else {
          ReachedMissed(zs, i, k + 1, cur, top);
        }
      }
    }
  }

  /** When the last page of region `j` is visited, the first page of the region `i` behind it is not. */
  lemma {:induction false} ReachedAbutting(zs: seq<Zone>, from: nat, k: nat, cur: nat, top: nat, i: nat, j: nat)
    requires Disjoint(zs) && k <= |zs| && Abuts(zs, from, top, i, j)
    requires zs[j].End() - 1 in Reached(zs, k, cur, top)
    ensures zs[i].first !in Reached(zs, k, cur, top)
    decreases top - cur, |zs| - k
  {
    var last := zs[j].End() - 1;
    ReachedWithin(zs, k, cur, top, last);
    if k == |zs| {
      ReachedAbutting(zs, from, 0, cur + 1, top, i, j);
    } else if zs[k].Holds(cur) {
      if cur == last {
        ZoneUnique(zs, j, k, cur);
        ReachedMissed(zs, i, j, last + 1, top);
      } else {
        ReachedAbutting(zs, from, k, cur + 1, top, i, j);
      }
    } else {
      ReachedAbutting(zs, from, k + 1, cur, top, i, j);
    }
  }

  /** Every managed page of the range is visited exactly when no region ends where an earlier-listed one starts. */
  lemma {:induction false} ReachedAllIff(zs: seq<Zone>, from: nat, top: nat)
    requires Disjoint(zs)
    ensures (forall p :: from <= p < top && Managed(zs, p) ==> p in Reached(zs, 0, from, top))
       <==> NoneAbuts(zs, from, top)
  {
    if NoneAbuts(zs, from, top) {
      forall p | from <= p < top && Managed(zs, p)
        ensures p in Reached(zs, 0, from, top)
      {
        ReachedAll(zs, from, 0, from, top, p);
      }
    } else {
      var i: nat, j: nat :| Abuts(zs, from, top, i, j);
      var last := zs[j].End() - 1;
      assert zs[j].Holds(last) && zs[i].Holds(last + 1);
      assert Managed(zs, last) && Managed(zs, last + 1);
      if last in Reached(zs, 0, from, top) {
        ReachedAbutting(zs, from, 0, from, top, i, j);
      }
    }
  }

  /** With the region behind listed first, its first page is missed although it is in the range. */
  lemma {:induction false} MissedExample()
    ensures var zs := [Fresh(2, 3), Fresh(1, 2)];
            Disjoint(zs) && Managed(zs, 2) && 2 !in Reached(zs, 0, 1, 3)
  {
    var zs := [Fresh(2, 3), Fresh(1, 2)];
    assert Separate(zs[0], zs[1]) && zs[0].Holds(2) && zs[1].Holds(1);
    assert Disjoint(zs) && Abuts(zs, 1, 3, 0, 1);
    assert Reached(zs, 0, 1, 3) == Reached(zs, 1, 1, 3) == iset{1} + Reached(zs, 1, 2, 3);
    ReachedMissed(zs, 0, 1, 2, 3);
  }

  /** A pass depends on where the regions lie, not on their bits: the check pass and the setting pass agree. */
  lemma {:induction false} ReachedShape(zs: seq<Zone>, ys: seq<Zone>, i: nat, cur: nat, top: nat)
    requires SameShape(zs, ys) && i <= |zs|
    ensures Reached(zs, i, cur, top) == Reached(ys, i, cur, top)
    decreases top - cur, |zs| - i
  {
    if cur < top {
      if i == |zs| {
        ReachedShape(zs, ys, 0, cur + 1, top);
      } else if zs[i].Holds(cur) {
        ReachedShape(zs, ys, i, cur + 1, top);
      } else {
        ReachedShape(zs, ys, i + 1, cur, top);
      }
    }
  }

  ghost predicate SameShape(zs: seq<Zone>, ys: seq<Zone>)
  {
    |zs| == |ys| && forall k :: 0 <= k < |zs| ==> zs[k].first == ys[k].first && |zs[k].bits| == |ys[k].bits|
  }

  // ------------------------------------------------------------------ filling

  /** Pages `lo` up to `hi` of region `k` set or cleared. */
  function FillZone(zs: seq<Zone>, k: nat, v: bool, lo: nat, hi: nat): (ys: seq<Zone>)
    requires k < |zs| && hi <= |zs[k].bits|
    ensures SameShape(zs, ys)
  {
    zs[k := Zone(zs[k].first, Filled(zs[k].bits, v, lo, hi))]
  }

  lemma {:induction false} FillTaken(zs: seq<Zone>, k: nat, v: bool, lo: nat, hi: nat, p: nat)
    requires Disjoint(zs) && k < |zs| && hi <= |zs[k].bits|
    ensures var f := zs[k].first;
            Taken(FillZone(zs, k, v, lo, hi), p) <==> if f + lo <= p < f + hi then v else Taken(zs, p)
  {
    var ys := FillZone(zs, k, v, lo, hi);
    ShapeDisjoint(zs, ys);
    if zs[k].Holds(p) {
      TakenIn(zs, k, p);
      TakenIn(ys, k, p);
    } else {
      if Taken(zs, p) {
        TakenElsewhere(zs, ys, k, p);
      }
      if Taken(ys, p) {
        TakenElsewhere(ys, zs, k, p);
      }
    }
  }

  lemma {:induction false} TakenElsewhere(zs: seq<Zone>, ys: seq<Zone>, k: nat, p: nat)
    requires |zs| == |ys| && k < |zs| && !zs[k].Holds(p) && Taken(zs, p)
    requires forall j :: 0 <= j < |zs| && j != k ==> zs[j] == ys[j]
    ensures Taken(ys, p)
  {
    var j :| 0 <= j < |zs| && zs[j].Takes(p);
    assert ys[j].Takes(p);
  }

  lemma {:induction false} ShapeDisjoint(zs: seq<Zone>, ys: seq<Zone>)
    requires SameShape(zs, ys) && Disjoint(zs)
    ensures Disjoint(ys)
  {
    forall i, j | 0 <= i < j < |ys|
      ensures Separate(ys[i], ys[j])
    {
      assert Separate(zs[i], zs[j]);
    }
  }

  // ------------------------------------------------------------------ blocks handed out

  /** The pages that are taken. */
  ghost function Held(zs: seq<Zone>): iset<nat>
  {
    iset p: nat | Taken(zs, p)
  }

  /** A block of pages. */
  datatype Block = Block(page: nat, pages: nat) {
    predicate Covers(p: nat)
    {
      page <= p < page + pages
    }
  }

  ghost function Span(b: Block): iset<nat>
  {
    iset p: nat | b.Covers(p)
  }

  /** Filling moves exactly a span of pages. */
  ghost function Moved(held: iset<nat>, v: bool, b: Block): iset<nat>
  {
    if v then held + Span(b) else held - Span(b)
  }

  lemma {:induction false} FillHeldAt(zs: seq<Zone>, k: nat, v: bool, lo: nat, n: nat, p: nat)
    requires Disjoint(zs) && k < |zs| && lo + n <= |zs[k].bits|
    ensures p in Held(FillZone(zs, k, v, lo, lo + n)) <==> p in Moved(Held(zs), v, Block(zs[k].first + lo, n))
  {
    FillTaken(zs, k, v, lo, lo + n, p);
  }

  lemma {:induction false} FillHeld(zs: seq<Zone>, k: nat, v: bool, lo: nat, n: nat)
    requires Disjoint(zs) && k < |zs| && lo + n <= |zs[k].bits|
    ensures Held(FillZone(zs, k, v, lo, lo + n)) == Moved(Held(zs), v, Block(zs[k].first + lo, n))
  {
    var held, moved := Held(FillZone(zs, k, v, lo, lo + n)), Moved(Held(zs), v, Block(zs[k].first + lo, n));
    forall p: nat
      ensures p in held <==> p in moved
    {
      FillHeldAt(zs, k, v, lo, n, p);
    }
  }

  /** A run of equal bits is a span of pages that are all taken, or none of them. */
  lemma {:induction false} RunHeld(zs: seq<Zone>, k: nat, lo: nat, n: nat)
    requires Disjoint(zs) && k < |zs| && lo + n <= |zs[k].bits|
    ensures var pages := Span(Block(zs[k].first + lo, n));
            && (RunAt(zs[k].bits, true, lo, n) <==> pages <= Held(zs))
            && (RunAt(zs[k].bits, false, lo, n) <==> pages !! Held(zs))
  {
    var f := zs[k].first;
    var pages := Span(Block(f + lo, n));
    forall i | lo <= i < lo + n
      ensures f + i in pages && (f + i in Held(zs) <==> zs[k].bits[i])
    {
      TakenIn(zs, k, f + i);
    }
    assert forall p :: p in pages ==> zs[k].bits[p - f] == (p in Held(zs)) by {
      forall p | p in pages
        ensures zs[k].bits[p - f] == (p in Held(zs))
      {
        assert f + (p - f) in pages;
      }
    }
  }

  /** The block lies in the zone and leaves out its last page. */
  ghost predicate Inside(z: Zone, b: Block)
  {
    z.first <= b.page && b.page + b.pages < z.End()
  }

  ghost predicate InSome(zs: seq<Zone>, b: Block)
  {
    exists k :: 0 <= k < |zs| && Inside(zs[k], b)
  }

  ghost predicate Apart(b: Block, c: Block)
  {
    Span(b) !! Span(c)
  }

  /** Live blocks consist of taken pages of one region and no page is in two of them. */
  ghost predicate LiveOk(zs: seq<Zone>, live: set<Block>)
  {
    && (forall b :: b in live ==> b.pages > 0 && InSome(zs, b) && Span(b) <= Held(zs))
    && (forall b, c {:trigger Apart(b, c)} :: b in live && c in live && b != c ==> Apart(b, c))
  }

  lemma {:induction false} InSomeShape(zs: seq<Zone>, ys: seq<Zone>, b: Block)
    requires InSome(zs, b) && SameShape(zs, ys)
    ensures InSome(ys, b)
  {
    var k :| 0 <= k < |zs| && Inside(zs[k], b);
    assert Inside(ys[k], b);
  }

  /** Taking more pages leaves the live blocks as they are. */
  lemma {:induction false} LiveKept(zs: seq<Zone>, ys: seq<Zone>, live: set<Block>)
    requires LiveOk(zs, live) && SameShape(zs, ys) && Held(zs) <= Held(ys)
    ensures LiveOk(ys, live)
  {
    forall b | b in live
      ensures InSome(ys, b)
    {
      InSomeShape(zs, ys, b);
    }
  }

  /** The block's pages were free, lie in one region, and are the only ones taken since. */
  ghost predicate Handed(zs: seq<Zone>, ys: seq<Zone>, b: Block)
  {
    && b.pages > 0 && InSome(zs, b) && SameShape(zs, ys)
    && Span(b) !! Held(zs) && Held(ys) == Held(zs) + Span(b)
  }

  /** A block of free pages may be handed out. */
  lemma {:induction false} LiveGets(zs: seq<Zone>, ys: seq<Zone>, live: set<Block>, b: Block)
    requires LiveOk(zs, live) && Handed(zs, ys, b)
    ensures LiveOk(ys, live + {b}) && b !in live
  {
    LiveKept(zs, ys, live);
    InSomeShape(zs, ys, b);
    assert b.page in Span(b);
  }

  /** A live block may be given back. */
  lemma {:induction false} LiveGives(zs: seq<Zone>, ys: seq<Zone>, live: set<Block>, b: Block)
    requires LiveOk(zs, live) && SameShape(zs, ys) && b in live && Held(ys) == Held(zs) - Span(b)
    ensures LiveOk(ys, live - {b})
  {
    forall c | c in live - {b}
      ensures InSome(ys, c) && Span(c) <= Held(ys)
    {
      InSomeShape(zs, ys, c);
      assert Apart(b, c);
    }
  }

  lemma {:induction false} AddedHeld(zs: seq<Zone>, s: nat, e: nat)
    requires Disjoint(zs) && s < e
    ensures Held(Added(zs, s, e)) == Held(zs)
  {
    forall p: nat
      ensures Taken(Added(zs, s, e), p) <==> Taken(zs, p)
    {
      AddedPages(zs, s, e, p);
    }
  }

  lemma {:induction false} LiveAdded(zs: seq<Zone>, live: set<Block>, s: nat, e: nat)
    requires Disjoint(zs) && s < e && LiveOk(zs, live)
    ensures LiveOk(Added(zs, s, e), live)
  {
    AddedHeld(zs, s, e);
    var ys := Added(zs, s, e);
    forall b | b in live
      ensures InSome(ys, b)
    {
      var k :| 0 <= k < |zs| && Inside(zs[k], b);
      assert Inside(ys[k], b);
    }
  }

  // ------------------------------------------------------------------ the two passes of a reservation

  function Marked(zs: seq<Zone>, i: nat, page: nat): (ys: seq<Zone>)
    requires i < |zs| && zs[i].Holds(page)
    ensures SameShape(zs, ys)
  {
    zs[i := Zone(zs[i].first, zs[i].bits[page - zs[i].first := true])]
  }

  lemma {:induction false} MarkedHeld(zs: seq<Zone>, ys: seq<Zone>, i: nat, page: nat)
    requires Disjoint(zs) && i < |zs| && zs[i].Holds(page) && ys == Marked(zs, i, page)
    ensures Disjoint(ys) && Held(ys) == Held(zs) + iset{page}
  {
    var lo := page - zs[i].first;
    assert zs[i].bits[lo := true] == Filled(zs[i].bits, true, lo, lo + 1);
    assert ys == FillZone(zs, i, true, lo, lo + 1);
    FillHeld(zs, i, true, lo, 1);
    assert Span(Block(zs[i].first + lo, 1)) == iset{page};
    ShapeDisjoint(zs, ys);
  }

  /** The first pass: every page that it visits is free. */
  predicate AllFree(zs: seq<Zone>, i: nat, cur: nat, top: nat)
    requires i <= |zs|
    decreases top - cur, |zs| - i
  {
    if cur >= top then true
    else if i == |zs| then AllFree(zs, 0, cur + 1, top)
    else if zs[i].Holds(cur) then !zs[i].Takes(cur) && AllFree(zs, i, cur + 1, top)
    else AllFree(zs, i + 1, cur, top)
  }

  /** The second pass: every page that it visits is marked. */
  function SetAll(zs: seq<Zone>, i: nat, cur: nat, top: nat): (ys: seq<Zone>)
    requires i <= |zs|
    ensures SameShape(zs, ys)
    decreases top - cur, |zs| - i
  {
    if cur >= top then zs
    else if i == |zs| then SetAll(zs, 0, cur + 1, top)
    else if zs[i].Holds(cur) then SetAll(Marked(zs, i, cur), i, cur + 1, top)
    else SetAll(zs, i + 1, cur, top)
  }

  /** The first pass succeeds exactly when no page that it visits is taken. */
  lemma {:induction false} AllFreeIff(zs: seq<Zone>, i: nat, cur: nat, top: nat)
    requires Disjoint(zs) && i <= |zs|
    ensures AllFree(zs, i, cur, top) <==> Reached(zs, i, cur, top) !! Held(zs)
    decreases top - cur, |zs| - i
  {
    if cur < top {
      if i == |zs| {
        AllFreeIff(zs, 0, cur + 1, top);
      } else if zs[i].Holds(cur) {
        AllFreeIff(zs, i, cur + 1, top);
        TakenIn(zs, i, cur);
        assert cur in Held(zs) <==> zs[i].Takes(cur);
      } else {
        AllFreeIff(zs, i + 1, cur, top);
      }
    }
  }

  /** Marking an earlier page leaves the pages still to be visited free. */
  lemma {:induction false} AllFreeMarked(zs: seq<Zone>, k: nat, page: nat, i: nat, cur: nat, top: nat)
    requires k < |zs| && zs[k].Holds(page) && page < cur && i <= |zs| && AllFree(zs, i, cur, top)
    ensures AllFree(Marked(zs, k, page), i, cur, top)
    decreases top - cur, |zs| - i
  {
    if cur < top {
      if i == |zs| {
        AllFreeMarked(zs, k, page, 0, cur + 1, top);
      } else if zs[i].Holds(cur) {
        AllFreeMarked(zs, k, page, i, cur + 1, top);
      } else {
        AllFreeMarked(zs, k, page, i + 1, cur, top);
      }
    }
  }

  /** The second pass takes exactly the pages that it visits. */
  lemma {:induction false} SetAllHeld(zs: seq<Zone>, ys: seq<Zone>, i: nat, cur: nat, top: nat)
    requires Disjoint(zs) && i <= |zs| && ys == SetAll(zs, i, cur, top)
    ensures Held(ys) == Held(zs) + Reached(zs, i, cur, top)
    decreases top - cur, |zs| - i
  {
    if cur < top {
      if i == |zs| {
        SetAllHeld(zs, ys, 0, cur + 1, top);
      } else if zs[i].Holds(cur) {
        var xs := Marked(zs, i, cur);
        MarkedHeld(zs, xs, i, cur);
        SetAllHeld(xs, ys, i, cur + 1, top);
        ReachedShape(zs, xs, i, cur + 1, top);
      } else {
        SetAllHeld(zs, ys, i + 1, cur, top);
      }
    }
  }
}
