/**
  What destroying an address space gives back (src/vmem_mgmt.c): the order in which the
  entries of a table tree are visited, and which entries those are.

  An entry of the tree is named by its position, the indices that lead to it.
 */
module ClobberTree {
  import opened Options
  import opened PageTree

  /** One call that returns `pages` pages from `frame` on to the physical allocator. */
  datatype FreeCall = FreeCall(frame: nat, pages: nat)

  /** A call together with the position of the entry that caused it. */
  datatype Release = Release(pos: seq<nat>, call: FreeCall)

  /** The tables that every space shares: the kernel's second-level table and the low page table. */
  datatype Shared = Shared(kernel: nat, low: nat)

  /** The directory maps low memory, so that its first two entries are dropped without being freed. */
  predicate MapsLow(t: Table, sh: Shared)
  {
    t[0].frame == sh.low
  }

  /** Entry `i` of table `t` at depth `d` is passed over. */
  predicate Skipped(mem: Memory, sh: Shared, t: nat, d: nat, i: nat)
    requires t in mem && i < ENTRIES
  {
    || !IsPresent(mem[t][i])
    || (d == 0 && mem[t][i].frame == sh.kernel)
    || (d == 2 && i < 2 && MapsLow(mem[t], sh))
  }

  /** The calls made for entries `i` and up of table `t` at depth `d`, which has position `p`. */
  ghost function Releases(mem: Memory, sh: Shared, t: nat, d: nat, p: seq<nat>, i: nat): seq<Release>
    requires d < 4 && i <= ENTRIES
    decreases 4 - d, 1, ENTRIES - i
  {
    if t !in mem || i == ENTRIES then []
    else
      var here := if Skipped(mem, sh, t, d, i) then [] else EntryReleases(mem, sh, mem[t][i], d, p + [i]);
      here + Releases(mem, sh, t, d, p, i + 1)
  }

  /** The calls made for one entry: everything below it first, then its own frame. */
  ghost function EntryReleases(mem: Memory, sh: Shared, e: Entry, d: nat, q: seq<nat>): seq<Release>
    requires d < 4
    decreases 4 - d, 0
  {
    (if d == 3 then []
     else if IsLink(d, e) then Releases(mem, sh, e.frame, d + 1, q, 0)
     else [Release(q, FreeCall(e.frame, ENTRIES))])
    + [Release(q, FreeCall(e.frame, 1))]
  }

  ghost function Calls(rs: seq<Release>): seq<FreeCall>
  {
    seq(|rs|, k requires 0 <= k < |rs| => rs[k].call)
  }

  lemma CallsConcat(a: seq<Release>, b: seq<Release>)
    ensures Calls(a + b) == Calls(a) + Calls(b)
  {
  }

  // ------------------------------------------------------------------ which entries are visited

  /** The entry at position `q` below table `t` at depth `d`, if links lead there past no skipped entry. */
  function EntryAt(mem: Memory, sh: Shared, t: nat, d: nat, q: seq<nat>): Option<Entry>
    requires d < 4
    decreases 4 - d
  {
    if q == [] || t !in mem || q[0] >= ENTRIES || Skipped(mem, sh, t, d, q[0]) then None
    else
      var e := mem[t][q[0]];
      if |q| == 1 then Some(e)
      else if IsLink(d, e) && d < 3 then EntryAt(mem, sh, e.frame, d + 1, q[1..])
      else None
  }

  /** All positions in a list of calls extend `p`, with an index from `i` on behind it. */
  ghost predicate Under(rs: seq<Release>, p: seq<nat>, i: nat)
  {
    forall k :: 0 <= k < |rs| ==> |rs[k].pos| > |p| && rs[k].pos[..|p|] == p && rs[k].pos[|p|] >= i
  }

  lemma {:induction false} ReleasesUnder(mem: Memory, sh: Shared, t: nat, d: nat, p: seq<nat>, i: nat)
    requires d < 4 && i <= ENTRIES
    ensures Under(Releases(mem, sh, t, d, p, i), p, i)
    decreases 4 - d, 1, ENTRIES - i
  {
    if t in mem && i < ENTRIES {
      ReleasesUnder(mem, sh, t, d, p, i + 1);
      if !Skipped(mem, sh, t, d, i) {
        EntryUnder(mem, sh, mem[t][i], d, p, i);
      }
    }
  }

  /** All positions in a list of calls extend `p` with index `i`. */
  ghost predicate PassThrough(rs: seq<Release>, p: seq<nat>, i: nat)
  {
    forall k :: 0 <= k < |rs| ==> |rs[k].pos| > |p| && rs[k].pos[..|p|] == p && rs[k].pos[|p|] == i
  }

  lemma {:induction false} EntryUnder(mem: Memory, sh: Shared, e: Entry, d: nat, p: seq<nat>, i: nat)
    requires d < 4
    ensures PassThrough(EntryReleases(mem, sh, e, d, p + [i]), p, i)
    decreases 4 - d, 0
  {
    var q := p + [i];
    if d < 3 && IsLink(d, e) {
      ReleasesUnder(mem, sh, e.frame, d + 1, q, 0);
    }
    var rs := EntryReleases(mem, sh, e, d, q);
    forall k | 0 <= k < |rs|
      ensures |rs[k].pos| > |p| && rs[k].pos[..|p|] == p && rs[k].pos[|p|] == i
    {
      assert q == rs[k].pos[..|q|];
      assert p == q[..|p|] == rs[k].pos[..|p|] && i == q[|p|];
    }
  }

  /** The calls for an entry itself. */
  predicate OwnCall(e: Entry, d: nat, c: FreeCall)
  {
    c == FreeCall(e.frame, 1) || (d < 3 && !IsLink(d, e) && c == FreeCall(e.frame, ENTRIES))
  }

  lemma {:induction false} EntryExactly(mem: Memory, sh: Shared, e: Entry, d: nat, r: seq<nat>, q: seq<nat>,
      c: FreeCall)
    requires d < 4
    ensures Release(r + q, c) in EntryReleases(mem, sh, e, d, r)
       <==> if q == [] then OwnCall(e, d, c)
            else d < 3 && IsLink(d, e) && Release(r + q, c) in Releases(mem, sh, e.frame, d + 1, r, 0)
  {
    assert q == [] ==> r + q == r;
    if d < 3 && IsLink(d, e) {
      ReleasesUnder(mem, sh, e.frame, d + 1, r, 0);
    }
  }

  /**
    The calls made below a table are exactly those of the entries that can be reached from
    it: one per entry, and one more for an entry that is a large page.
   */
  lemma {:induction false} ReleasesExactly(mem: Memory, sh: Shared, t: nat, d: nat, p: seq<nat>, i: nat, q: seq<nat>,
      c: FreeCall)
    requires d < 4 && i <= ENTRIES && q != []
    ensures Release(p + q, c) in Releases(mem, sh, t, d, p, i)
       <==> i <= q[0] && EntryAt(mem, sh, t, d, q).Some? && OwnCall(EntryAt(mem, sh, t, d, q).value, d + |q| - 1, c)
    decreases 4 - d, 1, ENTRIES - i
  {
    if t in mem && i < ENTRIES {
      ReleasesExactly(mem, sh, t, d, p, i + 1, q, c);
      if !Skipped(mem, sh, t, d, i) {
        HereExactly(mem, sh, t, d, p, i, q, c);
      }
    }
  }

  lemma Elsewhere(rs: seq<Release>, p: seq<nat>, i: nat, q: seq<nat>, c: FreeCall)
    requires PassThrough(rs, p, i) && q != [] && q[0] != i
    ensures Release(p + q, c) !in rs
  {
    assert (p + q)[|p|] == q[0];
  }

  lemma {:induction false} HereExactly(mem: Memory, sh: Shared, t: nat, d: nat, p: seq<nat>, i: nat, q: seq<nat>,
      c: FreeCall)
    requires d < 4 && i < ENTRIES && q != []
    requires t in mem && !Skipped(mem, sh, t, d, i)
    ensures Release(p + q, c) in EntryReleases(mem, sh, mem[t][i], d, p + [i])
       <==> q[0] == i && EntryAt(mem, sh, t, d, q).Some? && OwnCall(EntryAt(mem, sh, t, d, q).value, d + |q| - 1, c)
    decreases 4 - d, 0
  {
    if q[0] == i {
      BelowExactly(mem, sh, mem[t][i], d, p + [i], q[1..], c);
      assert p + q == (p + [i]) + q[1..];
    } else {
      EntryUnder(mem, sh, mem[t][i], d, p, i);
      Elsewhere(EntryReleases(mem, sh, mem[t][i], d, p + [i]), p, i, q, c);
    }
  }

  lemma {:induction false} BelowExactly(mem: Memory, sh: Shared, e: Entry, d: nat, r: seq<nat>, q: seq<nat>,
      c: FreeCall)
    requires d < 4
    ensures Release(r + q, c) in EntryReleases(mem, sh, e, d, r)
       <==> if q == [] then OwnCall(e, d, c)
            else && d < 3 && IsLink(d, e) && EntryAt(mem, sh, e.frame, d + 1, q).Some?
                 && OwnCall(EntryAt(mem, sh, e.frame, d + 1, q).value, d + |q|, c)
    decreases 4 - d, 0, 0
  {
    EntryExactly(mem, sh, e, d, r, q, c);
    if q != [] && d < 3 && IsLink(d, e) {
      ReleasesExactly(mem, sh, e.frame, d + 1, r, 0, q, c);
    }
  }

  // ------------------------------------------------------------------ once each

  /** No position occurs twice. */
  ghost predicate DistinctPositions(rs: seq<Release>)
  {
    forall j, k :: 0 <= j < k < |rs| ==> rs[j].pos != rs[k].pos
  }

  lemma DistinctConcat(a: seq<Release>, b: seq<Release>)
    requires DistinctPositions(a) && DistinctPositions(b)
    requires forall j, k :: 0 <= j < |a| && 0 <= k < |b| ==> a[j].pos != b[k].pos
    ensures DistinctPositions(a + b)
  {
  }

  /**
    No large page can be reached from table `t` at depth `d`, passed-over entries aside. The bit counts in
    directories only: above them mapping a large page leaves it behind, and nobody looks at it.
   */
  ghost predicate SmallBelow(mem: Memory, sh: Shared, t: nat, d: nat)
    requires d < 4
  {
    forall q :: EntryAt(mem, sh, t, d, q).Some? && d + |q| == 3 ==> Large !in EntryAt(mem, sh, t, d, q).value.flags
  }

  lemma {:induction false} SmallChild(mem: Memory, sh: Shared, t: nat, d: nat, i: nat)
    requires d < 4 && SmallBelow(mem, sh, t, d)
    requires t in mem && i < ENTRIES && !Skipped(mem, sh, t, d, i)
    ensures d < 3 ==> IsLink(d, mem[t][i]) && SmallBelow(mem, sh, mem[t][i].frame, d + 1)
  {
    var e := mem[t][i];
    assert EntryAt(mem, sh, t, d, [i]) == Some(e);
    if d < 3 {
      var f, d' := e.frame, d + 1;
      forall q | EntryAt(mem, sh, f, d', q).Some? && d' + |q| == 3
        ensures Large !in EntryAt(mem, sh, f, d', q).value.flags
      {
        assert ([i] + q)[1..] == q;
        assert EntryAt(mem, sh, t, d, [i] + q) == EntryAt(mem, sh, f, d', q);
      }
    }
  }

  lemma {:induction false} EntryDistinct(mem: Memory, sh: Shared, t: nat, d: nat, q: seq<nat>, i: nat)
    requires d < 4 && SmallBelow(mem, sh, t, d)
    requires t in mem && i < ENTRIES && !Skipped(mem, sh, t, d, i)
    ensures DistinctPositions(EntryReleases(mem, sh, mem[t][i], d, q))
    decreases 4 - d, 0
  {
    SmallChild(mem, sh, t, d, i);
    var e := mem[t][i];
    if d < 3 {
      var first: nat := 0;
      ReleasesDistinct(mem, sh, e.frame, d + 1, q, first);
      ReleasesUnder(mem, sh, e.frame, d + 1, q, first);
      LinkDistinct(mem, sh, e, d, q, Releases(mem, sh, e.frame, d + 1, q, first));
    }
  }

  lemma {:induction false} LinkDistinct(mem: Memory, sh: Shared, e: Entry, d: nat, q: seq<nat>, rs: seq<Release>)
    requires d < 3 && IsLink(d, e) && rs == Releases(mem, sh, e.frame, d + 1, q, 0)
    requires DistinctPositions(rs) && Under(rs, q, 0)
    ensures DistinctPositions(EntryReleases(mem, sh, e, d, q))
  {
    DistinctConcat(rs, [Release(q, FreeCall(e.frame, 1))]);
  }

  lemma ApartConcat(a: seq<Release>, b: seq<Release>, p: seq<nat>, i: nat)
    requires DistinctPositions(a) && DistinctPositions(b)
    requires PassThrough(a, p, i) && Under(b, p, i + 1)
    ensures DistinctPositions(a + b)
  {
    DistinctConcat(a, b);
  }

  /** Without large pages every entry is released once. */
  lemma {:induction false} ReleasesDistinct(mem: Memory, sh: Shared, t: nat, d: nat, p: seq<nat>, i: nat)
    requires d < 4 && i <= ENTRIES && SmallBelow(mem, sh, t, d)
    ensures DistinctPositions(Releases(mem, sh, t, d, p, i))
    decreases 4 - d, 1, ENTRIES - i
  {
    if t in mem && i < ENTRIES {
      ReleasesDistinct(mem, sh, t, d, p, i + 1);
      if !Skipped(mem, sh, t, d, i) {
        ReleasesUnder(mem, sh, t, d, p, i + 1);
        EntryDistinct(mem, sh, t, d, p + [i], i);
        EntryUnder(mem, sh, mem[t][i], d, p, i);
        ApartConcat(EntryReleases(mem, sh, mem[t][i], d, p + [i]), Releases(mem, sh, t, d, p, i + 1), p, i);
      }
    }
  }

  /** The calls made when the space with root table `root` is destroyed. */
  ghost function AllReleases(mem: Memory, sh: Shared, root: nat): seq<Release>
  {
    Releases(mem, sh, root, 0, [], 0)
  }

  lemma {:induction false} AllReleasesIs(mem: Memory, sh: Shared, root: nat, p: seq<nat>, d: nat, i: nat)
    requires p == [] && d == 0 && i == 0
    ensures Releases(mem, sh, root, d, p, i) == AllReleases(mem, sh, root)
  {
  }

  lemma {:induction false} ReleasedAt(mem: Memory, sh: Shared, t: nat, d: nat, p: seq<nat>, i: nat, q: seq<nat>,
      c: FreeCall, at: seq<nat>, rs: seq<Release>, e: Option<Entry>)
    requires d < 4 && i <= ENTRIES && q != [] && i <= q[0] && at == p + q
    requires rs == Releases(mem, sh, t, d, p, i) && e == EntryAt(mem, sh, t, d, q)
    ensures Release(at, c) in rs <==> e.Some? && OwnCall(e.value, d + |q| - 1, c)
  {
    ReleasesExactly(mem, sh, t, d, p, i, q, c);
  }

  lemma {:induction false} AllExactly(mem: Memory, sh: Shared, root: nat, q: seq<nat>, c: FreeCall)
    requires q != []
    ensures Release(q, c) in AllReleases(mem, sh, root)
       <==> EntryAt(mem, sh, root, 0, q).Some? && OwnCall(EntryAt(mem, sh, root, 0, q).value, |q| - 1, c)
  {
    // Chosen rather than assigned: literals would make the solver unroll the table.
    var p, d, i: nat :| p == [] && d == 0 && i == 0;
    ReleasedAt(mem, sh, root, d, p, i, q, c, q, Releases(mem, sh, root, d, p, i), EntryAt(mem, sh, root, d, q));
    AllReleasesIs(mem, sh, root, p, d, i);
  }

  /** Entries at different positions hold different frames. */
  ghost predicate DistinctFrames(mem: Memory, sh: Shared, root: nat)
  {
    forall q, r :: EntryAt(mem, sh, root, 0, q).Some? && EntryAt(mem, sh, root, 0, r).Some? && q != r ==>
      EntryAt(mem, sh, root, 0, q).value.frame != EntryAt(mem, sh, root, 0, r).value.frame
  }

  ghost predicate NoRepeat(cs: seq<FreeCall>)
  {
    forall j, k :: 0 <= j < k < |cs| ==> cs[j] != cs[k]
  }

  /** The call at index `k` is the one for the entry at its position. */
  lemma {:induction false} CallOfEntry(mem: Memory, sh: Shared, root: nat, k: nat)
    requires SmallBelow(mem, sh, root, 0)
    requires k < |AllReleases(mem, sh, root)|
    ensures var r := AllReleases(mem, sh, root)[k];
            && EntryAt(mem, sh, root, 0, r.pos).Some?
            && r.call == FreeCall(EntryAt(mem, sh, root, 0, r.pos).value.frame, 1)
  {
    var rs := AllReleases(mem, sh, root);
    ReleasesUnder(mem, sh, root, 0, [], 0);
    var r := rs[k];
    AllExactly(mem, sh, root, r.pos, r.call);
    SmallPlace(mem, sh, root, 0, r.pos);
  }

  /** An entry that is not a page table's leads on, unless it is a large page. */
  lemma {:induction false} SmallPlace(mem: Memory, sh: Shared, t: nat, d: nat, q: seq<nat>)
    requires d < 4 && EntryAt(mem, sh, t, d, q).Some?
    requires d + |q| == 3 ==> Large !in EntryAt(mem, sh, t, d, q).value.flags
    ensures d + |q| <= 4
    ensures d + |q| < 4 ==> IsLink(d + |q| - 1, EntryAt(mem, sh, t, d, q).value)
    decreases 4 - d
  {
    if |q| > 1 {
      SmallPlace(mem, sh, mem[t][q[0]].frame, d + 1, q[1..]);
    }
  }

  lemma {:induction false} RepeatFree(mem: Memory, sh: Shared, root: nat)
    requires SmallBelow(mem, sh, root, 0) && DistinctFrames(mem, sh, root)
    ensures NoRepeat(Calls(AllReleases(mem, sh, root)))
  {
    var cs := Calls(AllReleases(mem, sh, root));
    ReleasesDistinct(mem, sh, root, 0, [], 0);
    forall j, k | 0 <= j < k < |cs|
      ensures cs[j] != cs[k]
    {
      CallOfEntry(mem, sh, root, j);
      CallOfEntry(mem, sh, root, k);
    }
  }

  lemma {:induction false} RepeatFreeConverse(mem: Memory, sh: Shared, root: nat)
    requires SmallBelow(mem, sh, root, 0) && NoRepeat(Calls(AllReleases(mem, sh, root)))
    ensures DistinctFrames(mem, sh, root)
  {
    forall q, r | EntryAt(mem, sh, root, 0, q).Some? && EntryAt(mem, sh, root, 0, r).Some? && q != r
      ensures EntryAt(mem, sh, root, 0, q).value.frame != EntryAt(mem, sh, root, 0, r).value.frame
    {
      FramesDiffer(mem, sh, root, q, r);
    }
  }

  lemma {:induction false} FramesDiffer(mem: Memory, sh: Shared, root: nat, q: seq<nat>, r: seq<nat>)
    requires SmallBelow(mem, sh, root, 0) && NoRepeat(Calls(AllReleases(mem, sh, root)))
    requires EntryAt(mem, sh, root, 0, q).Some? && EntryAt(mem, sh, root, 0, r).Some? && q != r
    ensures EntryAt(mem, sh, root, 0, q).value.frame != EntryAt(mem, sh, root, 0, r).value.frame
  {
    var j := EntryHasCall(mem, sh, root, q);
    var k := EntryHasCall(mem, sh, root, r);
    DifferentCalls(AllReleases(mem, sh, root), j, k);
  }

  lemma DifferentCalls(rs: seq<Release>, j: nat, k: nat)
    requires NoRepeat(Calls(rs)) && j < |rs| && k < |rs| && j != k
    ensures rs[j].call != rs[k].call
  {
    var cs := Calls(rs);
    assert cs[j] == rs[j].call && cs[k] == rs[k].call;
  }

  /**
    When no large page is reached, no frame is given back twice exactly if no frame stands
    in two entries.
   */
  lemma {:induction false} FreedOnceIff(mem: Memory, sh: Shared, root: nat)
    requires SmallBelow(mem, sh, root, 0)
    ensures NoRepeat(Calls(AllReleases(mem, sh, root))) <==> DistinctFrames(mem, sh, root)
  {
    if DistinctFrames(mem, sh, root) {
      RepeatFree(mem, sh, root);
    }
    if NoRepeat(Calls(AllReleases(mem, sh, root))) {
      RepeatFreeConverse(mem, sh, root);
    }
  }

  lemma {:induction false} EntryHasCall(mem: Memory, sh: Shared, root: nat, q: seq<nat>) returns (k: nat)
    requires SmallBelow(mem, sh, root, 0) && EntryAt(mem, sh, root, 0, q).Some?
    ensures k < |AllReleases(mem, sh, root)|
    ensures AllReleases(mem, sh, root)[k] == Release(q, FreeCall(EntryAt(mem, sh, root, 0, q).value.frame, 1))
  {
    var c := FreeCall(EntryAt(mem, sh, root, 0, q).value.frame, 1);
    AllExactly(mem, sh, root, q, c);
    k :| 0 <= k < |AllReleases(mem, sh, root)| && AllReleases(mem, sh, root)[k] == Release(q, c);
  }

  /** A large page is given back twice: once whole and once as a single frame. */
  lemma {:induction false} LargeFreedTwice(mem: Memory, sh: Shared, root: nat, q: seq<nat>)
    requires |q| == 3 && EntryAt(mem, sh, root, 0, q).Some? && Large in EntryAt(mem, sh, root, 0, q).value.flags
    ensures var f, rs := EntryAt(mem, sh, root, 0, q).value.frame, AllReleases(mem, sh, root);
            Release(q, FreeCall(f, ENTRIES)) in rs && Release(q, FreeCall(f, 1)) in rs
  {
    var f := EntryAt(mem, sh, root, 0, q).value.frame;
    AllExactly(mem, sh, root, q, FreeCall(f, ENTRIES));
    AllExactly(mem, sh, root, q, FreeCall(f, 1));
  }

  /** The call gives the frame back. */
  predicate Gives(c: FreeCall, f: nat)
  {
    c.frame <= f < c.frame + c.pages
  }

  /** No frame is given back by two of the calls. */
  ghost predicate OnceEach(cs: seq<FreeCall>)
  {
    forall j, k, f :: 0 <= j < k < |cs| && Gives(cs[j], f) ==> !Gives(cs[k], f)
  }

  lemma {:induction false} OnceNoRepeat(mem: Memory, sh: Shared, root: nat)
    requires SmallBelow(mem, sh, root, 0)
    ensures OnceEach(Calls(AllReleases(mem, sh, root))) <==> NoRepeat(Calls(AllReleases(mem, sh, root)))
  {
    var cs := Calls(AllReleases(mem, sh, root));
    forall k | 0 <= k < |cs|
      ensures cs[k].pages == 1
    {
      CallOfEntry(mem, sh, root, k);
    }
    SingleCalls(cs);
  }

  lemma {:induction false} SingleCalls(cs: seq<FreeCall>)
    requires forall k :: 0 <= k < |cs| ==> cs[k].pages == 1
    ensures OnceEach(cs) <==> NoRepeat(cs)
  {
    if OnceEach(cs) {
      forall j, k | 0 <= j < k < |cs|
        ensures cs[j] != cs[k]
      {
        assert Gives(cs[j], cs[j].frame);
      }
    }
  }

  /** A large page in reach gives a frame back twice. */
  lemma {:induction false} LargeTwice(mem: Memory, sh: Shared, root: nat)
    requires !SmallBelow(mem, sh, root, 0)
    ensures !OnceEach(Calls(AllReleases(mem, sh, root)))
  {
    var q :| EntryAt(mem, sh, root, 0, q).Some? && 0 + |q| == 3 && Large in EntryAt(mem, sh, root, 0, q).value.flags;
    var f, rs := EntryAt(mem, sh, root, 0, q).value.frame, AllReleases(mem, sh, root);
    LargeFreedTwice(mem, sh, root, q);
    GivenTwice(rs, q, f);
  }

  lemma {:induction false} GivenTwice(rs: seq<Release>, q: seq<nat>, f: nat)
    requires Release(q, FreeCall(f, ENTRIES)) in rs && Release(q, FreeCall(f, 1)) in rs
    ensures !OnceEach(Calls(rs))
  {
    var j :| 0 <= j < |rs| && rs[j] == Release(q, FreeCall(f, ENTRIES));
    var k :| 0 <= k < |rs| && rs[k] == Release(q, FreeCall(f, 1));
    var cs := Calls(rs);
    assert cs[j] == FreeCall(f, ENTRIES) && cs[k] == FreeCall(f, 1);
    assert Gives(cs[j], f) && Gives(cs[k], f);
  }

  /**
    Destroying a space gives no frame back twice exactly when no large page can be reached and no frame
    stands in two entries.
   */
  lemma {:induction false} OnceEachIff(mem: Memory, sh: Shared, root: nat)
    ensures OnceEach(Calls(AllReleases(mem, sh, root)))
       <==> SmallBelow(mem, sh, root, 0) && DistinctFrames(mem, sh, root)
  {
    if SmallBelow(mem, sh, root, 0) {
      OnceNoRepeat(mem, sh, root);
      FreedOnceIff(mem, sh, root);
    } else {
      LargeTwice(mem, sh, root);
    }
  }

  // ------------------------------------------------------------------ entries and translations

  /** The walk of `v` goes through a passed-over entry: the kernel's, or one that maps low memory. */
  predicate Spared(mem: Memory, sh: Shared, t: nat, d: nat, v: Path)
    requires d < 4
    decreases 4 - d
  {
    && t in mem
    && IsPresent(mem[t][v[d]])
    && (Skipped(mem, sh, t, d, v[d])
        || (d < 3 && IsLink(d, mem[t][v[d]]) && Spared(mem, sh, mem[t][v[d]].frame, d + 1, v)))
  }

  /** Released at the fourth level are exactly the frames of the mapped small pages that are not spared. */
  lemma {:induction false} EntryIsPage(mem: Memory, sh: Shared, t: nat, d: nat, v: Path, e: Entry)
    requires d < 4
    ensures EntryAt(mem, sh, t, d, v[d..]) == Some(e)
       <==> Walk(mem, t, d, v) == Some(Small(e)) && !Spared(mem, sh, t, d, v)
    decreases 4 - d
  {
    if t in mem && d < 3 && IsLink(d, mem[t][v[d]]) {
      assert v[d..][1..] == v[d + 1..];
      EntryIsPage(mem, sh, mem[t][v[d]].frame, d + 1, v, e);
    }
  }

  /**
    From table `t` at depth `d` on, the way of `v` down to depth `k` keeps clear of what every space shares: the
    kernel's entry in the root, and the first two entries of a directory that begins with the low page table.
   */
  ghost predicate KeepsClear(mem: Memory, sh: Shared, t: nat, d: nat, k: nat, v: Path)
    requires d <= k < 4
  {
    && (d == 0 && t in mem ==> mem[t][v[0]].frame != sh.kernel)
    && (d <= 2 <= k && v[2] < 2 ==>
          forall g :: Leads(mem, t, d, g, 2, v) && g in mem ==> mem[g][0].frame != sh.low)
  }

  lemma {:induction false} ClearBelow(mem: Memory, sh: Shared, t: nat, d: nat, k: nat, v: Path)
    requires d < k < 4 && t in mem && IsLink(d, mem[t][v[d]])
    ensures KeepsClear(mem, sh, t, d, k, v)
       <==> !Skipped(mem, sh, t, d, v[d]) && KeepsClear(mem, sh, mem[t][v[d]].frame, d + 1, k, v)
  {
    var f := mem[t][v[d]].frame;
    if d < 2 {
      assert forall g :: Leads(mem, t, d, g, 2, v) <==> Leads(mem, f, d + 1, g, 2, v);
    } else if d == 2 {
      assert Leads(mem, t, d, t, 2, v);
    }
  }

  lemma {:induction false} ClearHere(mem: Memory, sh: Shared, t: nat, d: nat, v: Path)
    requires d < 4 && t in mem && IsPresent(mem[t][v[d]])
    ensures KeepsClear(mem, sh, t, d, d, v) <==> !Skipped(mem, sh, t, d, v[d])
  {
    if d == 2 {
      assert Leads(mem, t, d, t, 2, v);
    }
  }

  /** The entries visited are those met on the ways that keep clear. */
  lemma {:induction false} VisitedOn(mem: Memory, sh: Shared, t: nat, d: nat, k: nat, v: Path)
    requires d <= k < 4
    ensures EntryAt(mem, sh, t, d, v[d..k + 1])
         == if KeepsClear(mem, sh, t, d, k, v) then EntryOn(mem, t, d, k, v) else None
    decreases k - d
  {
    if t in mem && IsPresent(mem[t][v[d]]) {
      if d == k {
        ClearHere(mem, sh, t, d, v);
      } else if IsLink(d, mem[t][v[d]]) {
        assert v[d..k + 1][1..] == v[d + 1..k + 1];
        ClearBelow(mem, sh, t, d, k, v);
        VisitedOn(mem, sh, mem[t][v[d]].frame, d + 1, k, v);
      }
    }
  }

  /** A position as a path, filled up with zeros. */
  ghost function Filled(q: seq<nat>): Path
    requires |q| <= 4 && forall i :: 0 <= i < |q| ==> q[i] < ENTRIES
  {
    q + seq(4 - |q|, _ => 0)
  }

  lemma {:induction false} PositionBounds(mem: Memory, sh: Shared, t: nat, d: nat, q: seq<nat>)
    requires d < 4 && EntryAt(mem, sh, t, d, q).Some?
    ensures 0 < |q| <= 4 - d && forall i :: 0 <= i < |q| ==> q[i] < ENTRIES
    decreases 4 - d
  {
    if |q| > 1 {
      PositionBounds(mem, sh, mem[t][q[0]].frame, d + 1, q[1..]);
      assert forall i :: 0 < i < |q| ==> q[i] == q[1..][i - 1];
    }
  }

  /** The frame is that of an entry at depth `k` on the way of `v`, which keeps clear of what is shared. */
  ghost predicate GivenAt(mem: Memory, sh: Shared, root: nat, f: nat, v: Path, k: nat)
    requires k < 4
  {
    && EntryOn(mem, root, 0, k, v).Some? && EntryOn(mem, root, 0, k, v).value.frame == f
    && root in mem && mem[root][v[0]].frame != sh.kernel
    && (k >= 2 && v[2] < 2 ==> forall g :: Leads(mem, root, 0, g, 2, v) && g in mem ==> mem[g][0].frame != sh.low)
  }

  lemma {:induction false} GivenVisited(mem: Memory, sh: Shared, root: nat, f: nat, v: Path, k: nat)
    requires k < 4
    ensures GivenAt(mem, sh, root, f, v, k)
       <==> EntryAt(mem, sh, root, 0, v[..k + 1]).Some? && EntryAt(mem, sh, root, 0, v[..k + 1]).value.frame == f
    ensures GivenAt(mem, sh, root, f, v, k) ==> EntryAt(mem, sh, root, 0, v[..k + 1]) == EntryOn(mem, root, 0, k, v)
  {
    var d: nat :| d == 0;
    assert v[d..k + 1] == v[..k + 1];
    VisitedOn(mem, sh, root, d, k, v);
  }

  lemma {:induction false} EntryPresent(mem: Memory, sh: Shared, t: nat, d: nat, q: seq<nat>)
    requires d < 4 && EntryAt(mem, sh, t, d, q).Some?
    ensures IsPresent(EntryAt(mem, sh, t, d, q).value)
    decreases 4 - d
  {
    if |q| > 1 {
      EntryPresent(mem, sh, mem[t][q[0]].frame, d + 1, q[1..]);
    }
  }

  /** A call comes from an entry that is visited. */
  lemma {:induction false} CallComesFrom(mem: Memory, sh: Shared, root: nat, c: FreeCall) returns (v: Path, k: nat)
    requires c in Calls(AllReleases(mem, sh, root))
    ensures k < 4 && EntryAt(mem, sh, root, 0, v[..k + 1]).Some?
    ensures IsPresent(EntryAt(mem, sh, root, 0, v[..k + 1]).value)
    ensures OwnCall(EntryAt(mem, sh, root, 0, v[..k + 1]).value, k, c)
  {
    var rs := AllReleases(mem, sh, root);
    var j :| 0 <= j < |rs| && Calls(rs)[j] == c;
    var q := rs[j].pos;
    ReleasesUnder(mem, sh, root, 0, [], 0);
    AllExactly(mem, sh, root, q, c);
    PositionBounds(mem, sh, root, 0, q);
    EntryPresent(mem, sh, root, 0, q);
    v, k := Filled(q), |q| - 1;
    assert v[..k + 1] == q;
  }

  lemma {:induction false} CallIsMade(mem: Memory, sh: Shared, root: nat, c: FreeCall, v: Path, k: nat)
    requires k < 4 && EntryAt(mem, sh, root, 0, v[..k + 1]).Some?
    requires OwnCall(EntryAt(mem, sh, root, 0, v[..k + 1]).value, k, c)
    ensures c in Calls(AllReleases(mem, sh, root))
  {
    AllExactly(mem, sh, root, v[..k + 1], c);
    CallAmong(AllReleases(mem, sh, root), v[..k + 1], c);
  }

  lemma CallAmong(rs: seq<Release>, q: seq<nat>, c: FreeCall)
    requires Release(q, c) in rs
    ensures c in Calls(rs)
  {
    var j :| 0 <= j < |rs| && rs[j] == Release(q, c);
    assert Calls(rs)[j] == c;
  }

  /**
    What destroying a space gives back, page by page: the frame of every page and table on a way that keeps
    clear of what is shared, and nothing else.
   */
  lemma {:induction false} GivenBackIff(mem: Memory, sh: Shared, root: nat, f: nat)
    ensures FreeCall(f, 1) in Calls(AllReleases(mem, sh, root))
       <==> exists v: Path, k: nat :: k < 4 && GivenAt(mem, sh, root, f, v, k)
  {
    var c := FreeCall(f, 1);
    if c in Calls(AllReleases(mem, sh, root)) {
      var v, k := CallComesFrom(mem, sh, root, c);
      GivenVisited(mem, sh, root, f, v, k);
    }
    forall v: Path, k: nat | k < 4 && GivenAt(mem, sh, root, f, v, k)
      ensures c in Calls(AllReleases(mem, sh, root))
    {
      GivenVisited(mem, sh, root, f, v, k);
      CallIsMade(mem, sh, root, c, v, k);
    }
  }

  /** The entry at depth `d` on the way of `v` is that of a large page. */
  ghost predicate LargeAt(mem: Memory, sh: Shared, root: nat, f: nat, v: Path, d: nat)
    requires d < 4
  {
    GivenAt(mem, sh, root, f, v, d) && Large in EntryOn(mem, root, 0, d, v).value.flags
  }

  /** The frame of a large page goes back as 512 pages as well, and no other frame does. */
  lemma {:induction false} LargeGivenIff(mem: Memory, sh: Shared, root: nat, f: nat, d: nat)
    requires d == 2
    ensures FreeCall(f, ENTRIES) in Calls(AllReleases(mem, sh, root))
       <==> exists v: Path :: LargeAt(mem, sh, root, f, v, d)
  {
    var c := FreeCall(f, ENTRIES);
    if c in Calls(AllReleases(mem, sh, root)) {
      var v, k := CallComesFrom(mem, sh, root, c);
      GivenVisited(mem, sh, root, f, v, k);
      assert LargeAt(mem, sh, root, f, v, d);
    }
    forall v: Path | LargeAt(mem, sh, root, f, v, d)
      ensures c in Calls(AllReleases(mem, sh, root))
    {
      GivenVisited(mem, sh, root, f, v, d);
      CallIsMade(mem, sh, root, c, v, d);
    }
  }

  /** Every mapped page that does not lie in a shared table is given back. */
  lemma {:induction false} PageGiven(mem: Memory, sh: Shared, root: nat, v: Path)
    requires Walk(mem, root, 0, v).Some? && root in mem && mem[root][v[0]].frame != sh.kernel
    requires v[2] < 2 ==> forall g :: Leads(mem, root, 0, g, 2, v) && g in mem ==> mem[g][0].frame != sh.low
    ensures match Walk(mem, root, 0, v).value
            case Small(e) => FreeCall(e.frame, 1) in Calls(AllReleases(mem, sh, root))
            case Big(e) => FreeCall(e.frame, ENTRIES) in Calls(AllReleases(mem, sh, root))
  {
    WalkEntry(mem, root, 0, v);
    var two, three: nat :| two == 2 && three == 3;
    match Walk(mem, root, 0, v).value
    case Small(e) =>
      assert GivenAt(mem, sh, root, e.frame, v, three);
      GivenBackIff(mem, sh, root, e.frame);
    case Big(e) =>
      assert LargeAt(mem, sh, root, e.frame, v, two);
      LargeGivenIff(mem, sh, root, e.frame, two);
  }

  /** The way of `v` does not come through the kernel's entry, nor through one that maps low memory. */
  ghost predicate Unshared(mem: Memory, sh: Shared, root: nat, v: Path)
  {
    && root in mem && mem[root][v[0]].frame != sh.kernel
    && (v[2] < 2 ==> forall g :: Leads(mem, root, 0, g, 2, v) && g in mem ==> mem[g][0].frame != sh.low)
  }

  lemma {:induction false} PagesGiven(mem: Memory, sh: Shared, root: nat, cs: seq<FreeCall>)
    requires cs == Calls(AllReleases(mem, sh, root))
    ensures forall v: Path :: Unshared(mem, sh, root, v) ==>
              match Walk(mem, root, 0, v)
              case None => true
              case Some(Small(e)) => FreeCall(e.frame, 1) in cs
              case Some(Big(e)) => FreeCall(e.frame, ENTRIES) in cs
  {
    forall v: Path | Unshared(mem, sh, root, v) && Walk(mem, root, 0, v).Some?
      ensures match Walk(mem, root, 0, v).value
              case Small(e) => FreeCall(e.frame, 1) in cs
              case Big(e) => FreeCall(e.frame, ENTRIES) in cs
    {
      PageGiven(mem, sh, root, v);
    }
  }

  /** Every table below the root that is not shared is given back. */
  lemma {:induction false} TableGiven(mem: Memory, sh: Shared, root: nat, v: Path, t: nat, k: nat)
    requires 0 < k < 4 && Leads(mem, root, 0, t, k, v) && mem[root][v[0]].frame != sh.kernel
    requires k == 3 && v[2] < 2 ==> forall g :: Leads(mem, root, 0, g, 2, v) && g in mem ==> mem[g][0].frame != sh.low
    ensures FreeCall(t, 1) in Calls(AllReleases(mem, sh, root))
  {
    LeadsBefore(mem, root, 0, t, k, v);
    assert GivenAt(mem, sh, root, t, v, k - 1);
    GivenBackIff(mem, sh, root, t);
  }

  // ------------------------------------------------------------------ tables that must survive

  /** Where the shared tables hang in the tree, when they do. */
  ghost predicate SharedPlaced(mem: Memory, own: Owners, sh: Shared, root: nat)
    requires Tree(mem, own, root)
  {
    && 0 !in own
    && (sh.kernel in own ==>
          |own[sh.kernel]| == 1 && own[sh.kernel][0] < ENTRIES && mem[root][own[sh.kernel][0]].frame == sh.kernel)
    && (sh.low in own ==>
          |own[sh.low]| == 3 && own[sh.low][2] == 0
          && forall t :: t in own && own[t] == own[sh.low][..2] ==> MapsLow(mem[t], sh))
  }

  /** Table `t` is one of the shared tables or hangs below one. */
  ghost predicate Protected(own: Owners, sh: Shared, t: nat)
    requires t in own
  {
    (sh.kernel in own && own[sh.kernel] <= own[t]) || (sh.low in own && own[sh.low] <= own[t])
  }

  /** Nothing protected is behind an entry that is not passed over. */
  lemma {:induction false} ChildUnprotected(mem: Memory, own: Owners, sh: Shared, root: nat, f: nat, i: nat, c: nat)
    requires Tree(mem, own, root) && SharedPlaced(mem, own, sh, root)
    requires f in own && i < ENTRIES && !Protected(own, sh, f) && (own[f] == [] ==> f == root)
    requires !Skipped(mem, sh, f, |own[f]|, i) && c == mem[f][i].frame
    requires c in own && own[c] == own[f] + [i]
    ensures !Protected(own, sh, c)
  {
    if sh.kernel in own {
      PrefixOf(own[sh.kernel], own[f], i);
    }
    if sh.low in own {
      PrefixOf(own[sh.low], own[f], i);
      assert (own[f] + [i])[..|own[f]|] == own[f];
    }
  }

  lemma PrefixOf(q: seq<nat>, p: seq<nat>, i: nat)
    ensures q <= p + [i] <==> q <= p || q == p + [i]
  {
    if q <= p + [i] && |q| <= |p| {
      assert q == (p + [i])[..|q|] == p[..|q|];
    }
  }

  /** All tables at or below position `q` are as in `m`. */
  ghost predicate IntactBelow(mem: Memory, m: Memory, own: Owners, q: seq<nat>)
  {
    forall t :: t in own && q <= own[t] ==> t in mem && t in m && mem[t] == m[t]
  }

  /** Outside the unprotected tables at or below position `q` nothing differs. */
  ghost predicate ConfinedTo(mem: Memory, mem': Memory, own: Owners, sh: Shared, q: seq<nat>)
  {
    && mem'.Keys == mem.Keys
    && forall t :: t in mem && (t !in own || !(q <= own[t]) || Protected(own, sh, t)) ==> mem'[t] == mem[t]
  }

  lemma ConfinedTrans(a: Memory, b: Memory, c: Memory, own: Owners, sh: Shared, q: seq<nat>)
    requires ConfinedTo(a, b, own, sh, q) && ConfinedTo(b, c, own, sh, q)
    ensures ConfinedTo(a, c, own, sh, q)
  {
  }

  /** How far table `f` at depth `d` has been worked through: entries before `i` are done. */
  ghost predicate Progress(mem: Memory, m: Memory, own: Owners, sh: Shared, f: nat, d: nat, i: nat)
    requires f in own && f in m && i <= ENTRIES
  {
    && f in mem
    && (forall j :: 0 <= j < i ==> Done(mem[f][j], m[f][j], sh, d))
    && (forall j :: i <= j < ENTRIES ==> mem[f][j] == Pending(m[f], sh, d, j))
    && (forall t :: t in own && own[f] < own[t] && own[t][|own[f]|] >= i ==> t in mem && t in m && mem[t] == m[t])
  }

  /** An entry that has been dealt with is not present, unless it is the kernel's in the root. */
  predicate Done(e: Entry, was: Entry, sh: Shared, d: nat)
  {
    !IsPresent(e) || (d == 0 && e == was && e.frame == sh.kernel)
  }

  /** An entry still to be dealt with, after the low-memory entries have been dropped. */
  function Pending(t: Table, sh: Shared, d: nat, j: nat): Entry
    requires j < ENTRIES
  {
    if d == 2 && j < 2 && MapsLow(t, sh) then ZERO else t[j]
  }

  lemma {:induction false} ProgressStart(mem: Memory, m: Memory, own: Owners, sh: Shared, f: nat, d: nat)
    requires f in own && f in m && f in mem
    requires IntactBelow(mem, m, own, own[f]) && !Protected(own, sh, f)
    ensures var mem' := if d == 2 && MapsLow(m[f], sh) then Put(Put(mem, f, 0, ZERO), f, 1, ZERO) else mem;
            Progress(mem', m, own, sh, f, d, 0) && ConfinedTo(mem, mem', own, sh, own[f])
  {
    var mem' := if d == 2 && MapsLow(m[f], sh) then Put(Put(mem, f, 0, ZERO), f, 1, ZERO) else mem;
    forall t | t in own && own[f] < own[t]
      ensures t in mem' && t in m && mem'[t] == m[t]
    {
      assert t != f;
    }
  }

  lemma {:induction false} ProgressNext(mem: Memory, mem': Memory, m: Memory, own: Owners, sh: Shared, f: nat,
      d: nat, i: nat, e: Entry)
    requires f in own && f in m && i < ENTRIES
    requires Progress(mem, m, own, sh, f, d, i)
    requires f in mem' && mem'[f] == mem[f]
    requires ConfinedTo(mem, mem', own, sh, own[f] + [i])
    requires Done(e, m[f][i], sh, d) && !Protected(own, sh, f)
    ensures Progress(Put(mem', f, i, e), m, own, sh, f, d, i + 1)
    ensures ConfinedTo(mem, Put(mem', f, i, e), own, sh, own[f])
  {
    var r := Put(mem', f, i, e);
    forall t | t in own && own[f] < own[t] && own[t][|own[f]|] >= i + 1
      ensures t in r && t in m && r[t] == m[t]
    {
      assert t != f;
      assert !(own[f] + [i] <= own[t]) by {
        assert (own[f] + [i])[|own[f]|] == i;
      }
    }
    forall t | t in mem && (t !in own || !(own[f] <= own[t]) || Protected(own, sh, t))
      ensures r[t] == mem[t]
    {
      assert t != f;
      if t in own && own[f] + [i] <= own[t] {
        assert own[f] == own[t][..|own[f]|];
      }
    }
  }

  /** Below an entry that is still pending every table is intact. */
  lemma {:induction false} PendingIntact(mem: Memory, m: Memory, own: Owners, sh: Shared, f: nat, d: nat, i: nat)
    requires f in own && f in m && i < ENTRIES
    requires Progress(mem, m, own, sh, f, d, i)
    ensures IntactBelow(mem, m, own, own[f] + [i])
  {
    forall t | t in own && own[f] + [i] <= own[t]
      ensures t in mem && t in m && mem[t] == m[t]
    {
      assert own[t][|own[f]|] == (own[f] + [i])[|own[f]|] == i;
      assert own[f] == (own[f] + [i])[..|own[f]|] == own[t][..|own[f]|];
    }
  }

  /** The calls made for entry `i` alone. */
  ghost function HereCalls(mem: Memory, sh: Shared, t: nat, d: nat, p: seq<nat>, i: nat): seq<FreeCall>
    requires d < 4 && i < ENTRIES && t in mem
  {
    if Skipped(mem, sh, t, d, i) then [] else Calls(EntryReleases(mem, sh, mem[t][i], d, p + [i]))
  }

  /** Working off entry `i` moves its calls from those left to those made. */
  lemma {:induction false} CallsNext(mem: Memory, sh: Shared, t: nat, d: nat, p: seq<nat>, i: nat,
      made: seq<FreeCall>, here: seq<FreeCall>, left: seq<FreeCall>) returns (rest: seq<FreeCall>)
    requires d < 4 && i < ENTRIES && t in mem
    requires here == HereCalls(mem, sh, t, d, p, i) && left == Calls(Releases(mem, sh, t, d, p, i))
    ensures rest == Calls(Releases(mem, sh, t, d, p, i + 1))
    ensures (made + here) + rest == made + left
  {
    var rs := if Skipped(mem, sh, t, d, i) then [] else EntryReleases(mem, sh, mem[t][i], d, p + [i]);
    var more := Releases(mem, sh, t, d, p, i + 1);
    rest := Calls(more);
    CallsJoin(rs, more, Releases(mem, sh, t, d, p, i), here, rest, left);
  }

  lemma {:induction false} CallsJoin(rs: seq<Release>, more: seq<Release>, all: seq<Release>,
      here: seq<FreeCall>, rest: seq<FreeCall>, left: seq<FreeCall>)
    requires all == rs + more && here == Calls(rs) && rest == Calls(more) && left == Calls(all)
    ensures left == here + rest
  {
    CallsConcat(rs, more);
  }

  lemma {:induction false} EntryCalls(mem: Memory, sh: Shared, e: Entry, d: nat, q: seq<nat>)
    requires d < 4
    ensures Calls(EntryReleases(mem, sh, e, d, q))
         == (if d == 3 then []
             else if IsLink(d, e) then Calls(Releases(mem, sh, e.frame, d + 1, q, 0))
             else [FreeCall(e.frame, ENTRIES)])
          + [FreeCall(e.frame, 1)]
  {
    var last := [Release(q, FreeCall(e.frame, 1))];
    if d < 3 && IsLink(d, e) {
      CallsConcat(Releases(mem, sh, e.frame, d + 1, q, 0), last);
    } else if d < 3 {
      CallsConcat([Release(q, FreeCall(e.frame, ENTRIES))], last);
    }
  }
}
