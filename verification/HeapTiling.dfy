/**
  The block structure of a heap, apart from the memory that encodes it.

  A heap is a row of blocks. A block of `words` payload words occupies `words + 2`
  words of memory: a header, the payload and a footer. Everything here is about
  sequences of blocks; `Heap.dfy` relates them to tag words in memory.
 */
module HeapTiling {

  /** Words (of 8 bytes) in one 4096-byte page. */
  const PAGE_WORDS := 512

  datatype Block = Block(words: nat, used: bool)

  /** Memory words covered by a row of blocks, tags included. */
  function Size(bs: seq<Block>): (n: nat)
  {
    if bs == [] then 0 else bs[0].words + 2 + Size(bs[1..])
  }

  lemma {:induction false} SizeConcat(a: seq<Block>, b: seq<Block>)
    ensures Size(a + b) == Size(a) + Size(b)
  {
    if a == [] {
      assert a + b == b;
    } else {
      assert (a + b)[1..] == a[1..] + b;
      SizeConcat(a[1..], b);
    }
  }

  lemma {:induction false} SizeSplit(bs: seq<Block>, k: nat)
    requires k < |bs|
    ensures Size(bs) == Size(bs[..k]) + bs[k].words + 2 + Size(bs[k + 1..])
    ensures Size(bs[..k + 1]) == Size(bs[..k]) + bs[k].words + 2
  {
    assert bs == bs[..k] + bs[k..];
    assert bs[k..][1..] == bs[k + 1..];
    SizeConcat(bs[..k], bs[k..]);
    assert bs[..k + 1] == bs[..k] + [bs[k]];
    SizeConcat(bs[..k], [bs[k]]);
  }

  lemma {:induction false} AtStart(bs: seq<Block>, k: nat)
    requires k <= |bs|
    ensures Size(bs[..k]) == 0 <==> k == 0
  {
  }

  // ------------------------------------------------------------------ accounting

  /** Sum of the allocated payload sizes, in bytes. */
  function UsedBytes(bs: seq<Block>): nat
  {
    if bs == [] then 0 else (if bs[0].used then 8 * bs[0].words else 0) + UsedBytes(bs[1..])
  }

  /** Number of allocated blocks. */
  function UsedCount(bs: seq<Block>): nat
  {
    if bs == [] then 0 else (if bs[0].used then 1 else 0) + UsedCount(bs[1..])
  }

  lemma {:induction false} UsedConcat(a: seq<Block>, b: seq<Block>)
    ensures UsedBytes(a + b) == UsedBytes(a) + UsedBytes(b)
    ensures UsedCount(a + b) == UsedCount(a) + UsedCount(b)
  {
    if a == [] {
      assert a + b == b;
    } else {
      assert (a + b)[1..] == a[1..] + b;
      UsedConcat(a[1..], b);
    }
  }

  /** Replacing a middle part changes the totals by exactly the change in that part. */
  lemma {:induction false} Splice(pre: seq<Block>, mid: seq<Block>, mid': seq<Block>, post: seq<Block>)
    ensures Size(pre + mid' + post) == Size(pre + mid + post) - Size(mid) + Size(mid')
    ensures UsedBytes(pre + mid' + post) == UsedBytes(pre + mid + post) - UsedBytes(mid) + UsedBytes(mid')
    ensures UsedCount(pre + mid' + post) == UsedCount(pre + mid + post) - UsedCount(mid) + UsedCount(mid')
  {
    SizeConcat(pre + mid, post);
    SizeConcat(pre, mid);
    SizeConcat(pre + mid', post);
    SizeConcat(pre, mid');
    UsedConcat(pre + mid, post);
    UsedConcat(pre, mid);
    UsedConcat(pre + mid', post);
    UsedConcat(pre, mid');
  }

  lemma {:induction false} SpliceFree(pre: seq<Block>, mid: seq<Block>, b: Block, post: seq<Block>)
    requires !b.used && b.words + 2 == Size(mid)
    ensures Size(pre + [b] + post) == Size(pre + mid + post)
    ensures UsedBytes(pre + [b] + post) == UsedBytes(pre + mid + post) - UsedBytes(mid)
    ensures UsedCount(pre + [b] + post) == UsedCount(pre + mid + post) - UsedCount(mid)
  {
    Splice(pre, mid, [b], post);
  }

  // ------------------------------------------------------------------ invariants

  /** Coalescing is complete: no two neighbours are both free. */
  ghost predicate NoAdjacentFree(bs: seq<Block>)
  {
    forall i, j :: 0 <= i < j < |bs| && j == i + 1 ==> bs[i].used || bs[j].used
  }

  /** The last block is free. Growth relies on this without testing it. */
  ghost predicate LastFree(bs: seq<Block>)
  {
    bs != [] && !bs[|bs| - 1].used
  }

  /** The invariant that holds between operations. */
  ghost predicate Sound(bs: seq<Block>, usedBytes: int, blockCount: int)
  {
    && NoAdjacentFree(bs)
    && LastFree(bs)
    && usedBytes == UsedBytes(bs)
    && blockCount == UsedCount(bs)
  }

  // ------------------------------------------------------------------ operations

  /** A free block is taken for `n` words only when it also has room for the tags of a remainder. */
  predicate Fits(b: Block, n: nat)
  {
    !b.used && b.words >= n + 2
  }

  /** The lowest block that fits, or `|bs|`. */
  function FirstFit(bs: seq<Block>, n: nat): (k: nat)
    ensures k <= |bs|
    ensures k < |bs| ==> Fits(bs[k], n)
    ensures forall j :: 0 <= j < k ==> !Fits(bs[j], n)
  {
    if bs == [] then 0
    else if Fits(bs[0], n) then 0
    else
      assert forall j :: 1 <= j < |bs| ==> bs[j] == bs[1..][j - 1];
      1 + FirstFit(bs[1..], n)
  }

  lemma FirstFitUnique(bs: seq<Block>, n: nat, k: nat)
    requires k <= |bs|
    requires k < |bs| ==> Fits(bs[k], n)
    requires forall j :: 0 <= j < k ==> !Fits(bs[j], n)
    ensures FirstFit(bs, n) == k
  {
  }

  /** Allocating `n` words out of block `k`: the block and a free remainder behind it. */
  function SplitAt(bs: seq<Block>, k: nat, n: nat): seq<Block>
    requires k < |bs| && bs[k].words >= n + 2
  {
    bs[..k] + [Block(n, true), Block(bs[k].words - n - 2, false)] + bs[k + 1..]
  }

  /** Growth by `g` pages: the last block is enlarged and tagged free, whatever it was. */
  function GrowLast(bs: seq<Block>, g: nat): (r: seq<Block>)
    requires bs != []
    ensures |r| == |bs|
  {
    if g == 0 then bs
    else bs[..|bs| - 1] + [Block(bs[|bs| - 1].words + PAGE_WORDS * g, false)]
  }

  /** Pages mapped in one growth round for a request of `n` words. */
  function RoundPages(n: nat): nat
  {
    (n + PAGE_WORDS - 1) / PAGE_WORDS
  }

  /** Pages that a request of `n` words has to map before it can be served. */
  function PagesNeeded(bs: seq<Block>, n: nat): nat
    requires bs != []
  {
    if FirstFit(bs, n) < |bs| then 0
    else if bs[|bs| - 1].words + PAGE_WORDS * RoundPages(n) >= n + 2 then RoundPages(n)
    else 2 * RoundPages(n)
  }

  /** First of the blocks that merge when block `k` is freed: a free predecessor, or `k`. */
  function MergeLo(bs: seq<Block>, k: nat): (lo: nat)
    requires k < |bs|
    ensures lo <= k
  {
    if 0 < k && !bs[k - 1].used then k - 1 else k
  }

  /** One past the last of the blocks that merge when block `k` is freed. */
  function MergeHi(bs: seq<Block>, k: nat): (hi: nat)
    requires k < |bs|
    ensures k < hi <= |bs|
  {
    if k + 1 < |bs| && !bs[k + 1].used then k + 2 else k + 1
  }

  function MergedWords(bs: seq<Block>, k: nat): nat
    requires k < |bs|
  {
    (if MergeLo(bs, k) < k then bs[k - 1].words + 2 else 0) + bs[k].words
    + (if k + 1 < MergeHi(bs, k) then bs[k + 1].words + 2 else 0)
  }

  /** Freeing block `k`: it swallows a free successor and is swallowed by a free predecessor. */
  function Release(bs: seq<Block>, k: nat): seq<Block>
    requires k < |bs|
  {
    bs[..MergeLo(bs, k)] + [Block(MergedWords(bs, k), false)] + bs[MergeHi(bs, k)..]
  }

  // ------------------------------------------------------------------ what the operations keep

  /** Growth needs at most two rounds, after which the last block fits. */
  lemma {:induction false} GrowthSuffices(bs: seq<Block>, n: nat)
    requires bs != []
    requires n > 0 || FirstFit(bs, n) < |bs|
    ensures var g := PagesNeeded(bs, n);
            && (FirstFit(GrowLast(bs, g), n) < |bs|)
            && (FirstFit(bs, n) == |bs| ==> FirstFit(GrowLast(bs, g), n) == |bs| - 1)
            && g <= 2 * RoundPages(n)
  {
    var g := PagesNeeded(bs, n);
    if FirstFit(bs, n) == |bs| {
      var r := GrowLast(bs, g);
      assert forall j :: 0 <= j < |bs| - 1 ==> r[j] == bs[j];
      FirstFitUnique(r, n, |bs| - 1);
    }
  }

  lemma {:induction false} GrowAgain(bs: seq<Block>, g: nat)
    requires bs != []
    ensures GrowLast(GrowLast(bs, g), 1) == GrowLast(bs, g + 1)
    ensures GrowLast(bs, g)[..|bs| - 1] == bs[..|bs| - 1]
    ensures GrowLast(bs, g)[|bs| - 1].words == bs[|bs| - 1].words + PAGE_WORDS * g
  {
  }

  lemma {:induction false} GrowPrefix(bs: seq<Block>, g: nat, k: nat)
    requires k < |bs|
    ensures GrowLast(bs, g)[..k] == bs[..k]
  {
  }

  /** The page count of a round, computed from bytes as the code does. */
  lemma RoundPagesBytes(n: nat)
    ensures (8 * n + 4095) / 4096 == RoundPages(n)
  {
  }

  /** Where the first-fit search stands: `g` pages mapped, blocks before `k` ruled out. */
  ghost predicate SearchState(bs: seq<Block>, n: nat, g: nat, k: nat)
    requires bs != []
  {
    && k < |bs|
    && (forall j :: 0 <= j < k ==> !Fits(bs[j], n))
    && (g > 0 ==> k == |bs| - 1 && FirstFit(bs, n) == |bs| && (g == RoundPages(n) || g == PagesNeeded(bs, n)))
  }

  lemma {:induction false} SearchDone(bs: seq<Block>, n: nat, g: nat, k: nat)
    requires bs != [] && SearchState(bs, n, g, k)
    requires Fits(GrowLast(bs, g)[k], n)
    ensures g == PagesNeeded(bs, n) && FirstFit(GrowLast(bs, g), n) == k
  {
    var r := GrowLast(bs, g);
    assert forall j :: 0 <= j < k ==> r[j] == bs[j];
    FirstFitUnique(r, n, k);
  }

  lemma {:induction false} SearchAdvance(bs: seq<Block>, n: nat, g: nat, k: nat)
    requires bs != [] && SearchState(bs, n, g, k) && k + 1 < |bs|
    requires !Fits(GrowLast(bs, g)[k], n)
    ensures SearchState(bs, n, g, k + 1) && GrowLast(bs, g)[..k + 1] == bs[..k + 1]
  {
  }

  lemma {:induction false} SearchGrow(bs: seq<Block>, n: nat, g: nat, k: nat)
    requires bs != [] && SearchState(bs, n, g, k) && k == |bs| - 1
    requires n > 0 || FirstFit(bs, n) < |bs|
    requires !Fits(GrowLast(bs, g)[k], n)
    ensures RoundPages(n) > 0 && g + RoundPages(n) <= PagesNeeded(bs, n) <= 2 * RoundPages(n)
    ensures FirstFit(bs, n) == |bs|
    ensures SearchState(bs, n, g + RoundPages(n), k)
  {
    if g == 0 {
      FirstFitUnique(bs, n, |bs|);
    }
    GrowthSuffices(bs, n);
  }

  lemma {:induction false} NoAdjacentFreeJoin(a: seq<Block>, b: seq<Block>)
    requires NoAdjacentFree(a) && NoAdjacentFree(b)
    requires a != [] && b != [] ==> a[|a| - 1].used || b[0].used
    ensures NoAdjacentFree(a + b)
  {
    var r := a + b;
    forall i | 0 <= i < |r| - 1
      ensures r[i].used || r[i + 1].used
    {
      if i + 1 < |a| {
        assert a[i].used || a[i + 1].used;
      } else if i >= |a| {
        assert b[i - |a|].used || b[i - |a| + 1].used;
      }
    }
  }

  lemma {:induction false} SplitTotals(bs: seq<Block>, k: nat, n: nat)
    requires k < |bs| && Fits(bs[k], n)
    ensures Size(SplitAt(bs, k, n)) == Size(bs)
    ensures UsedBytes(SplitAt(bs, k, n)) == UsedBytes(bs) + 8 * n
    ensures UsedCount(SplitAt(bs, k, n)) == UsedCount(bs) + 1
  {
    var b, rest := Block(n, true), Block(bs[k].words - n - 2, false);
    assert bs == bs[..k] + [bs[k]] + bs[k + 1..];
    Splice(bs[..k], [bs[k]], [b, rest], bs[k + 1..]);
    assert [b, rest] == [b] + [rest];
    SizeConcat([b], [rest]);
    UsedConcat([b], [rest]);
  }

  lemma {:induction false} SplitShape(bs: seq<Block>, k: nat, n: nat)
    requires NoAdjacentFree(bs) && LastFree(bs)
    requires k < |bs| && Fits(bs[k], n)
    ensures NoAdjacentFree(SplitAt(bs, k, n)) && LastFree(SplitAt(bs, k, n))
  {
    var mid := [Block(n, true), Block(bs[k].words - n - 2, false)];
    NoAdjacentFreeJoin(bs[..k], mid);
    NoAdjacentFreeJoin(bs[..k] + mid, bs[k + 1..]);
  }

  lemma {:induction false} SplitSound(bs: seq<Block>, used: int, count: int, k: nat, n: nat)
    requires Sound(bs, used, count)
    requires k < |bs| && Fits(bs[k], n)
    ensures Sound(SplitAt(bs, k, n), used + 8 * n, count + 1)
  {
    SplitTotals(bs, k, n);
    SplitShape(bs, k, n);
  }

  lemma {:induction false} GrowthTotals(bs: seq<Block>, g: nat)
    requires bs != []
    ensures Size(GrowLast(bs, g)) == Size(bs) + PAGE_WORDS * g
    ensures var lost := g > 0 && bs[|bs| - 1].used;
            && UsedBytes(GrowLast(bs, g)) == UsedBytes(bs) - (if lost then 8 * bs[|bs| - 1].words else 0)
            && UsedCount(GrowLast(bs, g)) == UsedCount(bs) - (if lost then 1 else 0)
  {
    var last := |bs| - 1;
    var b := Block(bs[last].words + PAGE_WORDS * g, false);
    assert bs == bs[..last] + [bs[last]] + [];
    if g > 0 {
      assert GrowLast(bs, g) == bs[..last] + [b] + [];
      Splice(bs[..last], [bs[last]], [b], []);
    }
  }

  /**
    Growth keeps the invariant exactly when the last block was free. Tagging a used last
    block as free leaves the counters too high.
   */
  lemma {:induction false} GrowthSoundIff(bs: seq<Block>, used: int, count: int, g: nat)
    requires bs != [] && g > 0
    requires NoAdjacentFree(bs) && used == UsedBytes(bs) && count == UsedCount(bs)
    ensures Sound(GrowLast(bs, g), used, count) <==> LastFree(bs)
  {
    GrowthTotals(bs, g);
  }

  /** A whole allocation keeps the invariant, whether or not it finds room. */
  lemma {:induction false} AllocSound(bs: seq<Block>, used: int, count: int, n: nat, g: nat)
    requires Sound(bs, used, count)
    ensures Sound(GrowLast(bs, g), used, count)
    ensures var k := FirstFit(GrowLast(bs, g), n);
            k < |bs| ==> Sound(SplitAt(GrowLast(bs, g), k, n), used + 8 * n, count + 1)
  {
    if g > 0 {
      GrowthSoundIff(bs, used, count, g);
    }
    var k := FirstFit(GrowLast(bs, g), n);
    if k < |bs| {
      SplitSound(GrowLast(bs, g), used, count, k, n);
    }
  }

  lemma {:induction false} Peel(bs: seq<Block>, i: nat, j: nat)
    requires i < j <= |bs|
    ensures Size(bs[i..j]) == bs[i].words + 2 + Size(bs[i + 1..j])
    ensures UsedBytes(bs[i..j]) == (if bs[i].used then 8 * bs[i].words else 0) + UsedBytes(bs[i + 1..j])
    ensures UsedCount(bs[i..j]) == (if bs[i].used then 1 else 0) + UsedCount(bs[i + 1..j])
  {
    assert bs[i..j][1..] == bs[i + 1..j];
  }

  lemma {:induction false} ReleaseParts(bs: seq<Block>, k: nat)
    requires k < |bs|
    ensures var gone := bs[MergeLo(bs, k)..MergeHi(bs, k)];
            && Size(gone) == MergedWords(bs, k) + 2
            && UsedBytes(gone) == (if bs[k].used then 8 * bs[k].words else 0)
            && UsedCount(gone) == (if bs[k].used then 1 else 0)
  {
    var lo, hi := MergeLo(bs, k), MergeHi(bs, k);
    if lo < k {
      Peel(bs, lo, hi);
    }
    Peel(bs, k, hi);
    if k + 1 < hi {
      Peel(bs, k + 1, hi);
    }
    assert bs[hi..hi] == [];
  }

  lemma {:induction false} ReleaseTotals(bs: seq<Block>, k: nat)
    requires k < |bs| && bs[k].used
    ensures Size(Release(bs, k)) == Size(bs)
    ensures UsedBytes(Release(bs, k)) == UsedBytes(bs) - 8 * bs[k].words
    ensures UsedCount(Release(bs, k)) == UsedCount(bs) - 1
  {
    var lo, hi := MergeLo(bs, k), MergeHi(bs, k);
    ReleaseParts(bs, k);
    assert bs == bs[..lo] + bs[lo..hi] + bs[hi..];
    SpliceFree(bs[..lo], bs[lo..hi], Block(MergedWords(bs, k), false), bs[hi..]);
  }

  lemma {:induction false} ReleaseShape(bs: seq<Block>, k: nat)
    requires NoAdjacentFree(bs) && LastFree(bs)
    requires k < |bs| && bs[k].used
    ensures NoAdjacentFree(Release(bs, k)) && LastFree(Release(bs, k))
  {
    var lo, hi, b := MergeLo(bs, k), MergeHi(bs, k), Block(MergedWords(bs, k), false);
    if 0 < lo {
      assert bs[lo - 1].used;
    }
    if hi < |bs| {
      assert bs[hi].used;
    }
    assert forall i :: 0 <= i < |bs| - hi ==> bs[hi..][i] == bs[hi + i];
    NoAdjacentFreeJoin(bs[..lo], [b]);
    NoAdjacentFreeJoin(bs[..lo] + [b], bs[hi..]);
  }

  lemma {:induction false} ReleaseSound(bs: seq<Block>, used: int, count: int, k: nat)
    requires Sound(bs, used, count)
    requires k < |bs| && bs[k].used
    ensures Sound(Release(bs, k), used - 8 * bs[k].words, count - 1)
  {
    ReleaseTotals(bs, k);
    ReleaseShape(bs, k);
  }

  /**
    Freeing undoes allocating: the released block merges with the remainder it was split
    from and with nothing else.
   */
  lemma {:induction false} ReleaseUndoesSplit(bs: seq<Block>, k: nat, n: nat)
    requires NoAdjacentFree(bs)
    requires k < |bs| && Fits(bs[k], n)
    ensures Release(SplitAt(bs, k, n), k) == bs
  {
    var r := SplitAt(bs, k, n);
    assert forall i :: 0 <= i < k ==> r[i] == bs[i];
    if 0 < k {
      assert bs[k - 1].used;
    }
    assert r[..k] == bs[..k];
    assert r[k + 2..] == bs[k + 1..];
  }

  // ------------------------------------------------------------------ resizing in place

  /** How a resize of block `k` to `bytes` bytes is carried out. */
  datatype Route =
    | Keep   // the block is large enough already
    | Absorb // the free successor is taken whole
    | Carve  // part of the free successor is taken
    | Move   // a new block is allocated and the old one freed

  function ResizeRoute(bs: seq<Block>, k: nat, bytes: nat): Route
    requires k < |bs|
  {
    var w := bs[k].words;
    if 8 * w >= bytes then Keep
    else if k + 1 < |bs| && !bs[k + 1].used && 8 * (w + bs[k + 1].words + 2) >= bytes then
      if 8 * bs[k + 1].words <= bytes - 8 * w then Absorb else Carve
    else Move
  }

  function AbsorbNext(bs: seq<Block>, k: nat): seq<Block>
    requires k + 1 < |bs|
  {
    bs[..k] + [Block(bs[k].words + bs[k + 1].words + 2, true)] + bs[k + 2..]
  }

  function CarveNext(bs: seq<Block>, k: nat, n: nat): seq<Block>
    requires k + 1 < |bs| && bs[k].words <= n <= bs[k].words + bs[k + 1].words
  {
    bs[..k] + [Block(n, true), Block(bs[k].words + bs[k + 1].words - n, false)] + bs[k + 2..]
  }

  lemma {:induction false} AbsorbTotals(bs: seq<Block>, k: nat)
    requires k + 1 < |bs| && bs[k].used && !bs[k + 1].used
    ensures Size(AbsorbNext(bs, k)) == Size(bs)
    ensures UsedBytes(AbsorbNext(bs, k)) == UsedBytes(bs) + 8 * bs[k + 1].words + 16
    ensures UsedCount(AbsorbNext(bs, k)) == UsedCount(bs)
  {
    assert bs == bs[..k] + ([bs[k]] + [bs[k + 1]]) + bs[k + 2..];
    Splice(bs[..k], [bs[k]] + [bs[k + 1]], [Block(bs[k].words + bs[k + 1].words + 2, true)], bs[k + 2..]);
    SizeConcat([bs[k]], [bs[k + 1]]);
    UsedConcat([bs[k]], [bs[k + 1]]);
  }

  /**
    Absorbing the whole successor keeps the invariant exactly when that successor is not
    the last block of the heap; otherwise the heap ends in a used block.
   */
  lemma {:induction false} AbsorbSoundIff(bs: seq<Block>, used: int, count: int, k: nat)
    requires Sound(bs, used, count)
    requires k + 1 < |bs| && bs[k].used && !bs[k + 1].used
    ensures Sound(AbsorbNext(bs, k), used + 8 * bs[k + 1].words + 16, count) <==> k + 2 < |bs|
    ensures NoAdjacentFree(AbsorbNext(bs, k))
  {
    AbsorbTotals(bs, k);
    var mid := [Block(bs[k].words + bs[k + 1].words + 2, true)];
    NoAdjacentFreeJoin(bs[..k], mid);
    NoAdjacentFreeJoin(bs[..k] + mid, bs[k + 2..]);
  }

  lemma {:induction false} CarveTotals(bs: seq<Block>, k: nat, n: nat)
    requires k + 1 < |bs| && bs[k].words <= n <= bs[k].words + bs[k + 1].words
    requires bs[k].used && !bs[k + 1].used
    ensures Size(CarveNext(bs, k, n)) == Size(bs)
    ensures UsedBytes(CarveNext(bs, k, n)) == UsedBytes(bs) + 8 * (n - bs[k].words)
    ensures UsedCount(CarveNext(bs, k, n)) == UsedCount(bs)
  {
    var b, rest := Block(n, true), Block(bs[k].words + bs[k + 1].words - n, false);
    assert bs == bs[..k] + ([bs[k]] + [bs[k + 1]]) + bs[k + 2..];
    assert [b, rest] == [b] + [rest];
    Splice(bs[..k], [bs[k]] + [bs[k + 1]], [b] + [rest], bs[k + 2..]);
    SizeConcat([bs[k]], [bs[k + 1]]);
    UsedConcat([bs[k]], [bs[k + 1]]);
    SizeConcat([b], [rest]);
    UsedConcat([b], [rest]);
  }

  lemma {:induction false} CarveSound(bs: seq<Block>, used: int, count: int, k: nat, n: nat)
    requires Sound(bs, used, count)
    requires k + 1 < |bs| && bs[k].words <= n <= bs[k].words + bs[k + 1].words
    requires bs[k].used && !bs[k + 1].used
    ensures Sound(CarveNext(bs, k, n), used + 8 * (n - bs[k].words), count)
  {
    CarveTotals(bs, k, n);
    var mid := [Block(n, true), Block(bs[k].words + bs[k + 1].words - n, false)];
    NoAdjacentFreeJoin(bs[..k], mid);
    NoAdjacentFreeJoin(bs[..k] + mid, bs[k + 2..]);
  }

  // ------------------------------------------------------------------ whole runs

  datatype HeapState = HeapState(blocks: seq<Block>, usedBytes: int, blockCount: int)

  /** A request for `n` words, a call with a live block `k`, or a free or resize whose pointer is refused. */
  datatype Call =
    | AllocCall(n: nat, avail: nat)
    | FreeCall(k: nat)
    | ResizeCall(k: nat, bytes: nat, avail: nat)
    | RefusedCall

  ghost predicate SoundState(s: HeapState)
  {
    Sound(s.blocks, s.usedBytes, s.blockCount)
  }

  /** Words in a request of `bytes` bytes, rounded up. */
  function WordsFor(bytes: nat): nat
  {
    (bytes + 7) / 8
  }

  /** The words hold the bytes, and not a word more than needed. */
  lemma WordsForBytes(bytes: nat)
    ensures bytes <= 8 * WordsFor(bytes) < bytes + 8
  {
  }

  function AfterAlloc(s: HeapState, n: nat, avail: nat): HeapState
    requires s.blocks != []
  {
    var need := PagesNeeded(s.blocks, n);
    if need > avail then s.(blocks := GrowLast(s.blocks, avail))
    else
      var grown := GrowLast(s.blocks, need);
      var k := FirstFit(grown, n);
      if k < |grown| then HeapState(SplitAt(grown, k, n), s.usedBytes + 8 * n, s.blockCount + 1)
      else s.(blocks := grown)
  }

  function AfterFree(s: HeapState, k: nat): HeapState
    requires k < |s.blocks|
  {
    HeapState(Release(s.blocks, k), s.usedBytes - 8 * s.blocks[k].words, s.blockCount - 1)
  }

  /** Where block `k` stands after `n` words have been split off somewhere. */
  function Shifted(bs: seq<Block>, n: nat, k: nat): nat
  {
    if FirstFit(bs, n) < k then k + 1 else k
  }

  function AfterResize(s: HeapState, k: nat, bytes: nat, avail: nat): HeapState
    requires k < |s.blocks|
  {
    var bs := s.blocks;
    match ResizeRoute(bs, k, bytes)
    case Keep => s
    case Absorb => HeapState(AbsorbNext(bs, k), s.usedBytes + 8 * bs[k + 1].words + 16, s.blockCount)
    case Carve =>
      var n := WordsFor(bytes);
      HeapState(CarveNext(bs, k, n), s.usedBytes + 8 * (n - bs[k].words), s.blockCount)
    case Move =>
      var n := WordsFor(bytes);
      var t := AfterAlloc(s, n, avail);
      if PagesNeeded(bs, n) > avail then t
      else
        var j := Shifted(GrowLast(bs, PagesNeeded(bs, n)), n, k);
        if j < |t.blocks| then AfterFree(t, j) else t
  }

  /** Resizing block `k` takes the whole of a last block. A caller can tell from the sizes. */
  predicate AbsorbsLast(bs: seq<Block>, k: nat, bytes: nat)
    requires k < |bs|
  {
    ResizeRoute(bs, k, bytes) == Absorb && k + 2 == |bs|
  }

  predicate Allowed(s: HeapState, c: Call)
  {
    match c
    case AllocCall(n, _) => n > 0
    case FreeCall(k) => k < |s.blocks| && s.blocks[k].used
    case ResizeCall(k, bytes, _) =>
      && k < |s.blocks| && s.blocks[k].used
      && (ResizeRoute(s.blocks, k, bytes) == Carve ==> bytes % 8 == 0)
      && !AbsorbsLast(s.blocks, k, bytes)
    case RefusedCall => true
  }

  function After(s: HeapState, c: Call): HeapState
    requires s.blocks != [] && Allowed(s, c)
  {
    match c
    case AllocCall(n, avail) => AfterAlloc(s, n, avail)
    case FreeCall(k) => AfterFree(s, k)
    case ResizeCall(k, bytes, avail) => AfterResize(s, k, bytes, avail)
    case RefusedCall => s
  }

  lemma {:induction false} AfterAllocSound(s: HeapState, n: nat, avail: nat)
    requires SoundState(s)
    ensures SoundState(AfterAlloc(s, n, avail))
  {
    var need := PagesNeeded(s.blocks, n);
    AllocSound(s.blocks, s.usedBytes, s.blockCount, n, if need > avail then avail else need);
  }

  /** A used block keeps its place in the row across an allocation, up to the shift by one. */
  lemma {:induction false} ShiftedBlock(bs: seq<Block>, n: nat, g: nat, k: nat)
    requires LastFree(bs) && k < |bs| && bs[k].used
    requires FirstFit(GrowLast(bs, g), n) < |bs|
    ensures var grown := GrowLast(bs, g);
            var t, j := SplitAt(grown, FirstFit(grown, n), n), Shifted(grown, n, k);
            j < |t| && t[j] == bs[k] && Size(t[..j]) == Size(bs[..k])
  {
    var grown := GrowLast(bs, g);
    var f := FirstFit(grown, n);
    var t, j := SplitAt(grown, f, n), Shifted(grown, n, k);
    assert grown[k] == bs[k];
    GrowPrefix(bs, g, k);
    if f < k {
      var mid := [Block(n, true), Block(grown[f].words - n - 2, false)];
      assert t[..j] == grown[..f] + mid + grown[f + 1..k];
      assert grown[..k] == grown[..f] + [grown[f]] + grown[f + 1..k];
      assert mid == [mid[0]] + [mid[1]];
      SizeConcat([mid[0]], [mid[1]]);
      Splice(grown[..f], [grown[f]], mid, grown[f + 1..k]);
    } else {
      assert t[..j] == grown[..k];
    }
  }

  lemma {:induction false} AfterAllocIs(s: HeapState, n: nat, avail: nat)
    requires s.blocks != [] && (n > 0 || FirstFit(s.blocks, n) < |s.blocks|)
    ensures var need := PagesNeeded(s.blocks, n);
            var grown := GrowLast(s.blocks, need);
            var k := FirstFit(grown, n);
            if need > avail then AfterAlloc(s, n, avail) == s.(blocks := GrowLast(s.blocks, avail))
            else k < |s.blocks| && AfterAlloc(s, n, avail)
                                   == HeapState(SplitAt(grown, k, n), s.usedBytes + 8 * n, s.blockCount + 1)
  {
    GrowthSuffices(s.blocks, n);
  }

  lemma {:induction false} AfterAllocState(s: HeapState, n: nat, avail: nat, k: nat, t: HeapState)
    requires s.blocks != []
    requires PagesNeeded(s.blocks, n) <= avail ==>
               var grown := GrowLast(s.blocks, PagesNeeded(s.blocks, n));
               && k == FirstFit(grown, n) < |grown|
               && t == HeapState(SplitAt(grown, k, n), s.usedBytes + 8 * n, s.blockCount + 1)
    requires PagesNeeded(s.blocks, n) > avail ==>
               t == HeapState(GrowLast(s.blocks, avail), s.usedBytes, s.blockCount)
    ensures AfterAlloc(s, n, avail) == t
  {
  }

  /** A request that some block fits: it comes out of the lowest such block, and no page is mapped. */
  lemma {:induction false} AllocFits(s: HeapState, n: nat, avail: nat, k: nat)
    requires k < |s.blocks| && !s.blocks[k].used && s.blocks[k].words >= n + 2
    requires forall j :: 0 <= j < k ==> s.blocks[j].used || s.blocks[j].words < n + 2
    ensures var bs := s.blocks;
            && PagesNeeded(bs, n) == 0 && FirstFit(bs, n) == k
            && AfterAlloc(s, n, avail)
               == HeapState(bs[..k] + [Block(n, true), Block(bs[k].words - n - 2, false)] + bs[k + 1..],
                            s.usedBytes + 8 * n, s.blockCount + 1)
  {
    FirstFitUnique(s.blocks, n, k);
  }

  /**
    A request that no block fits maps `r` pages, the least that hold it, or twice as many when the last block is
    still too small, and comes out of the last block. When pages run out, it gets those there are.
   */
  lemma {:induction false} AllocGrows(s: HeapState, n: nat, avail: nat, r: nat)
    requires s.blocks != [] && n > 0 && 512 * (r - 1) < n <= 512 * r
    requires forall j :: 0 <= j < |s.blocks| ==> s.blocks[j].used || s.blocks[j].words < n + 2
    ensures var bs := s.blocks;
            var pre, w := bs[..|bs| - 1], bs[|bs| - 1].words;
            var g := if w + 512 * r >= n + 2 then r else 2 * r;
            && PagesNeeded(bs, n) == g > 0
            && AfterAlloc(s, n, avail)
               == if g <= avail then HeapState(pre + [Block(n, true), Block(w + 512 * g - n - 2, false)],
                                               s.usedBytes + 8 * n, s.blockCount + 1)
                  else if avail > 0 then s.(blocks := pre + [Block(w + 512 * avail, false)])
                  else s
  {
    var bs := s.blocks;
    FirstFitUnique(bs, n, |bs|);
    assert RoundPages(n) == r;
    AfterAllocIs(s, n, avail);
    var grown := GrowLast(bs, PagesNeeded(bs, n));
    GrowthSuffices(bs, n);
    assert grown[..|bs| - 1] == bs[..|bs| - 1] && grown[|bs|..] == [];
  }

  /** The successor of block `k` is free, and both together have room for `bytes` bytes. */
  predicate Joins(bs: seq<Block>, k: nat, bytes: nat)
    requires k < |bs|
  {
    k + 1 < |bs| && !bs[k + 1].used && 8 * (bs[k].words + bs[k + 1].words + 2) >= bytes
  }

  /**
    What a resize does, in terms of the sizes alone. A block that is large enough stays. One with a free successor
    takes of it what it needs, when something is left over, and the whole of it otherwise. All others move.
   */
  lemma {:induction false} ResizeIs(s: HeapState, k: nat, bytes: nat, avail: nat)
    requires k < |s.blocks|
    requires (k + 1 < |s.blocks| && !s.blocks[k + 1].used
              && 8 * s.blocks[k].words < bytes < 8 * (s.blocks[k].words + s.blocks[k + 1].words)) ==> bytes % 8 == 0
    ensures var bs := s.blocks;
            var w := bs[k].words;
            && (8 * w >= bytes ==> ResizeRoute(bs, k, bytes) == Keep && AfterResize(s, k, bytes, avail) == s)
            && (8 * w < bytes && k + 1 < |bs| && !bs[k + 1].used && 8 * (w + bs[k + 1].words) > bytes ==>
                  && ResizeRoute(bs, k, bytes) == Carve
                  && AfterResize(s, k, bytes, avail)
                     == HeapState(bs[..k] + [Block(bytes / 8, true), Block(w + bs[k + 1].words - bytes / 8, false)]
                                  + bs[k + 2..],
                                  s.usedBytes + bytes - 8 * w, s.blockCount))
            && (8 * w < bytes && k + 1 < |bs| && !bs[k + 1].used
                && 8 * (w + bs[k + 1].words) <= bytes <= 8 * (w + bs[k + 1].words + 2) ==>
                  && ResizeRoute(bs, k, bytes) == Absorb
                  && AfterResize(s, k, bytes, avail)
                     == HeapState(bs[..k] + [Block(w + bs[k + 1].words + 2, true)] + bs[k + 2..],
                                  s.usedBytes + 8 * (bs[k + 1].words + 2), s.blockCount))
            && (8 * w < bytes && (k + 1 == |bs| || bs[k + 1].used || 8 * (w + bs[k + 1].words + 2) < bytes) ==>
                  ResizeRoute(bs, k, bytes) == Move)
  {
  }

  /** Growing in place leaves the block where it is. */
  lemma {:induction false} GrownInPlace(s: HeapState, k: nat, bytes: nat, avail: nat, bs: seq<Block>)
    requires k < |s.blocks| && s.blocks[k].used && 8 * s.blocks[k].words < bytes && Joins(s.blocks, k, bytes)
    requires bs == AfterResize(s, k, bytes, avail).blocks
    ensures k < |bs| && bs[k].used && bs[..k] == s.blocks[..k]
  {
  }

  lemma {:induction false} AfterFreeState(s: HeapState, k: nat, t: HeapState)
    requires k < |s.blocks|
    requires t.blocks == Release(s.blocks, k)
    requires t.usedBytes == s.usedBytes - 8 * s.blocks[k].words && t.blockCount == s.blockCount - 1
    ensures t == AfterFree(s, k)
  {
  }

  lemma {:induction false} AfterMoveIs(s: HeapState, k: nat, bytes: nat, avail: nat, j: nat)
    requires LastFree(s.blocks) && k < |s.blocks| && s.blocks[k].used
    requires ResizeRoute(s.blocks, k, bytes) == Move
    requires var n := WordsFor(bytes); j == Shifted(GrowLast(s.blocks, PagesNeeded(s.blocks, n)), n, k)
    ensures var t := AfterAlloc(s, WordsFor(bytes), avail);
            if PagesNeeded(s.blocks, WordsFor(bytes)) > avail then AfterResize(s, k, bytes, avail) == t
            else j < |t.blocks| && AfterResize(s, k, bytes, avail) == AfterFree(t, j)
  {
    var n := WordsFor(bytes);
    GrowthSuffices(s.blocks, n);
    ShiftedBlock(s.blocks, n, PagesNeeded(s.blocks, n), k);
    AfterAllocIs(s, n, avail);
  }

  lemma {:induction false} AfterAbsorbIs(s: HeapState, k: nat, bytes: nat)
    requires k < |s.blocks| && ResizeRoute(s.blocks, k, bytes) == Absorb
    ensures AfterResize(s, k, bytes, 0)
         == HeapState(AbsorbNext(s.blocks, k), s.usedBytes + 8 * s.blocks[k + 1].words + 16, s.blockCount)
  {
  }

  lemma {:induction false} AfterCarveIs(s: HeapState, k: nat, bytes: nat, n: nat)
    requires k < |s.blocks| && ResizeRoute(s.blocks, k, bytes) == Carve && n == WordsFor(bytes)
    ensures AfterResize(s, k, bytes, 0)
         == HeapState(CarveNext(s.blocks, k, n), s.usedBytes + 8 * (n - s.blocks[k].words), s.blockCount)
  {
  }

  /** A move changes the counters by the difference of the two sizes alone. */
  lemma {:induction false} MoveTotals(s: HeapState, k: nat, bytes: nat, avail: nat)
    requires LastFree(s.blocks) && k < |s.blocks| && s.blocks[k].used
    requires ResizeRoute(s.blocks, k, bytes) == Move && PagesNeeded(s.blocks, WordsFor(bytes)) <= avail
    ensures var t := AfterResize(s, k, bytes, avail);
            && t.usedBytes == s.usedBytes + 8 * (WordsFor(bytes) - s.blocks[k].words)
            && t.blockCount == s.blockCount
  {
    var n := WordsFor(bytes);
    var g := PagesNeeded(s.blocks, n);
    var j := Shifted(GrowLast(s.blocks, g), n, k);
    GrowthSuffices(s.blocks, n);
    AfterMoveIs(s, k, bytes, avail, j);
    AfterAllocIs(s, n, avail);
    ShiftedBlock(s.blocks, n, g, k);
  }

  lemma {:induction false} AfterMoveSound(s: HeapState, k: nat, bytes: nat, avail: nat)
    requires SoundState(s)
    requires k < |s.blocks| && s.blocks[k].used
    requires ResizeRoute(s.blocks, k, bytes) == Move
    ensures SoundState(AfterResize(s, k, bytes, avail))
  {
    var n := WordsFor(bytes);
    var g := PagesNeeded(s.blocks, n);
    var j := Shifted(GrowLast(s.blocks, g), n, k);
    AfterMoveIs(s, k, bytes, avail, j);
    AfterAllocSound(s, n, avail);
    if g <= avail {
      AfterAllocIs(s, n, avail);
      ShiftedBlock(s.blocks, n, g, k);
      var t := AfterAlloc(s, n, avail);
      ReleaseSound(t.blocks, t.usedBytes, t.blockCount, j);
    }
  }

  lemma {:induction false} AfterResizeSound(s: HeapState, k: nat, bytes: nat, avail: nat)
    requires SoundState(s)
    requires k < |s.blocks| && s.blocks[k].used
    requires ResizeRoute(s.blocks, k, bytes) == Carve ==> bytes % 8 == 0
    ensures SoundState(AfterResize(s, k, bytes, avail)) <==> !AbsorbsLast(s.blocks, k, bytes)
  {
    var bs, n := s.blocks, WordsFor(bytes);
    match ResizeRoute(bs, k, bytes)
    case Keep =>
    case Absorb => AbsorbSoundIff(bs, s.usedBytes, s.blockCount, k);
    case Carve => CarveSound(bs, s.usedBytes, s.blockCount, k, n);
    case Move => AfterMoveSound(s, k, bytes, avail);
  }

  /**
    Allocating and freeing again gives back the same counters and the same tiling, up to the
    pages mapped; when no page was mapped, exactly the same state.
   */
  lemma {:induction false} FreeUndoesAlloc(s: HeapState, n: nat, avail: nat)
    requires SoundState(s) && (n > 0 || FirstFit(s.blocks, n) < |s.blocks|)
    requires PagesNeeded(s.blocks, n) <= avail
    ensures var grown := GrowLast(s.blocks, PagesNeeded(s.blocks, n));
            var k, t := FirstFit(grown, n), AfterAlloc(s, n, avail);
            && k < |t.blocks| && t.blocks[k] == Block(n, true)
            && AfterFree(t, k) == s.(blocks := grown)
    ensures FirstFit(s.blocks, n) < |s.blocks| ==> GrowLast(s.blocks, PagesNeeded(s.blocks, n)) == s.blocks
  {
    var need := PagesNeeded(s.blocks, n);
    var grown := GrowLast(s.blocks, need);
    AfterAllocIs(s, n, avail);
    AllocSound(s.blocks, s.usedBytes, s.blockCount, n, need);
    ReleaseUndoesSplit(grown, FirstFit(grown, n), n);
  }

  /** The states a run goes through. */
  ghost predicate IsRun(states: seq<HeapState>, calls: seq<Call>)
  {
    && |states| == |calls| + 1
    && forall i :: 0 <= i < |calls| ==>
         states[i].blocks != [] && Allowed(states[i], calls[i]) && states[i + 1] == After(states[i], calls[i])
  }

  /** Every state of every run that starts from a fresh heap satisfies the invariant. */
  lemma {:induction false} RunSound(states: seq<HeapState>, calls: seq<Call>, i: nat)
    requires IsRun(states, calls)
    requires states[0] == HeapState([Block(PAGE_WORDS - 2, false)], 0, 0)
    requires i <= |calls|
    ensures SoundState(states[i])
  {
    if i == 0 {
      assert states[0].blocks[1..] == [];
    } else {
      RunSound(states, calls, i - 1);
      var s, c := states[i - 1], calls[i - 1];
      assert states[(i - 1) + 1] == After(s, c);
      match c
      case AllocCall(n, avail) => AfterAllocSound(s, n, avail);
      case FreeCall(k) => ReleaseSound(s.blocks, s.usedBytes, s.blockCount, k);
      case ResizeCall(k, bytes, avail) => AfterResizeSound(s, k, bytes, avail);
      case RefusedCall =>
    }
  }

  /**
    After a resize has absorbed the last block, the next request that finds no room grows
    and splits that very block: it is handed out a second time.
   */
  lemma {:induction false} AbsorbedLastIsReused(bs: seq<Block>, used: int, count: int, k: nat, bytes: nat, n: nat)
    requires Sound(bs, used, count)
    requires k < |bs| && bs[k].used && AbsorbsLast(bs, k, bytes)
    requires n > 0 && FirstFit(AbsorbNext(bs, k), n) == |bs| - 1
    ensures var r := AbsorbNext(bs, k);
            && r[k].used
            && FirstFit(GrowLast(r, PagesNeeded(r, n)), n) == k
            && GrowLast(r, PagesNeeded(r, n))[..k] == bs[..k]
  {
    GrowthSuffices(AbsorbNext(bs, k), n);
  }

  /** A heap on which this happens: 80 bytes resized to 4080 in the first page, then any request. */
  lemma {:induction false} AbsorbedLastExample(n: nat)
    requires n > 0
    ensures var bs := [Block(10, true), Block(498, false)];
            && Sound(bs, 80, 1)
            && AbsorbsLast(bs, 0, 4080)
            && FirstFit(AbsorbNext(bs, 0), n) == |bs| - 1
  {
    var bs := [Block(10, true), Block(498, false)];
    assert bs == [bs[0]] + [bs[1]];
    UsedConcat([bs[0]], [bs[1]]);
    assert AbsorbNext(bs, 0) == [Block(510, true)];
  }
}
