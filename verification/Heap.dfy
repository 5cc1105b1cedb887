/**
  The boundary-tag heap (src/heap.c): first-fit allocation with splitting, release with
  coalescing on both sides, growth by whole pages and resizing in place.

  Block positions are word offsets from the start of the heap; pointers handed to users
  are byte addresses. `mem` holds exactly the words mapped so far, so an access outside
  the mapped range would be an index error.
 */
module Heaps {
  import opened Options
  import opened HeapTiling
  import opened HeapTags
  import opened HeapSteps
  import Memory

  /** The contents of a page as it comes from the physical allocator. */
  type Page = p: seq<nat> | |p| == PAGE_WORDS witness seq(PAGE_WORDS, _ => 0)

  datatype ResizeResult =
    | Null              // a pointer was refused, or a plain allocation failed
    | Resized(ptr: nat)
    | Fault             // the copy would write through a null pointer

  class Heap {
    const start: nat
    const end: nat
    var valid: bool
    var vmemMark: nat
    var usedBytes: nat
    var blockCount: nat
    var mem: seq<nat>
    ghost var blocks: seq<Block>

    constructor (start: nat, end: nat)
      ensures this.start == start && this.end == end && !valid
    {
      this.start, this.end := start, end;
      valid, vmemMark, usedBytes, blockCount := false, 0, 0, 0;
      mem, blocks := [], [];
    }

    /** The mapped range is tiled exactly by blocks whose two tags agree. */
    ghost predicate Tiled()
      reads this
    {
      && 0 < start && start % 8 == 0
      && vmemMark == start + 8 * |mem|
      && blocks != []
      && Tiles(mem, blocks)
    }

    ghost predicate Valid()
      reads this
    {
      Tiled() && Sound(blocks, usedBytes, blockCount)
    }

    /** The block structure and the counters. */
    ghost function State(): HeapState
      reads this
    {
      HeapState(blocks, usedBytes, blockCount)
    }

    /** The words behind a live pointer. */
    ghost function Live(p: int): Option<seq<nat>>
      reads this
      requires Tiled()
    {
      At(start, mem, 0, blocks, p)
    }

    /** Word offset of the header behind the block at `h`. */
    function Next(h: nat): nat
      reads this
      requires h < |mem|
    {
      h + 1 + DataWords(mem[h]) + 1
    }

    predicate HasNext(h: nat)
      reads this
      requires h < |mem|
    {
      start + 8 * Next(h) < vmemMark
    }

    /** What the tag words say about block `k`. */
    lemma {:induction false} ReadTags(k: nat)
      requires Tiled() && k < |blocks|
      ensures var h := Size(blocks[..k]);
              && h + blocks[k].words + 2 <= |mem|
              && DataSize(mem[h]) == 8 * blocks[k].words && DataWords(mem[h]) == blocks[k].words
              && IsPresent(mem[h]) == blocks[k].used
              && !IsFooter(mem[h])
              && Next(h) == Size(blocks[..k + 1])
              && HasNext(h) == (k + 1 < |blocks|)
              && DataSize(mem[h + blocks[k].words + 1]) == 8 * blocks[k].words
              && IsFooter(mem[h + blocks[k].words + 1])
    {
      RowAt(mem, blocks, k);
      TagRoundTrip(blocks[k]);
      if k + 1 < |blocks| {
        RowAt(mem, blocks, k + 1);
      } else {
        assert blocks[..k + 1] == blocks;
      }
    }

    // ---------------------------------------------------------------- init

    /** `page` holds the first page, or is empty when it cannot be mapped. */
    method Init(page: seq<Page>) returns (ok: bool)
      requires start % 8 == 0
      modifies this
      ensures ok <==> start != 0 && end != 0 && page != []
      ensures ok ==> valid && Valid() && blocks == [Block(PAGE_WORDS - 2, false)]
      ensures ok ==> forall p :: Live(p) == None
    {
      if start == 0 || end == 0 {
        return false;
      }
      vmemMark := start + 8 * PAGE_WORDS;
      usedBytes, blockCount := 0, 0;
      if page == [] {
        return false;
      }
      mem := SetTags(page[0], 0, Block(PAGE_WORDS - 2, false));
      valid := true;
      OneBlock(start, mem, 0, Block(PAGE_WORDS - 2, false), 0);
      blocks := [Block(PAGE_WORDS - 2, false)];
      assert UsedBytes(blocks) == 0 && UsedCount(blocks) == 0 by {
        assert blocks[1..] == [];
      }
      ok := true;
    }

    // ---------------------------------------------------------------- alloc

    /** Carves `n` words off the free block at `h`. */
    method Take(h: nat, n: nat, ghost k: nat) returns (p: nat)
      requires Tiled()
      requires k < |blocks| && Fits(blocks[k], n) && h == Size(blocks[..k])
      modifies this
      ensures Tiled()
      ensures State() == HeapState(SplitAt(old(blocks), k, n), old(usedBytes) + 8 * n, old(blockCount) + 1)
      ensures p == start + 8 * h + 8 && NewPayload(start, old(mem), old(blocks), mem, blocks, p, n)
      ensures valid == old(valid) && |mem| == |old(mem)|
    {
      ReadTags(k);
      var free := DataWords(mem[h]) - (n + 2);
      AtBlock(start, mem, blocks, k);
      SplitEffect(start, mem, blocks, k, n);
      mem := PairMem(mem, h, n, free);
      usedBytes := usedBytes + 8 * n;
      blockCount := blockCount + 1;
      blocks := SplitAt(blocks, k, n);
      p := start + 8 * h + 8;
    }

    /** Maps one page behind the block at `h`, which then has `w` words and is tagged free. */
    method MapPage(h: nat, w: nat, page: Page, ghost m: seq<nat>, ghost bs: seq<Block>, ghost g: nat)
      requires Tiles(m, bs) && bs != [] && Grown(start, m, bs, mem, g) && vmemMark == start + 8 * |mem|
      requires h == Size(bs[..|bs| - 1]) && w == bs[|bs| - 1].words + PAGE_WORDS * g
      modifies this`mem, this`vmemMark
      ensures Grown(start, m, bs, mem, g + 1) && vmemMark == start + 8 * |mem|
    {
      ghost var was := mem;
      GrownLength(start, m, bs, mem, g);
      vmemMark := vmemMark + 8 * PAGE_WORDS;
      mem := GrowMem(mem, page, h, w);
      GrownNext(start, m, bs, was, g, page, h, w, mem);
    }

    /** Maps `pcnt` pages behind the block at `h`, tagging it as one larger free block after each. */
    method Grow(h: nat, pcnt: nat, supply: seq<Page>) returns (ok: bool)
      requires Tiled() && h == Size(blocks[..|blocks| - 1])
      modifies this`mem, this`vmemMark, this`blocks
      ensures Tiled()
      ensures ok <==> pcnt <= |supply|
      ensures var g := if ok then pcnt else |supply|;
              && blocks == GrowLast(old(blocks), g)
              && Grown(start, old(mem), old(blocks), mem, g)
    {
      ReadTags(|blocks| - 1);
      ghost var m, bs := mem, blocks;
      var sz := DataWords(mem[h]);
      var i := 0;
      while i < pcnt
        invariant i <= pcnt && i <= |supply|
        invariant Grown(start, m, bs, mem, i)
        invariant vmemMark == start + 8 * |mem|
      {
        if i == |supply| {
          break;
        }
        MapPage(h, sz + PAGE_WORDS * i, supply[i], m, bs, i);
        i := i + 1;
      }
      ok := i == pcnt;
      blocks := GrowLast(bs, i);
    }

    /** One growth round of the search that started on tiling `bs` in memory `m` and has come to block `k`. */
    method GrowRound(h: nat, n: nat, g: nat, supply: seq<Page>, ghost m: seq<nat>, ghost bs: seq<Block>, ghost k: nat)
        returns (ok: bool, pcnt: nat)
      requires Tiled() && Tiles(m, bs) && bs != []
      requires blocks == GrowLast(bs, g) && Grown(start, m, bs, mem, g)
      requires SearchState(bs, n, g, k) && k == |bs| - 1 && h == Size(bs[..k]) && g <= |supply|
      requires !Fits(blocks[k], n) && (n > 0 || FirstFit(bs, n) < |bs|)
      modifies this`mem, this`vmemMark, this`blocks
      ensures Tiled() && 0 < pcnt && g + pcnt <= PagesNeeded(bs, n) <= 2 * RoundPages(n)
      ensures ok <==> g + pcnt <= |supply|
      ensures ok ==> SearchState(bs, n, g + pcnt, k)
      ensures var g' := if ok then g + pcnt else |supply|;
              blocks == GrowLast(bs, g') && Grown(start, m, bs, mem, g')
    {
      SearchGrow(bs, n, g, k);
      GrowPrefix(bs, g, k);
      RoundPagesBytes(n);
      ghost var m1 := mem;
      pcnt := (8 * n + 4095) / 4096;
      ok := Grow(h, pcnt, supply[g..]);
      GrownTrans(start, m, bs, m1, g, mem, if ok then pcnt else |supply| - g);
    }

    /**
      The first-fit search: walks the blocks from the start and maps pages when it runs off
      the last one. Returns the header of a free block with room for `n` words and tags.
     */
    method FindRoom(n: nat, supply: seq<Page>) returns (found: bool, h: nat, ghost k: nat)
      requires Tiled()
      requires n > 0 || FirstFit(blocks, 0) < |blocks|
      modifies this`mem, this`vmemMark, this`blocks
      ensures Tiled()
      ensures found <==> PagesNeeded(old(blocks), n) <= |supply|
      ensures var g := if found then PagesNeeded(old(blocks), n) else |supply|;
              && blocks == GrowLast(old(blocks), g)
              && Grown(start, old(mem), old(blocks), mem, g)
      ensures found ==> k == FirstFit(blocks, n) < |blocks| && h == Size(blocks[..k]) == Size(old(blocks)[..k])
    {
      ghost var m, bs := mem, blocks;
      var g := 0;
      found, h, k := false, 0, 0;
      assert bs[..0] == [];
      while start + 8 * h < vmemMark
        invariant !found && start + 8 * h < vmemMark
        invariant Tiled() && blocks == GrowLast(bs, g) && Grown(start, m, bs, mem, g)
        invariant SearchState(bs, n, g, k) && h == Size(bs[..k])
        invariant g <= |supply|
        decreases 2 * RoundPages(n) - g, |bs| - k
      {
        GrowPrefix(bs, g, k);
        ReadTags(k);
        if !IsPresent(mem[h]) && DataSize(mem[h]) >= 8 * n + 16 {
          SearchDone(bs, n, g, k);
          found := true;
          break;
        }
        if !HasNext(h) {
          var ok, pcnt := GrowRound(h, n, g, supply, m, bs, k);
          if !ok {
            g := |supply|;
            break;
          }
          g := g + pcnt;
        } else {
          SearchAdvance(bs, n, g, k);
          h := Next(h);
          k := k + 1;
        }
      }
    }

    /** Allocates `n` words: search, then split. */
    method AllocWords(n: nat, supply: seq<Page>) returns (p: nat, ghost k: nat, ghost grew: nat)
      requires Tiled()
      requires n > 0 || FirstFit(blocks, 0) < |blocks|
      modifies this
      ensures Tiled() && valid == old(valid)
      ensures Answered(start, old(blocks), n, |supply|, p, grew) && |mem| == |old(mem)| + PAGE_WORDS * grew
      ensures p != 0 ==>
                var grown := GrowLast(old(blocks), PagesNeeded(old(blocks), n));
                && k == FirstFit(grown, n) < |grown|
                && State() == HeapState(SplitAt(grown, k, n), old(usedBytes) + 8 * n, old(blockCount) + 1)
                && Live(p).Some? && |Live(p).value| == n
      ensures p == 0 ==> State() == HeapState(GrowLast(old(blocks), |supply|), old(usedBytes), old(blockCount))
      ensures old(LastFree(blocks)) ==> old(Live(p)) == None && forall q :: q != p ==> Live(q) == old(Live(q))
    {
      var found, h;
      found, h, k := FindRoom(n, supply);
      grew := if found then PagesNeeded(old(blocks), n) else |supply|;
      ghost var m, bs := mem, blocks;
      if found {
        p := Take(h, n, k);
        if old(LastFree(blocks)) {
          GrownNew(start, old(mem), old(blocks), m, bs, grew, mem, blocks, p, n);
        }
      } else {
        p := 0;
        if old(LastFree(blocks)) {
          GrownKeeps(start, old(mem), old(blocks), m, grew);
        }
      }
    }

    /** The same, as a step on the row of blocks. */
    method AllocStep(n: nat, supply: seq<Page>) returns (p: nat, ghost grew: nat)
      requires Tiled()
      requires n > 0 || FirstFit(blocks, 0) < |blocks|
      modifies this
      ensures Tiled() && valid == old(valid) && (old(Valid()) ==> Valid())
      ensures State() == AfterAlloc(old(State()), n, |supply|)
      ensures Answered(start, old(blocks), n, |supply|, p, grew) && |mem| == |old(mem)| + PAGE_WORDS * grew
      ensures p != 0 ==> Live(p).Some? && |Live(p).value| == n
      ensures usedBytes == old(usedBytes) + (if p != 0 then 8 * n else 0)
      ensures blockCount == old(blockCount) + (if p != 0 then 1 else 0)
      ensures old(LastFree(blocks)) ==> old(Live(p)) == None && forall q :: q != p ==> Live(q) == old(Live(q))
    {
      ghost var k;
      p, k, grew := AllocWords(n, supply);
      AfterAllocState(old(State()), n, |supply|, k, State());
      if old(Valid()) {
        AfterAllocSound(old(State()), n, |supply|);
      }
    }

    /**
      Allocates `bytes` bytes. `supply` holds the pages that can be mapped during the call,
      in order; mapping fails once they are used up.
     */
    method Alloc(bytes: nat, supply: seq<Page>) returns (p: nat)
      requires Tiled()
      requires bytes > 0 || FirstFit(blocks, 0) < |blocks|
      modifies this
      ensures Tiled() && valid == old(valid)
      ensures State() == AfterAlloc(old(State()), WordsFor(bytes), |supply|)
      ensures p != 0 <==> PagesNeeded(old(blocks), WordsFor(bytes)) <= |supply|
      ensures p != 0 ==> var need := PagesNeeded(old(blocks), WordsFor(bytes));
                         var k := FirstFit(GrowLast(old(blocks), need), WordsFor(bytes));
                         k < |old(blocks)| && p == Ptr(start, old(blocks), k)
      ensures p != 0 ==> Live(p).Some? && bytes <= 8 * |Live(p).value| < bytes + 8
      ensures usedBytes == old(usedBytes) + (if p != 0 then 8 * |Live(p).value| else 0)
      ensures blockCount == old(blockCount) + (if p != 0 then 1 else 0)
      ensures forall k: nat :: k < |old(blocks)| && !old(blocks)[k].used && 8 * old(blocks)[k].words >= bytes + 16
                               && NoneBelow(old(blocks), k, bytes) ==>
                                 p == Ptr(start, old(blocks), k) && vmemMark == old(vmemMark)
      ensures NoneBelow(old(blocks), |old(blocks)|, bytes) ==>
                var w, r := old(blocks)[|old(blocks)| - 1].words, (bytes + 4095) / 4096;
                var g := if 8 * w + 4096 * r >= bytes + 16 then r else 2 * r;
                && (p != 0 <==> g <= |supply|) && (p != 0 ==> p == Ptr(start, old(blocks), |old(blocks)| - 1))
                && vmemMark == old(vmemMark) + 4096 * (if g <= |supply| then g else |supply|)
      ensures old(LastFree(blocks)) ==> old(Live(p)) == None
      ensures old(LastFree(blocks)) ==> forall q :: q != p ==> Live(q) == old(Live(q))
      ensures old(Valid()) ==> Valid()
    {
      var n := WordsFor(bytes);
      ghost var grew;
      p, grew := AllocStep(n, supply);
      forall i: nat | i < |old(blocks)| && !old(blocks)[i].used && 8 * old(blocks)[i].words >= bytes + 16
                      && NoneBelow(old(blocks), i, bytes)
        ensures p == Ptr(start, old(blocks), i) && grew == 0
      {
        AnsweredFrom(start, old(blocks), bytes, |supply|, p, grew, i);
      }
      if NoneBelow(old(blocks), |old(blocks)|, bytes) {
        AnsweredLast(start, old(blocks), bytes, |supply|, p, grew);
      }
    }

    /** No block before block `k` is free with room for `bytes` bytes and two tags. */
    static ghost predicate NoneBelow(bs: seq<Block>, k: nat, bytes: nat)
      requires k <= |bs|
    {
      forall j :: 0 <= j < k ==> bs[j].used || 8 * bs[j].words < bytes + 16
    }

    // ---------------------------------------------------------------- validate, free

    /** Header position of the block with payload pointer `m`. */
    function HeaderOf(m: nat): int
    {
      (m - 8 - start) / 8
    }

    lemma HeaderOfPtr(m: nat, h: nat)
      requires m == start + 8 * h + 8
      ensures HeaderOf(m) == h
      ensures start % 8 == 0 ==> m % 8 == 0
    {
      assert m - 8 - start == 8 * h;
    }

    /** The words that validating `m` reads are mapped. */
    predicate Checkable(m: nat)
      reads this
    {
      m % 8 == 0 && start <= m - 8 < end ==>
        && 0 <= HeaderOf(m) < |mem|
        && var tag := mem[HeaderOf(m)];
        (!IsFooter(tag) && start < m + DataSize(tag) <= end ==>
           DataSize(tag) % 8 == 0 && HeaderOf(m) + 1 + DataWords(tag) < |mem|)
    }

    /** The plausibility check on pointers that come back from users. */
    predicate Validate(m: nat)
      reads this
      requires Checkable(m)
    {
      if m % 8 != 0 then false
      else if !(start <= m - 8 < end) || IsFooter(mem[HeaderOf(m)]) then false
      else
        var tag := mem[HeaderOf(m)];
        if !(start < m + DataSize(tag) <= end) then false
        else
          var footer := mem[HeaderOf(m) + 1 + DataWords(tag)];
          IsFooter(footer) && DataSize(tag) == DataSize(footer)
    }

    /** Live pointers are aligned, and validation accepts one exactly when its footer is not past the end. */
    lemma {:induction false} ValidateLive(m: nat)
      requires Tiled() && Live(m).Some?
      ensures m % 8 == 0 && start < m && m + 8 * |Live(m).value| + 8 <= vmemMark
      ensures Checkable(m)
      ensures Validate(m) <==> m + 8 * |Live(m).value| <= end
    {
      LiveBlock(start, mem, blocks, m);
      var k := BlockOf(start, 0, blocks, m);
      ReadTags(k);
      HeaderOfPtr(m, Size(blocks[..k]));
    }

    /** The free predecessor of the block at `block`, if there is one. */
    method FreePrev(block: nat, ghost k: nat) returns (found: bool, prev: nat, words: nat)
      requires Tiled() && k < |blocks| && block == Size(blocks[..k])
      ensures found <==> MergeLo(blocks, k) < k
      ensures found ==> prev == Size(blocks[..k - 1]) && words == blocks[k - 1].words
    {
      found, prev, words := false, 0, 0;
      AtStart(blocks, k);
      if start + 8 * block > start {
        ReadTags(k - 1);
        prev := block - 1 - 1 - DataWords(mem[block - 1]);
        words := DataWords(mem[prev]);
        found := !IsPresent(mem[prev]);
      }
    }

    /** Header position and payload size of the block that results when the block at `block` is freed. */
    method Coalesce(block: nat, ghost k: nat) returns (at: nat, words: nat)
      requires Tiled() && k < |blocks| && block == Size(blocks[..k])
      ensures at == Size(blocks[..MergeLo(blocks, k)])
      ensures words == MergedWords(blocks, k)
    {
      ReadTags(k);
      at, words := block, DataWords(mem[block]);
      if HasNext(block) {
        ReadTags(k + 1);
        var next := Next(block);
        if !IsPresent(mem[next]) {
          words := words + (DataWords(mem[next]) + 2);
        }
      }
      var found, prev, w := FreePrev(block, k);
      if found {
        at, words := prev, words + (w + 2);
      }
    }

    /** A live pointer whose block does not reach past the end of the heap. */
    ghost predicate Freeable(m: nat)
      reads this
      requires Tiled()
    {
      Live(m).Some? && m + 8 * |Live(m).value| <= end
    }

    /** Frees the used block at `block`. */
    method Drop(block: nat, ghost k: nat)
      requires Valid()
      requires k < |blocks| && blocks[k].used && block == Size(blocks[..k])
      modifies this`mem, this`blocks, this`usedBytes, this`blockCount
      ensures Valid()
      ensures blocks == Release(old(blocks), k)
      ensures usedBytes == old(usedBytes) - 8 * old(blocks)[k].words
      ensures blockCount == old(blockCount) - 1
      ensures ChangedAt(start, old(mem), old(blocks), mem, blocks, Ptr(start, old(blocks), k), None)
    {
      ReadTags(k);
      var size := DataWords(mem[block]);
      var at, words := Coalesce(block, k);
      ReleaseEffect(start, mem, blocks, k);
      ReleaseSound(blocks, usedBytes, blockCount, k);
      usedBytes := usedBytes - 8 * size;
      blockCount := blockCount - 1;
      mem := SetTags(mem, at, Block(words, false));
      blocks := Release(blocks, k);
    }

    method Free(m: nat)
      requires Valid()
      requires Live(m).Some? || (Checkable(m) && !Validate(m))
      modifies this`mem, this`blocks, this`usedBytes, this`blockCount
      ensures Valid()
      ensures !old(Freeable(m)) ==> unchanged(this)
      ensures old(Freeable(m)) ==>
                && BlockOf(start, 0, old(blocks), m) < |old(blocks)|
                && blocks == Release(old(blocks), BlockOf(start, 0, old(blocks), m))
                && usedBytes == old(usedBytes) - 8 * |old(Live(m)).value|
                && blockCount == old(blockCount) - 1
                && Live(m) == None
                && (forall q :: q != m ==> Live(q) == old(Live(q)))
                && (forall i, j :: 0 <= i < j < |blocks| && j == i + 1 ==> blocks[i].used || blocks[j].used)
    {
      if Live(m).Some? {
        ValidateLive(m);
      }
      if !Validate(m) {
        return;
      }
      ghost var k := BlockOf(start, 0, blocks, m);
      LiveBlock(start, mem, blocks, m);
      HeaderOfPtr(m, Size(blocks[..k]));
      Drop(HeaderOf(m), k);
    }

    // ---------------------------------------------------------------- realloc

    /** Takes the whole free successor. */
    method Absorb(block: nat, ghost k: nat)
      requires Valid()
      requires k + 1 < |blocks| && blocks[k].used && !blocks[k + 1].used && block == Size(blocks[..k])
      modifies this`mem, this`blocks, this`usedBytes
      ensures Tiled() && |mem| == |old(mem)|
      ensures blocks == AbsorbNext(old(blocks), k)
      ensures usedBytes == old(usedBytes) + 8 * old(blocks)[k + 1].words + 16
      ensures Extends(start, old(mem), old(blocks), mem, blocks, Ptr(start, old(blocks), k),
                      old(blocks)[k].words + old(blocks)[k + 1].words + 2)
    {
      ReadTags(k);
      ReadTags(k + 1);
      var w, v := DataWords(mem[block]), DataWords(mem[Next(block)]);
      var n := w + (v + 2);
      AbsorbExtends(start, mem, blocks, k, block, n);
      mem := SetTags(mem, block, Block(n, true));
      usedBytes := usedBytes + 8 * (n - w);
      blocks := AbsorbNext(blocks, k);
    }

    /** Takes as much of the free successor as `n` words need. */
    method Carve(block: nat, n: nat, ghost k: nat)
      requires Valid()
      requires k + 1 < |blocks| && blocks[k].used && !blocks[k + 1].used && block == Size(blocks[..k])
      requires blocks[k].words <= n <= blocks[k].words + blocks[k + 1].words
      modifies this`mem, this`blocks, this`usedBytes
      ensures Tiled() && |mem| == |old(mem)|
      ensures blocks == CarveNext(old(blocks), k, n)
      ensures usedBytes == old(usedBytes) + 8 * (n - old(blocks)[k].words)
      ensures Extends(start, old(mem), old(blocks), mem, blocks, Ptr(start, old(blocks), k), n)
    {
      ReadTags(k);
      ReadTags(k + 1);
      var w, v := DataWords(mem[block]), DataWords(mem[Next(block)]);
      var rest := v - (n - w);
      CarveExtends(start, mem, blocks, k, block, n, rest);
      mem := PairMem(mem, block, n, rest);
      usedBytes := usedBytes + 8 * (n - w);
      blocks := CarveNext(blocks, k, n);
    }

    /** Copies the payload of the block at `g` to the start of the payload of the block at `h`. */
    method Copy(h: nat, g: nat, n: nat, ghost k: nat, ghost j: nat)
      requires Tiled()
      requires k < |blocks| && blocks[k].used && h == Size(blocks[..k])
      requires j < |blocks| && blocks[j].used && g == Size(blocks[..j])
      requires n == blocks[j].words <= blocks[k].words
      modifies this`mem
      ensures Tiled() && |mem| == |old(mem)|
      ensures old(Live(Ptr(start, blocks, k))).Some? && old(Live(Ptr(start, blocks, j))).Some?
      ensures Copied(start, old(mem), blocks, mem, Ptr(start, blocks, k), Ptr(start, blocks, j))
    {
      assert h + 1 + blocks[k].words <= |mem| && g + 1 + n <= |mem| by {
        RowAt(mem, blocks, k);
        RowAt(mem, blocks, j);
      }
      var r := Memory.Memmove(mem, h + 1, g + 1, n);
      CopyEffect(start, mem, blocks, k, j, h + 1, g + 1, n, r);
      mem := r;
    }

    /** Copies payload `m` to the larger payload `p` and frees `m`. */
    method Relocate(m: nat, p: nat)
      requires Valid() && Freeable(m) && p != m && Live(p).Some? && |Live(m).value| <= |Live(p).value|
      modifies this`mem, this`blocks, this`usedBytes, this`blockCount
      ensures Valid()
      ensures var k := BlockOf(start, 0, old(blocks), m);
              k < |old(blocks)| && State() == AfterFree(old(State()), k)
      ensures Live(m) == None && ResizedTo(old(Live(m)).value, p, 8 * |old(Live(p)).value|)
      ensures |Live(p).value| == |old(Live(p)).value|
      ensures forall q :: q != m && q != p ==> Live(q) == old(Live(q))
    {
      ghost var k, j := BlockOf(start, 0, blocks, p), BlockOf(start, 0, blocks, m);
      LiveBlock(start, mem, blocks, p);
      LiveBlock(start, mem, blocks, m);
      HeaderOfPtr(p, Size(blocks[..k]));
      HeaderOfPtr(m, Size(blocks[..j]));
      ReadTags(j);
      Copy(HeaderOf(p), HeaderOf(m), DataWords(mem[HeaderOf(m)]), k, j);
      ghost var c := Live(p);
      assert c.Some? && old(Live(m)).value <= c.value && |c.value| == |old(Live(p)).value|;
      Free(m);
      assert Live(p) == c;
      AfterFreeState(old(State()), j, State());
    }

    /** Moves a payload to a new block. `Fault` when there is none: the copy goes through a null pointer. */
    method Move(m: nat, bytes: nat, supply: seq<Page>, ghost k: nat) returns (r: ResizeResult)
      requires Valid() && Freeable(m)
      requires k == BlockOf(start, 0, blocks, m) < |blocks| && blocks[k].used && m == Ptr(start, blocks, k)
      requires |Live(m).value| == blocks[k].words && ResizeRoute(blocks, k, bytes) == Route.Move
      modifies this
      ensures Valid() && r != Null
      ensures State() == AfterResize(old(State()), k, bytes, |supply|)
      ensures r == Fault <==> PagesNeeded(old(blocks), WordsFor(bytes)) > |supply|
      ensures r == Fault ==> Live(m) == old(Live(m))
      ensures r != Fault ==> r.ptr != m && old(Live(r.ptr)) == None && Live(m) == None
      ensures r != Fault ==> ResizedTo(old(Live(m)).value, r.ptr, bytes)
      ensures r != Fault ==> 8 * |Live(r.ptr).value| < bytes + 8
      ensures forall q :: q != m && (r == Fault || q != r.ptr) ==> Live(q) == old(Live(q))
    {
      MovedIndex(start, blocks, WordsFor(bytes), m);
      ghost var n := WordsFor(bytes);
      AfterMoveIs(State(), k, bytes, |supply|, Shifted(GrowLast(blocks, PagesNeeded(blocks, n)), n, k));
      AfterAllocIs(State(), WordsFor(bytes), |supply|);
      var p := Alloc(bytes, supply);
      if p == 0 {
        return Fault;
      }
      Relocate(m, p);
      r := Resized(p);
    }

    /** `p` is live, has at least `bytes` bytes, and starts with the words `c`. */
    ghost predicate ResizedTo(c: seq<nat>, p: nat, bytes: nat)
      reads this
      requires Tiled()
    {
      Live(p).Some? && c <= Live(p).value && 8 * |Live(p).value| >= bytes
    }

    /** Tries to grow the block at `block` into its free successor. */
    method GrowInPlace(block: nat, bytes: nat, ghost k: nat) returns (done: bool)
      requires Valid()
      requires k < |blocks| && blocks[k].used && block == Size(blocks[..k]) && 8 * blocks[k].words < bytes
      requires Joins(blocks, k, bytes) && 8 * (blocks[k].words + blocks[k + 1].words) > bytes ==> bytes % 8 == 0
      modifies this`mem, this`blocks, this`usedBytes
      ensures Tiled() && |mem| == |old(mem)|
      ensures done <==> Joins(old(blocks), k, bytes)
      ensures !done ==> unchanged(this)
      ensures done ==> State() == AfterResize(old(State()), k, bytes, 0)
      ensures done ==> Extends(start, old(mem), old(blocks), mem, blocks, Ptr(start, old(blocks), k), WordsFor(bytes))
      ensures Valid() <==> !AbsorbsLast(old(blocks), k, bytes)
    {
      ReadTags(k);
      if HasNext(block) {
        ReadTags(k + 1);
        var next := Next(block);
        var w, v := DataWords(mem[block]), DataWords(mem[next]);
        if !IsPresent(mem[next]) && 8 * (v + 2) + 8 * w >= bytes {
          if 8 * v - (bytes - 8 * w) <= 0 {
            AfterAbsorbIs(State(), k, bytes);
            AfterResizeSound(State(), k, bytes, 0);
            Absorb(block, k);
          } else {
            var n := bytes / 8;
            AfterCarveIs(State(), k, bytes, n);
            AfterResizeSound(State(), k, bytes, 0);
            Carve(block, n, k);
          }
          return true;
        }
      }
      done := false;
    }

    /** Resizes the live payload `m` of block `k`. */
    method Resize(m: nat, bytes: nat, supply: seq<Page>, ghost k: nat) returns (r: ResizeResult)
      requires Valid() && Freeable(m)
      requires k == BlockOf(start, 0, blocks, m) < |blocks| && blocks[k].used && m == Ptr(start, blocks, k)
      requires (k + 1 < |blocks| && !blocks[k + 1].used
                && 8 * blocks[k].words < bytes < 8 * (blocks[k].words + blocks[k + 1].words)) ==> bytes % 8 == 0
      modifies this
      ensures Tiled() && r != Null
      ensures State() == AfterResize(old(State()), k, bytes, |supply|)
      ensures Valid() <==> !AbsorbsLast(old(blocks), k, bytes)
      ensures r == Fault <==> ResizeRoute(old(blocks), k, bytes) == Route.Move
                              && PagesNeeded(old(blocks), WordsFor(bytes)) > |supply|
      ensures r == Resized(m) <==> || 8 * old(blocks)[k].words >= bytes
                                   || (k + 1 < |old(blocks)| && !old(blocks)[k + 1].used
                                       && 8 * (old(blocks)[k].words + old(blocks)[k + 1].words + 2) >= bytes)
      ensures r == Resized(m) ==> |mem| == |old(mem)| && k < |blocks|
                                  && Live(m).Some? && |Live(m).value| == blocks[k].words
      ensures r.Resized? ==> ResizedTo(old(Live(m)).value, r.ptr, bytes)
      ensures r.Resized? && r.ptr != m ==>
                Live(m) == None && old(Live(r.ptr)) == None && 8 * |Live(r.ptr).value| < bytes + 8
      ensures forall q :: q != m && !(r.Resized? && q == r.ptr) ==> Live(q) == old(Live(q))
    {
      ReadTags(k);
      AtBlock(start, mem, blocks, k);
      HeaderOfPtr(m, Size(blocks[..k]));
      ResizeIs(State(), k, bytes, |supply|);
      var block := HeaderOf(m);
      if DataSize(mem[block]) >= bytes {
        return Resized(m);
      }
      var done := GrowInPlace(block, bytes, k);
      if done {
        GrownInPlace(old(State()), k, bytes, 0, blocks);
        SamePlace(start, old(blocks), mem, blocks, k, m);
        return Resized(m);
      }
      r := Move(m, bytes, supply, k);
    }

    method Realloc(m: nat, bytes: nat, supply: seq<Page>) returns (r: ResizeResult)
      requires Valid()
      requires m == 0 ==> bytes > 0 || FirstFit(blocks, 0) < |blocks|
      requires m != 0 ==> Live(m).Some? || (Checkable(m) && !Validate(m))
      requires Freeable(m) ==> var k := BlockOf(start, 0, blocks, m);
                               k + 1 < |blocks| && !blocks[k + 1].used
                               && 8 * blocks[k].words < bytes < 8 * (blocks[k].words + blocks[k + 1].words) ==>
                                 bytes % 8 == 0
      modifies this
      ensures Tiled()
      ensures m == 0 ==> Valid() && State() == AfterAlloc(old(State()), WordsFor(bytes), |supply|)
      ensures m == 0 ==> (r == Null <==> PagesNeeded(old(blocks), WordsFor(bytes)) > |supply|) && r != Fault
      ensures m == 0 && r.Resized? ==> Live(r.ptr).Some? && bytes <= 8 * |Live(r.ptr).value| < bytes + 8
      ensures m != 0 && !old(Freeable(m)) ==> r == Null && unchanged(this)
      ensures old(Freeable(m)) ==>
                var k := BlockOf(start, 0, old(blocks), m);
                && k < |old(blocks)| && old(blocks)[k].used && m == Ptr(start, old(blocks), k)
                && State() == AfterResize(old(State()), k, bytes, |supply|)
                && (Valid() <==> !AbsorbsLast(old(blocks), k, bytes))
                && r != Null
                && (r == Fault <==> ResizeRoute(old(blocks), k, bytes) == Route.Move
                                    && PagesNeeded(old(blocks), WordsFor(bytes)) > |supply|)
                && (r == Resized(m) <==> || 8 * old(blocks)[k].words >= bytes
                                         || (k + 1 < |old(blocks)| && !old(blocks)[k + 1].used
                                             && 8 * (old(blocks)[k].words + old(blocks)[k + 1].words + 2) >= bytes))
                && (r == Resized(m) ==> |mem| == |old(mem)| && k < |blocks|
                                        && Live(m).Some? && |Live(m).value| == blocks[k].words)
      ensures old(Freeable(m)) && r.Resized? ==> ResizedTo(old(Live(m)).value, r.ptr, bytes)
      ensures old(Freeable(m)) && r.Resized? && r.ptr != m ==>
                Live(m) == None && old(Live(r.ptr)) == None && 8 * |Live(r.ptr).value| < bytes + 8
      ensures forall q :: q != m && !(r.Resized? && q == r.ptr) ==> Live(q) == old(Live(q))
    {
      if m == 0 {
        var p := Alloc(bytes, supply);
        return if p == 0 then Null else Resized(p);
      }
      if Live(m).Some? {
        ValidateLive(m);
      }
      if !Validate(m) {
        return Null;
      }
      ghost var k := BlockOf(start, 0, blocks, m);
      LiveBlock(start, mem, blocks, m);
      r := Resize(m, bytes, supply, k);
    }
  }

  /**
    The first allocation of a fresh heap. Growth never looks at the end of the heap, so the pointer
    is handed out in any case; validation takes it back exactly when the payload ends in time.
   */
  method FirstAlloc(start: nat, end: nat, bytes: nat, first: Page, supply: seq<Page>) returns (h: Heap, p: nat)
    requires 0 < start && start % 8 == 0 && 0 < end && 0 < bytes
    requires PagesNeeded([Block(PAGE_WORDS - 2, false)], WordsFor(bytes)) <= |supply|
    ensures h.start == start && h.end == end && h.Valid()
    ensures p == start + 8 && h.Live(p).Some? && h.Checkable(p)
    ensures h.Validate(p) <==> p + 8 * WordsFor(bytes) <= end
  {
    h := new Heap(start, end);
    var ok := h.Init([first]);
    ghost var bs := h.blocks;
    assert bs[..0] == [];
    p := h.Alloc(bytes, supply);
    h.ValidateLive(p);
  }

  /** A live pointer that validation refuses: 4096 bytes from a heap of one page, with one more page to map. */
  method PastEndExample(first: Page, second: Page) returns (h: Heap, p: nat)
    ensures h.Valid() && h.Live(p).Some? && h.Checkable(p) && !h.Validate(p)
  {
    h, p := FirstAlloc(4096, 8192, 4096, first, [second]);
  }
}
