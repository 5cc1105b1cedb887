/**
  The effect of each heap operation on memory: what it writes re-encodes the new row of
  blocks and changes the abstract heap at one pointer only.
 */
module HeapSteps {
  import opened Options
  import opened HeapTiling
  import opened HeapTags
  import opened Memory

  /** The payload pointer of block `k`. */
  ghost function Ptr(base: nat, bs: seq<Block>, k: nat): nat
    requires k <= |bs|
  {
    base + 8 * Size(bs[..k]) + 8
  }

  /** The first `n` words of a payload behind the header at word `h`. */
  function Words(mem: seq<nat>, h: nat, n: nat): seq<nat>
    requires h + 1 + n <= |mem|
  {
    mem[h + 1..h + 1 + n]
  }

  lemma {:induction false} AtBlock(base: nat, mem: seq<nat>, bs: seq<Block>, k: nat)
    requires Tiles(mem, bs) && k < |bs|
    ensures Size(bs[..k]) + bs[k].words + 2 <= |mem|
    ensures At(base, mem, 0, bs, Ptr(base, bs, k))
         == if bs[k].used then Some(Words(mem, Size(bs[..k]), bs[k].words)) else None
  {
    assert bs == bs[..k] + [bs[k]] + bs[k + 1..];
    RowAt(mem, bs, k);
    OneBlock(base, mem, Size(bs[..k]), bs[k], Ptr(base, bs, k));
    AtParts(base, mem, bs[..k], [bs[k]], bs[k + 1..], Ptr(base, bs, k));
  }

  /** The index of the used block whose payload pointer is `p`. */
  ghost function BlockOf(base: nat, lo: nat, bs: seq<Block>, p: int): nat
    decreases |bs|
  {
    if bs == [] || (bs[0].used && p == base + 8 * lo + 8) then 0
    else 1 + BlockOf(base, lo + bs[0].words + 2, bs[1..], p)
  }

  lemma {:induction false} BlockOfFrom(base: nat, mem: seq<nat>, lo: nat, bs: seq<Block>, p: int)
    requires lo + Size(bs) <= |mem|
    requires At(base, mem, lo, bs, p).Some?
    ensures var k := BlockOf(base, lo, bs, p);
            && k < |bs| && bs[k].used
            && p == base + 8 * (lo + Size(bs[..k])) + 8
    decreases |bs|
  {
    var k := BlockOf(base, lo, bs, p);
    if k > 0 {
      BlockOfFrom(base, mem, lo + bs[0].words + 2, bs[1..], p);
      assert bs[..k][1..] == bs[1..][..k - 1];
    }
  }

  /** Every live pointer belongs to a used block, and points at its payload. */
  lemma {:induction false} LiveBlock(base: nat, mem: seq<nat>, bs: seq<Block>, p: int)
    requires Tiles(mem, bs)
    requires At(base, mem, 0, bs, p).Some?
    ensures var k := BlockOf(base, 0, bs, p);
            && k < |bs| && bs[k].used && p == Ptr(base, bs, k)
            && Size(bs[..k]) + bs[k].words + 2 <= |mem|
            && At(base, mem, 0, bs, p) == Some(Words(mem, Size(bs[..k]), bs[k].words))
  {
    BlockOfFrom(base, mem, 0, bs, p);
    AtBlock(base, mem, bs, BlockOf(base, 0, bs, p));
  }

  /** No two used blocks share a pointer. */
  lemma {:induction false} BlockOfUnique(base: nat, lo: nat, bs: seq<Block>, k: nat)
    requires k < |bs| && bs[k].used
    ensures BlockOf(base, lo, bs, base + 8 * (lo + Size(bs[..k])) + 8) == k
    decreases |bs|
  {
    if k > 0 {
      assert bs[..k][1..] == bs[1..][..k - 1];
      BlockOfUnique(base, lo + bs[0].words + 2, bs[1..], k - 1);
    }
  }

  /** The block behind a live pointer after an allocation that found room. */
  lemma {:induction false} MovedIndex(base: nat, bs: seq<Block>, n: nat, m: int)
    requires LastFree(bs) && n > 0
    requires var k := BlockOf(base, 0, bs, m); k < |bs| && bs[k].used && m == Ptr(base, bs, k)
    ensures var grown := GrowLast(bs, PagesNeeded(bs, n));
            var f := FirstFit(grown, n);
            f < |bs| && BlockOf(base, 0, SplitAt(grown, f, n), m) == Shifted(grown, n, BlockOf(base, 0, bs, m))
  {
    GrowthSuffices(bs, n);
    var grown := GrowLast(bs, PagesNeeded(bs, n));
    var k := BlockOf(base, 0, bs, m);
    ShiftedBlock(bs, n, PagesNeeded(bs, n), k);
    BlockOfUnique(base, 0, SplitAt(grown, FirstFit(grown, n), n), Shifted(grown, n, k));
  }

  lemma {:induction false} LaterBlock(bs: seq<Block>, i: nat, j: nat)
    requires i < j < |bs|
    ensures Size(bs[..i]) + bs[i].words + 2 <= Size(bs[..j])
  {
    SizeSplit(bs[..j], i);
    assert bs[..j][..i] == bs[..i];
  }

  /** Two live payloads never touch: the tags of the lower one lie between them. */
  lemma {:induction false} LiveDisjoint(base: nat, mem: seq<nat>, bs: seq<Block>, p: int, q: int)
    requires Tiles(mem, bs) && p != q
    requires At(base, mem, 0, bs, p).Some? && At(base, mem, 0, bs, q).Some?
    ensures var m, n := |At(base, mem, 0, bs, p).value|, |At(base, mem, 0, bs, q).value|;
            p + 8 * m + 16 <= q || q + 8 * n + 16 <= p
  {
    LiveBlock(base, mem, bs, p);
    LiveBlock(base, mem, bs, q);
    var i, j := BlockOf(base, 0, bs, p), BlockOf(base, 0, bs, q);
    if i < j {
      LaterBlock(bs, i, j);
    } else {
      LaterBlock(bs, j, i);
    }
  }

  // ------------------------------------------------------------------ a used block and a free one

  /** Writes a used block of `n` words and behind it a free one of `v` words. */
  function PairMem(mem: seq<nat>, h: nat, n: nat, v: nat): (r: seq<nat>)
    requires h + n + v + 4 <= |mem|
    ensures |r| == |mem|
    ensures Tagged(r, h, Block(n, true)) && Tagged(r, h + n + 2, Block(v, false))
    ensures Agree(mem, r, 0, h) && Agree(mem, r, h + n + v + 4, |mem|)
    ensures forall i :: h < i <= h + n ==> r[i] == mem[i]
  {
    SetTags(SetTags(mem, h, Block(n, true)), h + n + 2, Block(v, false))
  }

  lemma {:induction false} PairReady(base: nat, mem: seq<nat>, pre: seq<Block>, gone: seq<Block>, post: seq<Block>,
      n: nat, v: nat, p: int)
    requires Size(pre) + Size(gone) + Size(post) == |mem|
    requires Size(gone) == n + v + 4
    ensures var mem', come := PairMem(mem, Size(pre), n, v), [Block(n, true), Block(v, false)];
            && Retagged(mem, mem', pre, gone, come, post)
            && Sole(base, mem', Size(pre), come, base + 8 * Size(pre) + 8, Some(Words(mem', Size(pre), n)), p)
  {
    TwoBlocks(base, PairMem(mem, Size(pre), n, v), Size(pre), Block(n, true), Block(v, false), p);
  }

  /** One block tagged in place of `gone`. */
  lemma {:induction false} SingleReady(base: nat, mem: seq<nat>, pre: seq<Block>, gone: seq<Block>, post: seq<Block>,
      b: Block, p: int)
    requires Size(pre) + Size(gone) + Size(post) == |mem|
    requires Size(gone) == b.words + 2
    ensures var mem' := SetTags(mem, Size(pre), b);
            && Retagged(mem, mem', pre, gone, [b], post)
            && Sole(base, mem', Size(pre), [b], base + 8 * Size(pre) + 8,
                    if b.used then Some(Words(mem', Size(pre), b.words)) else None, p)
  {
    OneBlock(base, SetTags(mem, Size(pre), b), Size(pre), b, p);
  }

  // ------------------------------------------------------------------ splitting

  lemma {:induction false} SplitStep(base: nat, mem: seq<nat>, bs: seq<Block>, k: nat, n: nat, p: int)
    requires Tiles(mem, bs)
    requires k < |bs| && Fits(bs[k], n)
    ensures var h, v := Size(bs[..k]), bs[k].words - n - 2;
            && h + n + v + 4 <= |mem|
            && var mem' := PairMem(mem, h, n, v);
            && Tiles(mem', SplitAt(bs, k, n))
            && At(base, mem', 0, SplitAt(bs, k, n), p)
               == (if p == Ptr(base, bs, k) then Some(Words(mem', h, n)) else At(base, mem, 0, bs, p))
  {
    var h, v := Size(bs[..k]), bs[k].words - n - 2;
    RowAt(mem, bs, k);
    var pre, gone, post := bs[..k], [bs[k]], bs[k + 1..];
    OneBlock(base, mem, h, bs[k], p);
    PairReady(base, mem, pre, gone, post, n, v, p);
    assert bs == pre + gone + post;
    var mem' := PairMem(mem, h, n, v);
    Swap(base, mem, mem', bs, SplitAt(bs, k, n), pre, gone, [Block(n, true), Block(v, false)], post,
         Ptr(base, bs, k), None, Some(Words(mem', h, n)), p);
  }

  // ------------------------------------------------------------------ growing

  function GrowMem(mem: seq<nat>, page: seq<nat>, h: nat, w: nat): seq<nat>
    requires |page| == PAGE_WORDS && h + w + 2 == |mem|
  {
    SetTags(mem + page, h, Block(w + PAGE_WORDS, false))
  }

  /** One more page: a payload in the last block, if there is one, is lost. */
  lemma {:induction false} GrowStep(base: nat, mem: seq<nat>, page: seq<nat>, bs: seq<Block>, p: int)
    requires Tiles(mem, bs) && bs != [] && |page| == PAGE_WORDS
    ensures var last := |bs| - 1;
            var h, w := Size(bs[..last]), bs[last].words;
            && h + w + 2 == |mem|
            && var mem' := GrowMem(mem, page, h, w);
            && Tiles(mem', GrowLast(bs, 1))
            && At(base, mem', 0, GrowLast(bs, 1), p)
               == (if p == Ptr(base, bs, last) then None else At(base, mem, 0, bs, p))
  {
    var last := |bs| - 1;
    var h, w := Size(bs[..last]), bs[last].words;
    RowAt(mem, bs, last);
    var mem' := GrowMem(mem, page, h, w);
    var pre, gone, come := bs[..last], [bs[last]], [Block(w + PAGE_WORDS, false)];
    assert bs == pre + gone + [];
    assert GrowLast(bs, 1) == pre + come + [];
    OneBlock(base, mem, h, bs[last], p);
    OneBlock(base, mem', h, come[0], p);
    RetagTiles(mem, mem', pre, gone, come, [], GrowLast(bs, 1));
    RetagAt(base, mem, mem', pre, gone, come, [], p);
  }

  // ------------------------------------------------------------------ releasing

  lemma {:induction false} AtPeel(base: nat, mem: seq<nat>, at: nat, bs: seq<Block>, i: nat, j: nat, p: int)
    requires i < j <= |bs| && at + Size(bs[i..j]) <= |mem|
    ensures Size(bs[i..j]) == bs[i].words + 2 + Size(bs[i + 1..j])
    ensures At(base, mem, at, bs[i..j], p)
         == if bs[i].used && p == base + 8 * at + 8 then Some(Words(mem, at, bs[i].words))
            else At(base, mem, at + bs[i].words + 2, bs[i + 1..j], p)
  {
    assert bs[i..j][1..] == bs[i + 1..j];
  }

  /** A used block with at most a free successor. */
  lemma {:induction false} UsedThenFreeAt(base: nat, mem: seq<nat>, at: nat, bs: seq<Block>, k: nat, hi: nat, p: int)
    requires k < |bs| && bs[k].used && hi <= |bs|
    requires hi == k + 1 || (hi == k + 2 && !bs[k + 1].used)
    requires at + Size(bs[k..hi]) <= |mem|
    ensures Size(bs[k..hi]) >= bs[k].words + 2
    ensures Sole(base, mem, at, bs[k..hi], base + 8 * at + 8, Some(Words(mem, at, bs[k].words)), p)
  {
    AtPeel(base, mem, at, bs, k, hi, p);
    if k + 1 < hi {
      AtPeel(base, mem, at + bs[k].words + 2, bs, k + 1, hi, p);
    }
    assert bs[hi..hi] == [];
  }

  /** The blocks that a release merges hold one payload, the released one. */
  lemma {:induction false} ReleasedAt(base: nat, mem: seq<nat>, at: nat, bs: seq<Block>, k: nat, p: int)
    requires k < |bs| && bs[k].used
    requires at + Size(bs[MergeLo(bs, k)..MergeHi(bs, k)]) <= |mem|
    ensures var lo, hi := MergeLo(bs, k), MergeHi(bs, k);
            var h := at + (if lo < k then bs[lo].words + 2 else 0);
            && h + bs[k].words + 2 <= at + Size(bs[lo..hi])
            && Sole(base, mem, at, bs[lo..hi], base + 8 * h + 8, Some(Words(mem, h, bs[k].words)), p)
  {
    var lo, hi := MergeLo(bs, k), MergeHi(bs, k);
    if lo < k {
      AtPeel(base, mem, at, bs, lo, hi, p);
      UsedThenFreeAt(base, mem, at + bs[lo].words + 2, bs, k, hi, p);
    } else {
      UsedThenFreeAt(base, mem, at, bs, k, hi, p);
    }
  }

  lemma {:induction false} ReleasePlace(mem: seq<nat>, bs: seq<Block>, k: nat)
    requires Tiles(mem, bs)
    requires k < |bs|
    ensures var lo, hi := MergeLo(bs, k), MergeHi(bs, k);
            && Size(bs[..lo]) + Size(bs[lo..hi]) + Size(bs[hi..]) == |mem|
            && Size(bs[..k]) == Size(bs[..lo]) + (if lo < k then bs[lo].words + 2 else 0)
            && Size(bs[lo..hi]) == MergedWords(bs, k) + 2
  {
    var lo, hi := MergeLo(bs, k), MergeHi(bs, k);
    assert bs == bs[..lo] + bs[lo..hi] + bs[hi..];
    RowParts(mem, bs[..lo], bs[lo..hi], bs[hi..]);
    ReleaseParts(bs, k);
    if lo < k {
      SizeSplit(bs, lo);
    }
  }

  lemma {:induction false} ReleaseStep(base: nat, mem: seq<nat>, bs: seq<Block>, k: nat, p: int)
    requires Tiles(mem, bs)
    requires k < |bs| && bs[k].used
    ensures var h, b := Size(bs[..MergeLo(bs, k)]), Block(MergedWords(bs, k), false);
            && h + b.words + 2 <= |mem|
            && var mem' := SetTags(mem, h, b);
            && Tiles(mem', Release(bs, k))
            && At(base, mem', 0, Release(bs, k), p)
               == (if p == Ptr(base, bs, k) then None else At(base, mem, 0, bs, p))
  {
    var lo, hi := MergeLo(bs, k), MergeHi(bs, k);
    var h, b := Size(bs[..lo]), Block(MergedWords(bs, k), false);
    var pre, gone, post := bs[..lo], bs[lo..hi], bs[hi..];
    ReleasePlace(mem, bs, k);
    ReleasedAt(base, mem, h, bs, k, p);
    SingleReady(base, mem, pre, gone, post, b, p);
    assert bs == pre + gone + post;
    Swap(base, mem, SetTags(mem, h, b), bs, Release(bs, k), pre, gone, [b], post, Ptr(base, bs, k),
         Some(Words(mem, Size(bs[..k]), bs[k].words)), None, p);
  }

  // ------------------------------------------------------------------ resizing in place

  /** Where a used block and its free successor stand. */
  lemma {:induction false} PairPlace(base: nat, mem: seq<nat>, bs: seq<Block>, k: nat, p: int)
    requires Tiles(mem, bs)
    requires k + 1 < |bs| && bs[k].used && !bs[k + 1].used
    ensures Size(bs[..k]) + Size(bs[k..k + 2]) + Size(bs[k + 2..]) == |mem|
    ensures Size(bs[k..k + 2]) == bs[k].words + bs[k + 1].words + 4
    ensures Sole(base, mem, Size(bs[..k]), bs[k..k + 2], Ptr(base, bs, k),
                 Some(Words(mem, Size(bs[..k]), bs[k].words)), p)
  {
    assert bs == bs[..k] + bs[k..k + 2] + bs[k + 2..];
    RowParts(mem, bs[..k], bs[k..k + 2], bs[k + 2..]);
    Peel(bs, k, k + 2);
    Peel(bs, k + 1, k + 2);
    UsedThenFreeAt(base, mem, Size(bs[..k]), bs, k, k + 2, p);
  }

  lemma {:induction false} AbsorbStep(base: nat, mem: seq<nat>, bs: seq<Block>, k: nat, p: int)
    requires Tiles(mem, bs)
    requires k + 1 < |bs| && bs[k].used && !bs[k + 1].used
    ensures var h, n := Size(bs[..k]), bs[k].words + bs[k + 1].words + 2;
            && h + n + 2 <= |mem|
            && var mem' := SetTags(mem, h, Block(n, true));
            && Tiles(mem', AbsorbNext(bs, k))
            && At(base, mem', 0, AbsorbNext(bs, k), p)
               == (if p == Ptr(base, bs, k) then Some(Words(mem', h, n)) else At(base, mem, 0, bs, p))
  {
    var h, n := Size(bs[..k]), bs[k].words + bs[k + 1].words + 2;
    var pre, gone, post := bs[..k], bs[k..k + 2], bs[k + 2..];
    PairPlace(base, mem, bs, k, p);
    SingleReady(base, mem, pre, gone, post, Block(n, true), p);
    assert bs == pre + gone + post;
    var mem' := SetTags(mem, h, Block(n, true));
    Swap(base, mem, mem', bs, AbsorbNext(bs, k), pre, gone, [Block(n, true)], post, Ptr(base, bs, k),
         Some(Words(mem, h, bs[k].words)), Some(Words(mem', h, n)), p);
  }

  lemma {:induction false} CarveStep(base: nat, mem: seq<nat>, bs: seq<Block>, k: nat, n: nat, p: int)
    requires Tiles(mem, bs)
    requires k + 1 < |bs| && bs[k].used && !bs[k + 1].used
    requires bs[k].words <= n <= bs[k].words + bs[k + 1].words
    ensures var h, v := Size(bs[..k]), bs[k].words + bs[k + 1].words - n;
            && h + n + v + 4 <= |mem|
            && var mem' := PairMem(mem, h, n, v);
            && Tiles(mem', CarveNext(bs, k, n))
            && At(base, mem', 0, CarveNext(bs, k, n), p)
               == (if p == Ptr(base, bs, k) then Some(Words(mem', h, n)) else At(base, mem, 0, bs, p))
  {
    var h, v := Size(bs[..k]), bs[k].words + bs[k + 1].words - n;
    var pre, gone, post := bs[..k], bs[k..k + 2], bs[k + 2..];
    PairPlace(base, mem, bs, k, p);
    PairReady(base, mem, pre, gone, post, n, v, p);
    assert bs == pre + gone + post;
    var mem' := PairMem(mem, h, n, v);
    Swap(base, mem, mem', bs, CarveNext(bs, k, n), pre, gone, [Block(n, true), Block(v, false)], post, Ptr(base, bs, k),
         Some(Words(mem, h, bs[k].words)), Some(Words(mem', h, n)), p);
  }

  // ------------------------------------------------------------------ for every pointer

  /** The new memory encodes the new row, and the abstract heap differs at `key` only. */
  ghost predicate ChangedAt(base: nat, mem: seq<nat>, bs: seq<Block>, mem': seq<nat>, bs': seq<Block>,
      key: int, c: Option<seq<nat>>)
    requires Tiles(mem, bs)
  {
    && Tiles(mem', bs')
    && forall q :: At(base, mem', 0, bs', q) == if q == key then c else At(base, mem, 0, bs, q)
  }

  lemma {:induction false} SplitEffect(base: nat, mem: seq<nat>, bs: seq<Block>, k: nat, n: nat)
    requires Tiles(mem, bs)
    requires k < |bs| && Fits(bs[k], n)
    ensures var h, v := Size(bs[..k]), bs[k].words - n - 2;
            && h + n + v + 4 <= |mem|
            && var mem' := PairMem(mem, h, n, v);
            ChangedAt(base, mem, bs, mem', SplitAt(bs, k, n), Ptr(base, bs, k), Some(Words(mem', h, n)))
  {
    SplitStep(base, mem, bs, k, n, 0);
    var h, v := Size(bs[..k]), bs[k].words - n - 2;
    var mem', bs' := PairMem(mem, h, n, v), SplitAt(bs, k, n);
    forall q
      ensures At(base, mem', 0, bs', q)
           == if q == Ptr(base, bs, k) then Some(Words(mem', h, n)) else At(base, mem, 0, bs, q)
    {
      SplitStep(base, mem, bs, k, n, q);
    }
  }

  lemma {:induction false} GrowEffect(base: nat, mem: seq<nat>, page: seq<nat>, bs: seq<Block>)
    requires Tiles(mem, bs) && bs != [] && |page| == PAGE_WORDS
    ensures var last := |bs| - 1;
            var h, w := Size(bs[..last]), bs[last].words;
            && h + w + 2 == |mem|
            && ChangedAt(base, mem, bs, GrowMem(mem, page, h, w), GrowLast(bs, 1), Ptr(base, bs, last), None)
  {
    GrowStep(base, mem, page, bs, 0);
    var last := |bs| - 1;
    var mem', bs' := GrowMem(mem, page, Size(bs[..last]), bs[last].words), GrowLast(bs, 1);
    forall q
      ensures At(base, mem', 0, bs', q) == if q == Ptr(base, bs, last) then None else At(base, mem, 0, bs, q)
    {
      GrowStep(base, mem, page, bs, q);
    }
  }

  lemma {:induction false} ReleaseEffect(base: nat, mem: seq<nat>, bs: seq<Block>, k: nat)
    requires Tiles(mem, bs)
    requires k < |bs| && bs[k].used
    ensures var h, b := Size(bs[..MergeLo(bs, k)]), Block(MergedWords(bs, k), false);
            && h + b.words + 2 <= |mem|
            && ChangedAt(base, mem, bs, SetTags(mem, h, b), Release(bs, k), Ptr(base, bs, k), None)
  {
    ReleaseStep(base, mem, bs, k, 0);
    var h, b := Size(bs[..MergeLo(bs, k)]), Block(MergedWords(bs, k), false);
    var mem', bs' := SetTags(mem, h, b), Release(bs, k);
    forall q
      ensures At(base, mem', 0, bs', q) == if q == Ptr(base, bs, k) then None else At(base, mem, 0, bs, q)
    {
      ReleaseStep(base, mem, bs, k, q);
    }
  }

  lemma {:induction false} AbsorbEffect(base: nat, mem: seq<nat>, bs: seq<Block>, k: nat)
    requires Tiles(mem, bs)
    requires k + 1 < |bs| && bs[k].used && !bs[k + 1].used
    ensures var h, n := Size(bs[..k]), bs[k].words + bs[k + 1].words + 2;
            && h + n + 2 <= |mem|
            && var mem' := SetTags(mem, h, Block(n, true));
            ChangedAt(base, mem, bs, mem', AbsorbNext(bs, k), Ptr(base, bs, k), Some(Words(mem', h, n)))
  {
    AbsorbStep(base, mem, bs, k, 0);
    var h, n := Size(bs[..k]), bs[k].words + bs[k + 1].words + 2;
    var mem', bs' := SetTags(mem, h, Block(n, true)), AbsorbNext(bs, k);
    forall q
      ensures At(base, mem', 0, bs', q)
           == if q == Ptr(base, bs, k) then Some(Words(mem', h, n)) else At(base, mem, 0, bs, q)
    {
      AbsorbStep(base, mem, bs, k, q);
    }
  }

  lemma {:induction false} CarveEffect(base: nat, mem: seq<nat>, bs: seq<Block>, k: nat, n: nat)
    requires Tiles(mem, bs)
    requires k + 1 < |bs| && bs[k].used && !bs[k + 1].used
    requires bs[k].words <= n <= bs[k].words + bs[k + 1].words
    ensures var h, v := Size(bs[..k]), bs[k].words + bs[k + 1].words - n;
            && h + n + v + 4 <= |mem|
            && var mem' := PairMem(mem, h, n, v);
            ChangedAt(base, mem, bs, mem', CarveNext(bs, k, n), Ptr(base, bs, k), Some(Words(mem', h, n)))
  {
    CarveStep(base, mem, bs, k, n, 0);
    var h, v := Size(bs[..k]), bs[k].words + bs[k + 1].words - n;
    var mem', bs' := PairMem(mem, h, n, v), CarveNext(bs, k, n);
    forall q
      ensures At(base, mem', 0, bs', q)
           == if q == Ptr(base, bs, k) then Some(Words(mem', h, n)) else At(base, mem, 0, bs, q)
    {
      CarveStep(base, mem, bs, k, n, q);
    }
  }

  /** Memory after `g` pages of growth. */
  ghost predicate Grown(base: nat, mem: seq<nat>, bs: seq<Block>, mem': seq<nat>, g: nat)
    requires Tiles(mem, bs) && bs != []
  {
    && Tiles(mem', GrowLast(bs, g))
    && |mem'| == |mem| + PAGE_WORDS * g
    && forall q :: At(base, mem', 0, GrowLast(bs, g), q)
                == if g > 0 && q == Ptr(base, bs, |bs| - 1) then None else At(base, mem, 0, bs, q)
  }

  lemma {:induction false} GrownLength(base: nat, mem: seq<nat>, bs: seq<Block>, mem': seq<nat>, g: nat)
    requires Tiles(mem, bs) && bs != []
    requires Grown(base, mem, bs, mem', g)
    ensures Size(bs[..|bs| - 1]) + bs[|bs| - 1].words + PAGE_WORDS * g + 2 == |mem'|
  {
    RowAt(mem, bs, |bs| - 1);
  }

  lemma {:induction false} GrownNext(base: nat, mem: seq<nat>, bs: seq<Block>, mem': seq<nat>, g: nat,
      page: seq<nat>, h: nat, w: nat, mem'': seq<nat>)
    requires Tiles(mem, bs) && bs != [] && |page| == PAGE_WORDS
    requires Grown(base, mem, bs, mem', g)
    requires h == Size(bs[..|bs| - 1]) && w == bs[|bs| - 1].words + PAGE_WORDS * g && h + w + 2 == |mem'|
    requires mem'' == GrowMem(mem', page, h, w)
    ensures Grown(base, mem, bs, mem'', g + 1)
  {
    GrowAgain(bs, g);
    GrowEffect(base, mem', page, GrowLast(bs, g));
  }

  /** Growth twice over is growth by the sum. */
  lemma {:induction false} GrownTrans(base: nat, mem: seq<nat>, bs: seq<Block>, mem': seq<nat>, g: nat,
      mem'': seq<nat>, g': nat)
    requires Tiles(mem, bs) && bs != []
    requires Grown(base, mem, bs, mem', g)
    requires Grown(base, mem', GrowLast(bs, g), mem'', g')
    ensures GrowLast(GrowLast(bs, g), g') == GrowLast(bs, g + g')
    ensures Grown(base, mem, bs, mem'', g + g')
  {
    GrowAgain(bs, g);
    assert GrowLast(GrowLast(bs, g), g') == GrowLast(bs, g + g');
  }

  /** A request for `bytes` bytes has been answered with `p` after mapping `grew` pages out of `avail`. */
  ghost predicate Answered(base: nat, bs: seq<Block>, n: nat, avail: nat, p: nat, grew: nat)
    requires bs != []
  {
    var need := PagesNeeded(bs, n);
    && (p != 0 <==> need <= avail)
    && grew == (if need <= avail then need else avail)
    && (p != 0 ==> var k := FirstFit(GrowLast(bs, need), n); k < |bs| && p == Ptr(base, bs, k))
  }

  /** The lowest block that has room for the bytes and two tags, and no page. */
  lemma {:induction false} AnsweredFrom(base: nat, bs: seq<Block>, bytes: nat, avail: nat, p: nat, grew: nat, k: nat)
    requires bs != [] && Answered(base, bs, WordsFor(bytes), avail, p, grew)
    requires k < |bs| && !bs[k].used && 8 * bs[k].words >= bytes + 16
    requires forall j :: 0 <= j < k ==> bs[j].used || 8 * bs[j].words < bytes + 16
    ensures p == Ptr(base, bs, k) && grew == 0
  {
    AllocFits(HeapState(bs, 0, 0), WordsFor(bytes), avail, k);
  }

  /** No such block: the least pages that hold the bytes, or twice as many, and the last block. */
  lemma {:induction false} AnsweredLast(base: nat, bs: seq<Block>, bytes: nat, avail: nat, p: nat, grew: nat)
    requires bs != [] && bytes > 0 && Answered(base, bs, WordsFor(bytes), avail, p, grew)
    requires forall j :: 0 <= j < |bs| ==> bs[j].used || 8 * bs[j].words < bytes + 16
    ensures var w, r := bs[|bs| - 1].words, (bytes + 4095) / 4096;
            var g := if 8 * w + 4096 * r >= bytes + 16 then r else 2 * r;
            && (p != 0 <==> g <= avail) && (p != 0 ==> p == Ptr(base, bs, |bs| - 1))
            && grew == if g <= avail then g else avail
  {
    var n, r := WordsFor(bytes), (bytes + 4095) / 4096;
    assert 512 * (r - 1) < n <= 512 * r;
    AllocGrows(HeapState(bs, 0, 0), n, avail, r);
    FirstFitUnique(bs, n, |bs|);
    GrowthSuffices(bs, n);
  }

  /** `p` becomes a payload of `n` words, and the other payloads stay. */
  ghost predicate NewPayload(base: nat, mem: seq<nat>, bs: seq<Block>, mem': seq<nat>, bs': seq<Block>, p: int, n: nat)
    requires Tiles(mem, bs)
  {
    && Tiles(mem', bs')
    && At(base, mem, 0, bs, p) == None
    && At(base, mem', 0, bs', p).Some? && |At(base, mem', 0, bs', p).value| == n
    && forall q :: q != p ==> At(base, mem', 0, bs', q) == At(base, mem, 0, bs, q)
  }

  lemma {:induction false} GrownNew(base: nat, mem: seq<nat>, bs: seq<Block>, mem': seq<nat>, bs': seq<Block>, g: nat,
      mem'': seq<nat>, bs'': seq<Block>, p: int, n: nat)
    requires Tiles(mem, bs) && LastFree(bs)
    requires Grown(base, mem, bs, mem', g) && bs' == GrowLast(bs, g)
    requires NewPayload(base, mem', bs', mem'', bs'', p, n)
    ensures NewPayload(base, mem, bs, mem'', bs'', p, n)
  {
    GrownKeeps(base, mem, bs, mem', g);
  }

  /** Growth behind a free last block changes no payload. */
  lemma {:induction false} GrownKeeps(base: nat, mem: seq<nat>, bs: seq<Block>, mem': seq<nat>, g: nat)
    requires Tiles(mem, bs) && LastFree(bs)
    requires Grown(base, mem, bs, mem', g)
    ensures forall q :: At(base, mem', 0, GrowLast(bs, g), q) == At(base, mem, 0, bs, q)
  {
    AtBlock(base, mem, bs, |bs| - 1);
  }

  /** Writing inside one payload keeps every tag and every other payload. */
  lemma {:induction false} WriteStep(base: nat, mem: seq<nat>, bs: seq<Block>, k: nat, mem': seq<nat>, p: int)
    requires Tiles(mem, bs)
    requires k < |bs| && bs[k].used
    requires |mem'| == |mem|
    requires var h := Size(bs[..k]); Agree(mem, mem', 0, h + 1) && Agree(mem, mem', h + 1 + bs[k].words, |mem|)
    ensures Size(bs[..k]) + bs[k].words + 2 <= |mem|
    ensures Tiles(mem', bs)
    ensures At(base, mem', 0, bs, p) == if p == Ptr(base, bs, k) then Some(Words(mem', Size(bs[..k]), bs[k].words))
                                        else At(base, mem, 0, bs, p)
  {
    var h := Size(bs[..k]);
    RowAt(mem, bs, k);
    var pre, mid, post := bs[..k], [bs[k]], bs[k + 1..];
    OneBlock(base, mem, h, bs[k], p);
    OneBlock(base, mem', h, bs[k], p);
    assert bs == pre + mid + post;
    Swap(base, mem, mem', bs, bs, pre, mid, mid, post, Ptr(base, bs, k),
         Some(Words(mem, h, bs[k].words)), Some(Words(mem', h, bs[k].words)), p);
  }

  lemma {:induction false} WriteEffect(base: nat, mem: seq<nat>, bs: seq<Block>, k: nat, mem': seq<nat>)
    requires Tiles(mem, bs)
    requires k < |bs| && bs[k].used
    requires |mem'| == |mem|
    requires var h := Size(bs[..k]); Agree(mem, mem', 0, h + 1) && Agree(mem, mem', h + 1 + bs[k].words, |mem|)
    ensures Size(bs[..k]) + bs[k].words + 2 <= |mem|
    ensures ChangedAt(base, mem, bs, mem', bs, Ptr(base, bs, k), Some(Words(mem', Size(bs[..k]), bs[k].words)))
  {
    WriteStep(base, mem, bs, k, mem', 0);
    forall q
      ensures At(base, mem', 0, bs, q) == if q == Ptr(base, bs, k) then Some(Words(mem', Size(bs[..k]), bs[k].words))
                                          else At(base, mem, 0, bs, q)
    {
      WriteStep(base, mem, bs, k, mem', q);
    }
  }

  /** Payload `m` has grown to `n` words or more and starts with what it held; all others are the same. */
  ghost predicate Extends(base: nat, mem: seq<nat>, bs: seq<Block>, mem': seq<nat>, bs': seq<Block>, m: int, n: nat)
    requires Tiles(mem, bs)
  {
    && Tiles(mem', bs')
    && At(base, mem, 0, bs, m).Some? && At(base, mem', 0, bs', m).Some?
    && At(base, mem, 0, bs, m).value <= At(base, mem', 0, bs', m).value
    && |At(base, mem', 0, bs', m).value| >= n
    && forall q :: q != m ==> At(base, mem', 0, bs', q) == At(base, mem, 0, bs, q)
  }

  /** A used block behind the same blocks has the same pointer. */
  lemma {:induction false} SamePlace(base: nat, bs: seq<Block>, mem: seq<nat>, bs': seq<Block>, k: nat, p: int)
    requires Tiles(mem, bs') && k < |bs| && k < |bs'| && bs'[k].used && bs'[..k] == bs[..k] && p == Ptr(base, bs, k)
    ensures At(base, mem, 0, bs', p).Some? && |At(base, mem, 0, bs', p).value| == bs'[k].words
  {
    AtBlock(base, mem, bs', k);
  }

  lemma {:induction false} ExtendsFrom(base: nat, mem: seq<nat>, bs: seq<Block>, mem': seq<nat>, bs': seq<Block>,
      k: nat, n: nat)
    requires Tiles(mem, bs) && k < |bs| && bs[k].used
    requires var h := Size(bs[..k]);
             && bs[k].words <= n && h + n + 2 <= |mem'| == |mem|
             && ChangedAt(base, mem, bs, mem', bs', Ptr(base, bs, k), Some(Words(mem', h, n)))
             && Agree(mem, mem', h + 1, h + 1 + bs[k].words)
    ensures Extends(base, mem, bs, mem', bs', Ptr(base, bs, k), n)
  {
    AtBlock(base, mem, bs, k);
    var h, w := Size(bs[..k]), bs[k].words;
    assert Words(mem', h, n)[..w] == Words(mem, h, w);
  }

  lemma {:induction false} AbsorbExtends(base: nat, mem: seq<nat>, bs: seq<Block>, k: nat, h: nat, n: nat)
    requires Tiles(mem, bs)
    requires k + 1 < |bs| && bs[k].used && !bs[k + 1].used
    requires h == Size(bs[..k]) && n == bs[k].words + bs[k + 1].words + 2
    ensures h + n + 2 <= |mem|
    ensures Extends(base, mem, bs, SetTags(mem, h, Block(n, true)), AbsorbNext(bs, k), Ptr(base, bs, k), n)
  {
    AbsorbEffect(base, mem, bs, k);
    ExtendsFrom(base, mem, bs, SetTags(mem, h, Block(n, true)), AbsorbNext(bs, k), k, n);
  }

  lemma {:induction false} CarveExtends(base: nat, mem: seq<nat>, bs: seq<Block>, k: nat, h: nat, n: nat, v: nat)
    requires Tiles(mem, bs)
    requires k + 1 < |bs| && bs[k].used && !bs[k + 1].used
    requires bs[k].words <= n <= bs[k].words + bs[k + 1].words
    requires h == Size(bs[..k]) && v == bs[k].words + bs[k + 1].words - n
    ensures h + n + v + 4 <= |mem|
    ensures Extends(base, mem, bs, PairMem(mem, h, n, v), CarveNext(bs, k, n), Ptr(base, bs, k), n)
  {
    CarveEffect(base, mem, bs, k, n);
    ExtendsFrom(base, mem, bs, PairMem(mem, h, n, v), CarveNext(bs, k, n), k, n);
  }

  /** Payload `dst` now starts with what payload `src` holds; nothing else has changed. */
  ghost predicate Copied(base: nat, mem: seq<nat>, bs: seq<Block>, mem': seq<nat>, dst: int, src: int)
    requires Tiles(mem, bs)
    requires At(base, mem, 0, bs, dst).Some? && At(base, mem, 0, bs, src).Some?
  {
    && Tiles(mem', bs)
    && At(base, mem', 0, bs, dst).Some?
    && |At(base, mem', 0, bs, dst).value| == |At(base, mem, 0, bs, dst).value|
    && At(base, mem, 0, bs, src).value <= At(base, mem', 0, bs, dst).value
    && forall q :: q != dst ==> At(base, mem', 0, bs, q) == At(base, mem, 0, bs, q)
  }

  lemma {:induction false} CopyWords(m: seq<nat>, dst: nat, src: nat, n: nat, w: nat)
    requires n <= w && dst + w <= |m| && src + n <= |m|
    ensures var r := Moved(m, dst, src, n);
            && Agree(m, r, 0, dst) && Agree(m, r, dst + w, |m|)
            && r[dst..dst + w][..n] == m[src..src + n]
  {
    var r := Moved(m, dst, src, n);
    assert r[dst..dst + w][..n] == r[dst..dst + n];
    assert forall i :: dst <= i < dst + n ==> r[i] == m[src..src + n][i - dst];
  }

  lemma {:induction false} CopyInto(base: nat, m: seq<nat>, bs: seq<Block>, k: nat, j: nat, r: seq<nat>)
    requires Tiles(m, bs) && |r| == |m|
    requires k < |bs| && j < |bs| && bs[k].used && bs[j].used && bs[j].words <= bs[k].words
    requires var h, g, w := Size(bs[..k]), Size(bs[..j]), bs[k].words;
             && Agree(m, r, 0, h + 1) && Agree(m, r, h + 1 + w, |m|)
             && h + 1 + w <= |m| && g + 1 + bs[j].words <= |m|
             && Words(r, h, w)[..bs[j].words] == Words(m, g, bs[j].words)
    ensures At(base, m, 0, bs, Ptr(base, bs, k)).Some? && At(base, m, 0, bs, Ptr(base, bs, j)).Some?
    ensures Copied(base, m, bs, r, Ptr(base, bs, k), Ptr(base, bs, j))
  {
    AtBlock(base, m, bs, k);
    AtBlock(base, m, bs, j);
    WriteEffect(base, m, bs, k, r);
  }

  lemma {:induction false} CopyEffect(base: nat, m: seq<nat>, bs: seq<Block>, k: nat, j: nat,
      dst: nat, src: nat, n: nat, r: seq<nat>)
    requires Tiles(m, bs)
    requires k < |bs| && j < |bs| && bs[k].used && bs[j].used && n == bs[j].words <= bs[k].words
    requires dst == Size(bs[..k]) + 1 && dst + bs[k].words <= |m|
    requires src == Size(bs[..j]) + 1 && src + n <= |m|
    requires r == Moved(m, dst, src, n)
    ensures At(base, m, 0, bs, Ptr(base, bs, k)).Some? && At(base, m, 0, bs, Ptr(base, bs, j)).Some?
    ensures Copied(base, m, bs, r, Ptr(base, bs, k), Ptr(base, bs, j))
  {
    CopyWords(m, dst, src, n, bs[k].words);
    CopyInto(base, m, bs, k, j, r);
  }
}
