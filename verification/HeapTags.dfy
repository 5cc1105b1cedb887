/**
  How a row of heap blocks is written into memory: tag words before and after each
  payload (src/heap.c). Memory is a sequence of 8-byte words, word `i` standing at byte
  address `base + 8 * i`.
 */
module HeapTags {
  import opened Options
  import opened HeapTiling

  // ------------------------------------------------------------------ tag words

  /** The header word: payload bytes with bit 0 set when the block is allocated. */
  function Header(b: Block): nat
  {
    8 * b.words + (if b.used then 1 else 0)
  }

  /** The footer word repeats the header with bit 1 set. */
  function Footer(b: Block): nat
  {
    Header(b) + 2
  }

  /** The size field of a tag word in bytes: the word without its two flag bits. */
  function DataSize(tag: nat): nat
  {
    tag / 4 * 4
  }

  /** The same in words. */
  function DataWords(tag: nat): nat
  {
    DataSize(tag) / 8
  }

  predicate IsPresent(tag: nat)
  {
    tag % 4 % 2 == 1
  }

  predicate IsFooter(tag: nat)
  {
    tag % 4 >= 2
  }

  lemma DivFour(q: nat, r: nat)
    requires r < 4
    ensures (4 * q + r) / 4 == q && (4 * q + r) % 4 == r
  {
  }

  /** Decoding a tag gives back what was encoded. */
  lemma TagRoundTrip(b: Block)
    ensures DataSize(Header(b)) == DataSize(Footer(b)) == 8 * b.words
    ensures DataWords(Header(b)) == DataWords(Footer(b)) == b.words
    ensures IsPresent(Header(b)) == IsPresent(Footer(b)) == b.used
    ensures !IsFooter(Header(b)) && IsFooter(Footer(b))
  {
    var f := if b.used then 1 else 0;
    DivFour(2 * b.words, f);
    DivFour(2 * b.words, f + 2);
    assert (8 * b.words) / 8 == b.words;
  }

  ghost predicate Tagged(mem: seq<nat>, at: nat, b: Block)
  {
    && at + b.words + 2 <= |mem|
    && mem[at] == Header(b)
    && mem[at + b.words + 1] == Footer(b)
  }

  /** Writes both tags of a block whose header is at word `at`. */
  function SetTags(mem: seq<nat>, at: nat, b: Block): (r: seq<nat>)
    requires at + b.words + 2 <= |mem|
    ensures |r| == |mem|
    ensures Tagged(r, at, b)
    ensures forall i :: 0 <= i < |mem| && i != at && i != at + b.words + 1 ==> r[i] == mem[i]
  {
    mem[at := Header(b)][at + b.words + 1 := Footer(b)]
  }

  // ------------------------------------------------------------------ rows of blocks in memory

  /** The row `bs` is encoded in memory from word `lo` on. */
  ghost predicate Row(mem: seq<nat>, lo: nat, bs: seq<Block>)
    decreases |bs|
  {
    bs == [] || (Tagged(mem, lo, bs[0]) && Row(mem, lo + bs[0].words + 2, bs[1..]))
  }

  /** The row fills the memory. */
  ghost predicate Tiles(mem: seq<nat>, bs: seq<Block>)
  {
    Size(bs) == |mem| && Row(mem, 0, bs)
  }

  /** Two memories hold the same words from `lo` up to `hi`. */
  ghost predicate Agree(mem: seq<nat>, mem': seq<nat>, lo: nat, hi: nat)
  {
    hi <= |mem| && hi <= |mem'| && forall i :: lo <= i < hi ==> mem[i] == mem'[i]
  }

  lemma {:induction false} RowConcat(mem: seq<nat>, lo: nat, a: seq<Block>, b: seq<Block>)
    ensures Row(mem, lo, a + b) <==> Row(mem, lo, a) && Row(mem, lo + Size(a), b)
    decreases |a|
  {
    if a == [] {
      assert a + b == b;
    } else {
      assert (a + b)[1..] == a[1..] + b;
      RowConcat(mem, lo + a[0].words + 2, a[1..], b);
    }
  }

  lemma {:induction false} RowFrame(mem: seq<nat>, mem': seq<nat>, lo: nat, bs: seq<Block>)
    requires Row(mem, lo, bs)
    requires Agree(mem, mem', lo, lo + Size(bs))
    ensures Row(mem', lo, bs)
    decreases |bs|
  {
    if bs != [] {
      RowFrame(mem, mem', lo + bs[0].words + 2, bs[1..]);
    }
  }

  /** Where block `k` and its successor stand. */
  lemma {:induction false} RowAt(mem: seq<nat>, bs: seq<Block>, k: nat)
    requires Row(mem, 0, bs) && k < |bs|
    ensures Tagged(mem, Size(bs[..k]), bs[k])
    ensures Size(bs[..k + 1]) == Size(bs[..k]) + bs[k].words + 2
    ensures Size(bs) == Size(bs[..k]) + bs[k].words + 2 + Size(bs[k + 1..])
  {
    SizeSplit(bs, k);
    assert bs == bs[..k] + bs[k..];
    RowConcat(mem, 0, bs[..k], bs[k..]);
  }

  lemma {:induction false} RowParts(mem: seq<nat>, pre: seq<Block>, mid: seq<Block>, post: seq<Block>)
    ensures Size(pre + mid + post) == Size(pre) + Size(mid) + Size(post)
    ensures Row(mem, 0, pre + mid + post)
       <==> Row(mem, 0, pre) && Row(mem, Size(pre), mid) && Row(mem, Size(pre) + Size(mid), post)
  {
    SizeConcat(pre, mid);
    SizeConcat(pre + mid, post);
    RowConcat(mem, 0, pre + mid, post);
    RowConcat(mem, 0, pre, mid);
  }

  // ------------------------------------------------------------------ the abstract heap

  /**
    What a heap means to its users: a partial function from pointers to payload words. The
    result is `None` unless `p` is the address of a live payload.
   */
  ghost function At(base: nat, mem: seq<nat>, lo: nat, bs: seq<Block>, p: int): (r: Option<seq<nat>>)
    requires lo + Size(bs) <= |mem|
    ensures r.Some? ==> base + 8 * lo < p < base + 8 * (lo + Size(bs))
    decreases |bs|
  {
    if bs == [] then None
    else if bs[0].used && p == base + 8 * lo + 8 then Some(mem[lo + 1..lo + 1 + bs[0].words])
    else At(base, mem, lo + bs[0].words + 2, bs[1..], p)
  }

  lemma {:induction false} AtConcat(base: nat, mem: seq<nat>, lo: nat, a: seq<Block>, b: seq<Block>, p: int)
    requires lo + Size(a) + Size(b) <= |mem|
    ensures Size(a + b) == Size(a) + Size(b)
    ensures At(base, mem, lo, a + b, p)
         == if At(base, mem, lo, a, p).Some? then At(base, mem, lo, a, p) else At(base, mem, lo + Size(a), b, p)
    decreases |a|
  {
    SizeConcat(a, b);
    if a == [] {
      assert a + b == b;
    } else {
      assert (a + b)[1..] == a[1..] + b;
      AtConcat(base, mem, lo + a[0].words + 2, a[1..], b, p);
    }
  }

  lemma {:induction false} AtFrame(base: nat, mem: seq<nat>, mem': seq<nat>, lo: nat, bs: seq<Block>, p: int)
    requires Agree(mem, mem', lo, lo + Size(bs))
    ensures At(base, mem, lo, bs, p) == At(base, mem', lo, bs, p)
    decreases |bs|
  {
    if bs != [] {
      assert mem[lo + 1..lo + 1 + bs[0].words] == mem'[lo + 1..lo + 1 + bs[0].words];
      AtFrame(base, mem, mem', lo + bs[0].words + 2, bs[1..], p);
    }
  }

  /** An address in the stretch of `n` words from word `lo` on. */
  predicate Within(base: nat, lo: nat, n: nat, p: int)
  {
    base + 8 * lo < p < base + 8 * (lo + n)
  }

  lemma {:induction false} AtParts(base: nat, mem: seq<nat>, pre: seq<Block>, mid: seq<Block>, post: seq<Block>, p: int)
    requires Size(pre) + Size(mid) + Size(post) <= |mem|
    ensures Size(pre + mid + post) == Size(pre) + Size(mid) + Size(post)
    ensures At(base, mem, 0, pre + mid + post, p)
         == if Within(base, Size(pre), Size(mid), p) then At(base, mem, Size(pre), mid, p)
            else if p <= base + 8 * Size(pre) then At(base, mem, 0, pre, p)
            else At(base, mem, Size(pre) + Size(mid), post, p)
  {
    assert Size(pre + mid) == Size(pre) + Size(mid) by {
      SizeConcat(pre, mid);
    }
    AtConcat(base, mem, 0, pre + mid, post, p);
    AtConcat(base, mem, 0, pre, mid, p);
  }

  lemma {:induction false} OneBlock(base: nat, mem: seq<nat>, lo: nat, a: Block, p: int)
    ensures Size([a]) == a.words + 2
    ensures Row(mem, lo, [a]) <==> Tagged(mem, lo, a)
    ensures lo + a.words + 2 <= |mem| ==>
              At(base, mem, lo, [a], p)
              == if a.used && p == base + 8 * lo + 8 then Some(mem[lo + 1..lo + 1 + a.words]) else None
  {
  }

  lemma {:induction false} TwoBlocks(base: nat, mem: seq<nat>, lo: nat, a: Block, b: Block, p: int)
    requires !b.used
    ensures Size([a, b]) == a.words + 2 + b.words + 2
    ensures Row(mem, lo, [a, b]) <==> Tagged(mem, lo, a) && Tagged(mem, lo + a.words + 2, b)
    ensures lo + Size([a, b]) <= |mem| ==>
              At(base, mem, lo, [a, b], p)
              == if a.used && p == base + 8 * lo + 8 then Some(mem[lo + 1..lo + 1 + a.words]) else None
  {
    assert [a, b][1..] == [b];
    OneBlock(base, mem, lo + a.words + 2, b, p);
  }

  // ------------------------------------------------------------------ re-tagging a stretch

  /**
    Replacing the blocks `gone` by `come` changes nothing outside the stretch they cover.
    The new stretch has the same length, except at the end of the row, where it may be longer.
   */
  ghost predicate Retagged(mem: seq<nat>, mem': seq<nat>,
      pre: seq<Block>, gone: seq<Block>, come: seq<Block>, post: seq<Block>)
  {
    && Size(pre) + Size(gone) + Size(post) == |mem|
    && Size(pre) + Size(come) + Size(post) == |mem'|
    && (if post == [] then |mem| <= |mem'| else |mem| == |mem'|)
    && Agree(mem, mem', 0, Size(pre))
    && Agree(mem, mem', Size(pre) + Size(gone), |mem|)
    && Row(mem', Size(pre), come)
  }

  lemma {:induction false} RetagRest(mem: seq<nat>, mem': seq<nat>,
      pre: seq<Block>, gone: seq<Block>, come: seq<Block>, post: seq<Block>)
    requires Row(mem, 0, pre) && Row(mem, Size(pre) + Size(gone), post)
    requires Retagged(mem, mem', pre, gone, come, post)
    ensures Row(mem', 0, pre) && Row(mem', Size(pre) + Size(come), post)
  {
    RowFrame(mem, mem', 0, pre);
    if post != [] {
      RowFrame(mem, mem', Size(pre) + Size(gone), post);
    }
  }

  lemma {:induction false} JoinTiles(mem: seq<nat>,
      pre: seq<Block>, mid: seq<Block>, post: seq<Block>, bs: seq<Block>)
    requires bs == pre + mid + post && Size(pre) + Size(mid) + Size(post) == |mem|
    requires Row(mem, 0, pre) && Row(mem, Size(pre), mid) && Row(mem, Size(pre) + Size(mid), post)
    ensures Tiles(mem, bs)
  {
    RowParts(mem, pre, mid, post);
  }

  lemma {:induction false} RetagTiles(mem: seq<nat>, mem': seq<nat>,
      pre: seq<Block>, gone: seq<Block>, come: seq<Block>, post: seq<Block>, bs': seq<Block>)
    requires Row(mem, 0, pre + gone + post)
    requires Retagged(mem, mem', pre, gone, come, post) && bs' == pre + come + post
    ensures Tiles(mem', bs')
  {
    assert Row(mem, 0, pre) && Row(mem, Size(pre) + Size(gone), post) by {
      RowParts(mem, pre, gone, post);
    }
    RetagRest(mem, mem', pre, gone, come, post);
    JoinTiles(mem', pre, come, post, bs');
  }

  lemma {:induction false} RetagFrame(base: nat, mem: seq<nat>, mem': seq<nat>,
      pre: seq<Block>, gone: seq<Block>, come: seq<Block>, post: seq<Block>, p: int)
    requires Retagged(mem, mem', pre, gone, come, post)
    ensures At(base, mem', 0, pre, p) == At(base, mem, 0, pre, p)
    ensures At(base, mem', Size(pre) + Size(come), post, p) == At(base, mem, Size(pre) + Size(gone), post, p)
  {
    assert At(base, mem', 0, pre, p) == At(base, mem, 0, pre, p) by {
      AtFrame(base, mem, mem', 0, pre, p);
    }
    if post != [] {
      assert Size(pre) + Size(come) == Size(pre) + Size(gone);
      AtFrame(base, mem, mem', Size(pre) + Size(gone), post, p);
    }
  }

  lemma {:induction false} RetagAt(base: nat, mem: seq<nat>, mem': seq<nat>,
      pre: seq<Block>, gone: seq<Block>, come: seq<Block>, post: seq<Block>, p: int)
    requires Row(mem, 0, pre + gone + post)
    requires Retagged(mem, mem', pre, gone, come, post)
    ensures Size(pre + gone + post) == |mem| && Size(pre + come + post) == |mem'|
    ensures At(base, mem', 0, pre + come + post, p)
         == if Within(base, Size(pre), Size(come), p) then At(base, mem', Size(pre), come, p)
            else At(base, mem, 0, pre + gone + post, p)
    ensures Within(base, Size(pre), Size(gone), p) ==>
              At(base, mem, 0, pre + gone + post, p) == At(base, mem, Size(pre), gone, p)
  {
    AtParts(base, mem, pre, gone, post, p);
    AtParts(base, mem', pre, come, post, p);
    RetagFrame(base, mem, mem', pre, gone, come, post, p);
  }

  /** A stretch whose only possible payload is at `key`. */
  ghost predicate Sole(base: nat, mem: seq<nat>, lo: nat, bs: seq<Block>, key: int, c: Option<seq<nat>>, p: int)
  {
    && lo + Size(bs) <= |mem|
    && At(base, mem, lo, bs, p) == if p == key then c else None
  }

  /** Re-tagging a stretch with one payload changes the abstract heap at that pointer only. */
  lemma {:induction false} Swap(base: nat, mem: seq<nat>, mem': seq<nat>, bs: seq<Block>, bs': seq<Block>,
      pre: seq<Block>, gone: seq<Block>, come: seq<Block>, post: seq<Block>,
      key: int, c: Option<seq<nat>>, c': Option<seq<nat>>, p: int)
    requires bs == pre + gone + post && bs' == pre + come + post
    requires Tiles(mem, bs)
    requires Retagged(mem, mem', pre, gone, come, post)
    requires Within(base, Size(pre), Size(gone), key)
    requires Sole(base, mem, Size(pre), gone, key, c, p)
    requires Sole(base, mem', Size(pre), come, key, c', p)
    ensures Tiles(mem', bs')
    ensures At(base, mem', 0, bs', p) == if p == key then c' else At(base, mem, 0, bs, p)
  {
    RetagTiles(mem, mem', pre, gone, come, post, bs');
    RetagAt(base, mem, mem', pre, gone, come, post, p);
  }
}
