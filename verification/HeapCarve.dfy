/**
  Growing a block in place to a size that is not rounded (src/heap.c): the tags as 8-byte cells at byte
  addresses, and the walk from block to block that every search makes. A size with one of its two lowest bits set
  disturbs the flags; one that is an odd multiple of 4 shifts the following payload off its alignment.
 */
module HeapCarve {
  import opened HeapTiling
  import opened HeapTags

  type Cells = map<nat, nat>

  /** Bitwise or of a size and flags below 4. */
  function Or(s: nat, f: nat): nat
    requires f < 4
  {
    DataSize(s) + (if IsFooter(s) || IsFooter(f) then 2 else 0) + (if IsPresent(s) || IsPresent(f) then 1 else 0)
  }

  lemma {:induction false} OrIs(s: nat, f: nat)
    requires f < 4
    ensures DataSize(Or(s, f)) == DataSize(s)
    ensures IsFooter(Or(s, f)) <==> IsFooter(s) || f >= 2
    ensures IsPresent(Or(s, f)) <==> IsPresent(s) || f % 2 == 1
  {
    DivFour(s / 4, Or(s, f) - DataSize(s));
  }

  /** For whole words these are the tags of the word model. */
  lemma {:induction false} OrTags(n: nat)
    ensures Or(8 * n, 0) == Header(Block(n, false)) && Or(8 * n, 2) == Footer(Block(n, false))
    ensures Or(8 * n, 1) == Header(Block(n, true)) && Or(8 * n, 3) == Footer(Block(n, true))
  {
    DivFour(2 * n, 0);
  }

  /** A header with a footer that agrees. */
  ghost predicate BlockAt(m: Cells, a: nat)
  {
    && a in m && !IsFooter(m[a])
    && var z := a + 8 + DataSize(m[a]);
       z in m && IsFooter(m[z]) && DataSize(m[z]) == DataSize(m[a]) && IsPresent(m[z]) == IsPresent(m[a])
  }

  function Next(m: Cells, a: nat): nat
    requires a in m
  {
    a + 8 + DataSize(m[a]) + 8
  }

  /** The walk from `lo` meets only blocks whose tags agree and ends exactly at `hi`. */
  ghost predicate Walked(m: Cells, lo: nat, hi: nat)
    decreases if lo < hi then hi - lo else 0
  {
    lo == hi || (lo < hi && BlockAt(m, lo) && Walked(m, Next(m, lo), hi))
  }

  /** All payloads the walk meets are aligned. */
  ghost predicate Aligned(m: Cells, lo: nat, hi: nat)
    decreases if lo < hi then hi - lo else 0
  {
    lo >= hi || ((lo + 8) % 8 == 0 && lo in m && Aligned(m, Next(m, lo), hi))
  }

  /** Writes header and footer; the footer's place follows from the size just written. */
  function SetAt(m: Cells, a: nat, s: nat, f: nat): Cells
    requires f < 2
  {
    m[a := Or(s, f)][a + 8 + DataSize(Or(s, f)) := Or(s, f + 2)]
  }

  /** The block at `h` grows to `bytes` bytes at the cost of its free successor. */
  function Carved(m: Cells, h: nat, bytes: nat): Cells
    requires h in m && Next(m, h) in m && bytes <= DataSize(m[h]) + DataSize(m[Next(m, h)])
  {
    var rest := DataSize(m[h]) + DataSize(m[Next(m, h)]) - bytes;
    var m1 := SetAt(m, h, bytes, 1);
    SetAt(m1, Next(m1, h), rest, 0)
  }

  /** The conditions under which the code takes this branch, at a block that the walk meets. */
  ghost predicate Carving(m: Cells, lo: nat, h: nat, hi: nat, bytes: nat)
  {
    && Walked(m, lo, h) && Walked(m, h, hi) && h in m && IsPresent(m[h])
    && Next(m, h) < hi && Next(m, h) in m && !IsPresent(m[Next(m, h)])
    && DataSize(m[h]) < bytes < DataSize(m[h]) + DataSize(m[Next(m, h)])
  }

  // ------------------------------------------------------------------ what the walk meets afterwards

  ghost predicate SameCells(m: Cells, m': Cells, lo: nat, hi: nat)
  {
    forall a :: lo <= a < hi ==> (a in m <==> a in m') && (a in m ==> m[a] == m'[a])
  }

  ghost predicate SameFrom(m: Cells, m': Cells, lo: nat)
  {
    forall a :: lo <= a ==> (a in m <==> a in m') && (a in m ==> m[a] == m'[a])
  }

  /** A walk depends only on the cells it passes. */
  lemma {:induction false} WalkedSame(m: Cells, m': Cells, lo: nat, hi: nat)
    requires SameCells(m, m', lo, hi) && Walked(m, lo, hi)
    ensures Walked(m', lo, hi)
    decreases hi - lo
  {
    if lo < hi {
      WalkedBound(m, Next(m, lo), hi);
      WalkedSame(m, m', Next(m, lo), hi);
    }
  }

  lemma {:induction false} WalkedBound(m: Cells, lo: nat, hi: nat)
    requires Walked(m, lo, hi)
    ensures lo <= hi
  {
  }

  /** Two walks in a row, and the first part of a longer one. */
  lemma {:induction false} WalkedThrough(m: Cells, lo: nat, mid: nat, hi: nat)
    requires Walked(m, lo, mid)
    ensures Walked(m, lo, hi) && mid <= hi <==> Walked(m, mid, hi)
    decreases mid - lo
  {
    WalkedBound(m, lo, mid);
    if lo < mid {
      WalkedBound(m, Next(m, lo), mid);
      WalkedThrough(m, Next(m, lo), mid, hi);
    }
    if Walked(m, mid, hi) {
      WalkedBound(m, mid, hi);
    }
  }

  /** The four cells that are written, and that nothing else is, from `h` up to the end of the pair. */
  ghost predicate Written(m: Cells, h: nat, bytes: nat, total: nat, r: Cells)
  {
    var x, y := DataSize(bytes), DataSize(if bytes < total then total - bytes else 0);
    && bytes < total && x + y <= total && total % 4 == 0
    && h in r && r[h] == Or(bytes, 1)
    && h + 8 + x in r && r[h + 8 + x] == Or(bytes, 3)
    && h + 16 + x in r && r[h + 16 + x] == Or(total - bytes, 0)
    && h + 24 + x + y in r && r[h + 24 + x + y] == Or(total - bytes, 2)
    && SameCells(m, r, 0, h) && SameFrom(m, r, h + 32 + total)
  }

  lemma {:induction false} CarvedCells(m: Cells, h: nat, bytes: nat, total: nat, r: Cells)
    requires h in m && Next(m, h) in m && bytes < total == DataSize(m[h]) + DataSize(m[Next(m, h)])
    requires r == Carved(m, h, bytes)
    ensures Written(m, h, bytes, total, r)
  {
    OrIs(bytes, 1);
    OrIs(total - bytes, 0);
    FourMultiples(m, h);
  }

  lemma {:induction false} Fours(total: nat, bytes: nat)
    requires total % 4 == 0 && bytes < total
    ensures bytes % 4 == 0 ==> DataSize(bytes) + DataSize(total - bytes) == total && (total - bytes) % 4 == 0
    ensures bytes % 4 == 0 <==> !IsFooter(bytes) && !IsFooter(total - bytes) && !IsPresent(total - bytes)
  {
    assert (total - bytes) % 4 == (4 - bytes % 4) % 4;
  }

  /** Two tags written for a size agree unless the size itself sets the footer bit. */
  lemma {:induction false} TaggedBlock(r: Cells, a: nat, s: nat, f: nat)
    requires f < 2 && a in r && r[a] == Or(s, f) && a + 8 + DataSize(s) in r && r[a + 8 + DataSize(s)] == Or(s, f + 2)
    ensures BlockAt(r, a) <==> !IsFooter(s)
    ensures Next(r, a) == a + 16 + DataSize(s) && (IsPresent(r[a]) <==> IsPresent(s) || f == 1)
  {
    OrIs(s, f);
    OrIs(s, f + 2);
  }

  lemma {:induction false} FourMultiples(m: Cells, h: nat)
    requires h in m && Next(m, h) in m
    ensures (DataSize(m[h]) + DataSize(m[Next(m, h)])) % 4 == 0
  {
    var p, q := m[h] / 4, m[Next(m, h)] / 4;
    assert DataSize(m[h]) + DataSize(m[Next(m, h)]) == 4 * (p + q);
  }

  lemma {:induction false} SecondHeader(total: nat, bytes: nat)
    requires total % 4 == 0 && bytes < total && !IsFooter(bytes) && !IsFooter(total - bytes)
    ensures bytes % 4 == 0
  {
    assert (total - bytes) % 4 == (4 - bytes % 4) % 4;
  }

  /** Two blocks whose four tags have been written: the tags agree for multiples of 4 and no other size. */
  lemma {:induction false} PairAgrees(r: Cells, h: nat, mid: nat, bytes: nat, rest: nat)
    requires (bytes + rest) % 4 == 0 && rest > 0 && mid == h + 16 + DataSize(bytes)
    requires h in r && r[h] == Or(bytes, 1) && mid - 8 in r && r[mid - 8] == Or(bytes, 3)
    requires mid in r && r[mid] == Or(rest, 0)
    requires mid + 8 + DataSize(rest) in r && r[mid + 8 + DataSize(rest)] == Or(rest, 2)
    ensures Next(r, h) == mid && IsPresent(r[h])
    ensures BlockAt(r, h) && BlockAt(r, mid) <==> bytes % 4 == 0
    ensures bytes % 4 == 0 ==> Next(r, mid) == h + 32 + bytes + rest && !IsPresent(r[mid])
  {
    TaggedBlock(r, h, bytes, 1);
    TaggedBlock(r, mid, rest, 0);
    Fours(bytes + rest, bytes);
    if !IsFooter(bytes) && !IsFooter(rest) {
      SecondHeader(bytes + rest, bytes);
    }
  }

  /** The two blocks afterwards: where they are, and when their tags agree. */
  lemma {:induction false} CarvedPair(m: Cells, h: nat, bytes: nat, total: nat, mid: nat, r: Cells)
    requires Written(m, h, bytes, total, r) && mid == h + 16 + DataSize(bytes)
    ensures h in r && mid in r && Next(r, h) == mid && IsPresent(r[h])
    ensures BlockAt(r, h) && BlockAt(r, mid) <==> bytes % 4 == 0
    ensures bytes % 4 == 0 ==> Next(r, mid) == h + 32 + total && !IsPresent(r[mid])
  {
    PairAgrees(r, h, mid, bytes, total - bytes);
  }

  /** The end of the pair, and that the walk went on from there. */
  lemma {:induction false} PairEnd(m: Cells, lo: nat, h: nat, hi: nat, bytes: nat, end: nat)
    requires Carving(m, lo, h, hi, bytes) && end == Next(m, Next(m, h))
    ensures end == h + 32 + DataSize(m[h]) + DataSize(m[Next(m, h)]) <= hi && Walked(m, end, hi)
  {
    assert Walked(m, Next(m, h), hi);
    assert Walked(m, end, hi);
    WalkedBound(m, end, hi);
  }

  /** The walk over two blocks of which the first starts at `h` and the second at `mid`. */
  lemma {:induction false} PairWalked(r: Cells, h: nat, mid: nat, end: nat, hi: nat)
    requires h in r && mid in r && Next(r, h) == mid && h < mid < end <= hi
    requires BlockAt(r, h) && BlockAt(r, mid) ==> Next(r, mid) == end && Walked(r, end, hi)
    ensures Walked(r, h, hi) <==> BlockAt(r, h) && BlockAt(r, mid)
  {
  }

  lemma {:induction false} PairWalkedIff(m: Cells, lo: nat, h: nat, hi: nat, bytes: nat, total: nat, r: Cells)
    requires Carving(m, lo, h, hi, bytes) && total == DataSize(m[h]) + DataSize(m[Next(m, h)])
    requires Written(m, h, bytes, total, r)
    ensures h <= hi && (Walked(r, h, hi) <==> bytes % 4 == 0)
  {
    var mid, end := h + 16 + DataSize(bytes), h + 32 + total;
    PairEnd(m, lo, h, hi, bytes, end);
    CarvedPair(m, h, bytes, total, mid, r);
    WalkedSame(m, r, end, hi);
    PairWalked(r, h, mid, end, hi);
  }

  lemma {:induction false} WholeWalkedIff(m: Cells, lo: nat, h: nat, hi: nat, bytes: nat, total: nat, r: Cells)
    requires Carving(m, lo, h, hi, bytes) && total == DataSize(m[h]) + DataSize(m[Next(m, h)])
    requires Written(m, h, bytes, total, r)
    ensures Walked(r, lo, hi) <==> bytes % 4 == 0
  {
    WalkedSame(m, r, lo, h);
    WalkedThrough(r, lo, h, hi);
    PairWalkedIff(m, lo, h, hi, bytes, total, r);
  }

  /**
    The whole heap after growing a block in place: the walk still meets only agreeing tags and ends at the
    mark exactly for multiples of 4.
   */
  lemma {:induction false} CarveTilesIff(m: Cells, lo: nat, h: nat, hi: nat, bytes: nat)
    requires Carving(m, lo, h, hi, bytes)
    ensures Walked(Carved(m, h, bytes), lo, hi) <==> bytes % 4 == 0
  {
    var r, total := Carved(m, h, bytes), DataSize(m[h]) + DataSize(m[Next(m, h)]);
    CarvedCells(m, h, bytes, total, r);
    WholeWalkedIff(m, lo, h, hi, bytes, total, r);
  }

  lemma {:induction false} AlignedSame(m: Cells, r: Cells, lo: nat, hi: nat)
    requires SameCells(m, r, lo, hi) && Walked(m, lo, hi)
    ensures Aligned(m, lo, hi) <==> Aligned(r, lo, hi)
    decreases if lo < hi then hi - lo else 0
  {
    if lo < hi {
      WalkedBound(m, Next(m, lo), hi);
      AlignedSame(m, r, Next(m, lo), hi);
    }
  }

  lemma {:induction false} AlignedThrough(m: Cells, lo: nat, mid: nat, hi: nat)
    requires Walked(m, lo, mid) && mid <= hi
    ensures Aligned(m, lo, hi) <==> Aligned(m, lo, mid) && Aligned(m, mid, hi)
    decreases if lo < mid then mid - lo else 0
  {
    WalkedBound(m, lo, mid);
    if lo < mid {
      WalkedBound(m, Next(m, lo), mid);
      AlignedThrough(m, Next(m, lo), mid, hi);
    }
  }

  /** The payload of the remainder is aligned exactly when the size, rounded down to 4, is a multiple of 8. */
  lemma {:induction false} RemainderAlignedIff(h: nat, bytes: nat, mid: nat)
    requires (h + 8) % 8 == 0 && mid == h + 16 + DataSize(bytes)
    ensures (mid + 8) % 8 == 0 <==> DataSize(bytes) % 8 == 0
  {
  }

  lemma {:induction false} PairAligned(r: Cells, h: nat, mid: nat, end: nat, hi: nat)
    requires h in r && mid in r && Next(r, h) == mid && Next(r, mid) == end && h < mid < end <= hi
    ensures Aligned(r, h, hi) <==> (h + 8) % 8 == 0 && (mid + 8) % 8 == 0 && Aligned(r, end, hi)
  {
    assert Aligned(r, h, hi) <==> (h + 8) % 8 == 0 && Aligned(r, mid, hi);
  }

  lemma {:induction false} PairAlignedIff(m: Cells, lo: nat, h: nat, hi: nat, bytes: nat, r: Cells, total: nat)
    requires Carving(m, lo, h, hi, bytes) && Aligned(m, h, hi) && bytes % 4 == 0
    requires Written(m, h, bytes, total, r) && total == DataSize(m[h]) + DataSize(m[Next(m, h)])
    ensures Aligned(r, h, hi) <==> bytes % 8 == 0
  {
    var next, mid, end := Next(m, h), h + 16 + DataSize(bytes), h + 32 + total;
    PairEnd(m, lo, h, hi, bytes, end);
    PairAligned(m, h, next, end, hi);
    CarvedPair(m, h, bytes, total, mid, r);
    PairAligned(r, h, mid, end, hi);
    AlignedSame(m, r, end, hi);
    RemainderAlignedIff(h, bytes, mid);
    assert DataSize(bytes) == bytes;
  }

  lemma {:induction false} FrontAligned(m: Cells, r: Cells, lo: nat, h: nat, hi: nat)
    requires SameCells(m, r, 0, h) && Walked(m, lo, h) && h <= hi && Aligned(m, lo, hi)
    ensures Aligned(m, h, hi) && (Aligned(r, lo, hi) <==> Aligned(r, h, hi))
  {
    WalkedSame(m, r, lo, h);
    AlignedThrough(m, lo, h, hi);
    AlignedThrough(r, lo, h, hi);
    AlignedSame(m, r, lo, h);
  }

  lemma {:induction false} WholeAlignedIff(m: Cells, lo: nat, h: nat, hi: nat, bytes: nat, total: nat, r: Cells)
    requires Carving(m, lo, h, hi, bytes) && Aligned(m, lo, hi)
    requires Written(m, h, bytes, total, r) && total == DataSize(m[h]) + DataSize(m[Next(m, h)])
    ensures Walked(r, lo, hi) && Aligned(r, lo, hi) <==> bytes % 8 == 0
  {
    WholeWalkedIff(m, lo, h, hi, bytes, total, r);
    if bytes % 4 == 0 {
      FrontAligned(m, r, lo, h, hi);
      PairAlignedIff(m, lo, h, hi, bytes, r, total);
    }
  }

  /** The heap stays tiled with every payload aligned, as validation demands, exactly for multiples of 8. */
  lemma {:induction false} CarveAlignedIff(m: Cells, lo: nat, h: nat, hi: nat, bytes: nat)
    requires Carving(m, lo, h, hi, bytes) && Aligned(m, lo, hi)
    ensures Walked(Carved(m, h, bytes), lo, hi) && Aligned(Carved(m, h, bytes), lo, hi) <==> bytes % 8 == 0
  {
    var r, total := Carved(m, h, bytes), DataSize(m[h]) + DataSize(m[Next(m, h)]);
    CarvedCells(m, h, bytes, total, r);
    WholeAlignedIff(m, lo, h, hi, bytes, total, r);
  }
}
