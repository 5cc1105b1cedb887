/**
  The allocation bitmap (src/bmap.c): bits, a search hint and a count of set bits.
  A bit is a boolean; the word packing of the storage is not modelled.
 */
module Bitmaps {

  // ------------------------------------------------------------------ bit rows

  /** Number of set bits. */
  function Count(s: seq<bool>): nat
  {
    if s == [] then 0 else (if s[0] then 1 else 0) + Count(s[1..])
  }

  lemma {:induction false} CountConcat(a: seq<bool>, b: seq<bool>)
    ensures Count(a + b) == Count(a) + Count(b)
  {
    if a == [] {
      assert a + b == b;
    } else {
      assert (a + b)[1..] == a[1..] + b;
      CountConcat(a[1..], b);
    }
  }

  lemma {:induction false} CountSet(s: seq<bool>, i: nat, v: bool)
    requires i < |s|
    ensures Count(s[i := v]) == Count(s) + (if v then 1 else 0) - (if s[i] then 1 else 0)
  {
    assert s == s[..i] + [s[i]] + s[i + 1..];
    assert s[i := v] == s[..i] + [v] + s[i + 1..];
    CountConcat(s[..i] + [s[i]], s[i + 1..]);
    CountConcat(s[..i], [s[i]]);
    CountConcat(s[..i] + [v], s[i + 1..]);
    CountConcat(s[..i], [v]);
  }

  lemma {:induction false} CountBound(s: seq<bool>)
    ensures Count(s) <= |s|
  {
    if s != [] {
      CountBound(s[1..]);
    }
  }

  /** With as many set bits as there are bits, every bit is set. */
  lemma {:induction false} CountFull(s: seq<bool>, i: nat)
    requires Count(s) >= |s| && i < |s|
    ensures s[i]
  {
    CountSet(s, i, true);
    CountBound(s[i := true]);
  }

  /** Bits `lo` up to `hi` replaced by `v`. */
  function Filled(s: seq<bool>, v: bool, lo: nat, hi: nat): (r: seq<bool>)
    requires hi <= |s|
    ensures |r| == |s|
    ensures forall i :: 0 <= i < |s| ==> r[i] == if lo <= i < hi then v else s[i]
  {
    seq(|s|, i requires 0 <= i < |s| => if lo <= i < hi then v else s[i])
  }

  /** `n` bits from `i` on are there and all equal `v`. */
  ghost predicate RunAt(s: seq<bool>, v: bool, i: nat, n: nat)
  {
    i + n <= |s| && forall k :: i <= k < i + n ==> s[k] == v
  }

  /** No run starts at `lo` or later but before `hi`. */
  ghost predicate NoRun(s: seq<bool>, v: bool, n: nat, lo: nat, hi: nat)
  {
    forall i :: lo <= i < hi ==> !RunAt(s, v, i, n)
  }

  /** Filling moves the count of set bits by the length of the range exactly when every bit of it changes. */
  lemma {:induction false} CountFilled(s: seq<bool>, v: bool, lo: nat, hi: nat)
    requires lo <= hi <= |s|
    ensures var moved := if v then Count(Filled(s, v, lo, hi)) - Count(s) else Count(s) - Count(Filled(s, v, lo, hi));
            moved <= hi - lo && (moved == hi - lo <==> RunAt(s, !v, lo, hi - lo))
    decreases hi - lo
  {
    if lo == hi {
      assert Filled(s, v, lo, hi) == s;
    } else {
      CountFilled(s, v, lo, hi - 1);
      assert Filled(s, v, lo, hi) == Filled(s, v, lo, hi - 1)[hi - 1 := v];
      CountSet(Filled(s, v, lo, hi - 1), hi - 1, v);
      assert RunAt(s, !v, lo, hi - lo) <==> RunAt(s, !v, lo, hi - 1 - lo) && s[hi - 1] == !v;
    }
  }

  /** When no more than `n` bits are clear, a run of `n` clear bits has all of them. */
  lemma {:induction false} OnlyRun(s: seq<bool>, n: nat, lo: nat, i: nat)
    requires Count(s) >= |s| - n && RunAt(s, false, lo, n) && i < |s| && !(lo <= i < lo + n)
    ensures s[i]
  {
    var t := Filled(s, true, lo, lo + n);
    CountFilled(s, true, lo, lo + n);
    CountFull(t, i);
    assert t[i] == s[i];
  }

  // ------------------------------------------------------------------ the bitmap

  class Bitmap {
    const bits: array<bool>
    var hint: nat
    var setCnt: int

    /** The count of set bits is right. */
    ghost predicate Counted()
      reads this, bits
    {
      setCnt == Count(bits[..])
    }

    /**
      Takes over `storage` and clears it, all but the last bit: the range given to the fill
      ends one short. So the count starts out right exactly when that bit was clear.
     */
    constructor (storage: array<bool>)
      modifies storage
      ensures bits == storage && hint == 0 && setCnt == 0
      ensures forall i :: 0 <= i < storage.Length - 1 ==> !storage[i]
      ensures storage.Length > 0 ==> storage[storage.Length - 1] == old(storage[storage.Length - 1])
      ensures Counted() <==> storage.Length == 0 || !old(storage[storage.Length - 1])
    {
      bits, hint, setCnt := storage, 0, 0;
      new;
      if bits.Length > 0 {
        var _ := Fill(false, 0, bits.Length - 1);
        ghost var s, last := bits[..], bits.Length - 1;
        setCnt := 0;
        AllClear(s[..last]);
        assert s == s[..last] + [s[last]];
        CountConcat(s[..last], [s[last]]);
      }
    }

    method Get(bit: nat) returns (v: bool)
      requires bit < bits.Length
      ensures v == bits[bit]
    {
      v := bits[bit];
    }

    /** Changes one bit. The count moves by one whether or not the bit had that value before. */
    method Set(bit: nat, v: bool)
      requires bit < bits.Length
      modifies this`setCnt, bits
      ensures bits[..] == old(bits[..])[bit := v]
      ensures setCnt == old(setCnt) + (if v then 1 else -1)
      ensures old(Counted()) ==> (Counted() <==> old(bits[bit]) != v)
    {
      CountSet(bits[..], bit, v);
      bits[bit] := v;
      setCnt := setCnt + (if v then 1 else -1);
    }

    /** Sets the bits from `start` up to, not including, `end`. A range that reaches the last bit is refused. */
    method Fill(v: bool, start: nat, end: nat) returns (ok: bool)
      modifies this`setCnt, bits
      ensures ok <==> start < bits.Length && end < bits.Length
      ensures bits[..] == if ok then Filled(old(bits[..]), v, start, end) else old(bits[..])
      ensures !ok ==> setCnt == old(setCnt)
      ensures ok && start <= end ==> setCnt == old(setCnt) + (if v then end - start else start - end)
      ensures ok && start <= end && old(Counted()) ==> (Counted() <==> RunAt(old(bits[..]), !v, start, end - start))
    {
      if start >= bits.Length || end >= bits.Length {
        return false;
      }
      ghost var s := bits[..];
      var i := start;
      while i < end
        invariant start <= i < bits.Length && i <= (if start <= end then end else start)
        invariant bits[..] == Filled(s, v, start, i)
        invariant setCnt == old(setCnt) + (if v then i - start else start - i)
      {
        Set(i, v);
        assert Filled(s, v, start, i + 1) == Filled(s, v, start, i)[i := v];
        i := i + 1;
      }
      if start <= end {
        CountFilled(s, v, start, end);
      }
      assert Filled(s, v, start, i) == Filled(s, v, start, end);
      ok := true;
    }

    /**
      The forward search loop: the first run of `cnt` bits at or after `from`. When there is none the
      position is moved back by one less than the run that touches the end, so that a run of two or
      more bits there is reported although it is too short.
     */
    method Scan(v: bool, cnt: nat, from: nat) returns (index: nat)
      requires cnt > 0
      ensures index < bits.Length ==> Hit(bits[..], v, cnt, from, index)
      ensures index >= bits.Length ==> NoRun(bits[..], v, cnt, from, bits.Length)
    {
      ghost var s := bits[..];
      var start, con := from, 0;
      while start < bits.Length && con < cnt
        invariant con < cnt && from + con <= start
        invariant con > 0 ==> start <= bits.Length
        invariant forall k :: start - con <= k < start && k < |s| ==> s[k] == v
        invariant NoRun(s, v, cnt, from, start - con)
      {
        if bits[start] == v {
          con := con + 1;
          if con == cnt {
            break;
          }
        } else {
          forall i | start - con <= i < start + 1
            ensures !RunAt(s, v, i, cnt)
          {
            assert s[start] != v;
          }
          con := 0;
        }
        start := start + 1;
      }
      if con < cnt {
        forall i | start - con <= i < bits.Length
          ensures !RunAt(s, v, i, cnt)
        {
        }
      }
      index := start + 1 - con;
    }

    /**
      Forward search for `cnt` equal bits, from the hint when asked to, and once more from the start
      when nothing is found there. A position found becomes the new hint.
     */
    method Search(v: bool, cnt: nat, hinted: bool) returns (found: bool, index: nat)
      modifies this`hint
      decreases hinted
      ensures !found ==> hint == old(hint)
      ensures !found && cnt > 0 ==> NoRun(bits[..], v, cnt, 0, bits.Length)
      ensures found ==> cnt > 0 && index < bits.Length && hint == index + cnt
      ensures found ==> Hit(bits[..], v, cnt, if hinted then old(hint) else 0, index)
                        || (hinted && NoRun(bits[..], v, cnt, old(hint), bits.Length)
                             && Hit(bits[..], v, cnt, 0, index))
    {
      if cnt == 0 {
        return false, 0;
      }
      index := Scan(v, cnt, if hinted then hint else 0);
      if index >= bits.Length {
        if !hinted {
          return false, index;
        }
        found, index := Search(v, cnt, false);
        if !found {
          return;
        }
      }
      hint := index + cnt;
      found := true;
    }

    /** Filling degree in percent. */
    function Fdeg(): int
      requires bits.Length > 0
      reads this
    {
      setCnt * 100 / bits.Length
    }
  }

  /**
    What a search that began at `from` reports: the first run, or, when there is no run, a position from which
    `cnt` bits do not fit (at least two short), because equal bits touch the end.
   */
  ghost predicate Hit(s: seq<bool>, v: bool, cnt: nat, from: nat, index: nat)
  {
    || (RunAt(s, v, index, cnt) && from <= index && NoRun(s, v, cnt, from, index))
    || (NoRun(s, v, cnt, from, |s|) && index + cnt >= |s| + 2 && from + 2 <= |s| && s[|s| - 1] == v)
  }

  lemma {:induction false} AllClear(s: seq<bool>)
    requires forall i :: 0 <= i < |s| ==> !s[i]
    ensures Count(s) == 0
  {
    if s != [] {
      AllClear(s[1..]);
    }
  }
}
