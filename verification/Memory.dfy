/** Block moves within one memory (src/mem.c). */
module Memory {

  /** The memory after `n` cells from `src` on have replaced those from `dst` on. */
  function Moved<T>(m: seq<T>, dst: nat, src: nat, n: nat): (r: seq<T>)
    requires dst + n <= |m| && src + n <= |m|
    ensures |r| == |m|
  {
    m[..dst] + m[src..src + n] + m[dst + n..]
  }

  /**
    Copies `n` cells from `src` to `dst`. The ranges may overlap: the copy runs upwards
    when the source lies above the destination and downwards when it lies below.
   */
  method Memmove<T>(m: seq<T>, dst: nat, src: nat, n: nat) returns (r: seq<T>)
    requires dst + n <= |m| && src + n <= |m|
    ensures r == Moved(m, dst, src, n)
  {
    r := m;
    if src == dst {
      return;
    } else if src > dst {
      var i := 0;
      while i < n
        invariant 0 <= i <= n && |r| == |m|
        invariant forall k {:trigger r[k]} :: dst <= k < dst + i ==> r[k] == m[src + (k - dst)]
        invariant forall k {:trigger r[k]} :: 0 <= k < |m| && !(dst <= k < dst + i) ==> r[k] == m[k]
      {
        r := r[dst + i := r[src + i]];
        i := i + 1;
      }
    } else {
      var i := 0;
      while i < n
        invariant 0 <= i <= n && |r| == |m|
        invariant forall k {:trigger r[k]} :: dst + n - i <= k < dst + n ==> r[k] == m[src + (k - dst)]
        invariant forall k {:trigger r[k]} :: 0 <= k < |m| && !(dst + n - i <= k < dst + n) ==> r[k] == m[k]
      {
        r := r[dst + n - i - 1 := r[src + n - i - 1]];
        i := i + 1;
      }
    }
  }
}
