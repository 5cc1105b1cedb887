/**
  NUL-terminated strings (src/string.c). A string is a position in a buffer; its text are the characters up to
  the first NUL from there on.
 */
module CStrings {
  import opened Options

  const NUL := '\0'

  ghost predicate Terminated(b: seq<char>, at: nat)
  {
    exists k :: at <= k < |b| && b[k] == NUL
  }

  /** The position of the first NUL. */
  ghost function End(b: seq<char>, at: nat): (e: nat)
    requires Terminated(b, at)
    ensures at <= e < |b| && b[e] == NUL
    ensures forall k :: at <= k < e ==> b[k] != NUL
    decreases |b| - at
  {
    var k :| at <= k < |b| && b[k] == NUL;
    if b[at] == NUL then at else
      assert at + 1 <= k;
      End(b, at + 1)
  }

  ghost function Text(b: seq<char>, at: nat): string
    requires Terminated(b, at)
  {
    b[at..End(b, at)]
  }

  /** The text from a later position of the same string. */
  lemma {:induction false} TextFrom(b: seq<char>, at: nat, i: nat)
    requires Terminated(b, at) && i <= |Text(b, at)|
    ensures Terminated(b, at + i) && Text(b, at + i) == Text(b, at)[i..]
  {
    var e := End(b, at);
    assert Terminated(b, at + i);
    assert End(b, at + i) == e;
  }

  /** A buffer that holds a NUL-free text and then NUL. */
  lemma {:induction false} TextIs(b: seq<char>, at: nat, s: string)
    requires at + |s| < |b| && b[at..at + |s|] == s && NUL !in s && b[at + |s|] == NUL
    ensures Terminated(b, at) && Text(b, at) == s
  {
    assert Terminated(b, at);
    assert forall k :: at <= k < at + |s| ==> b[k] == s[k - at];
    assert End(b, at) == at + |s|;
  }

  /** A character of the buffer is the terminator exactly at the end of the text. */
  lemma {:induction false} EndIff(b: seq<char>, at: nat, s: string, i: nat)
    requires Terminated(b, at) && s == Text(b, at) && i <= |s|
    ensures at + i < |b| && (b[at + i] == NUL <==> i == |s|) && (i < |s| ==> b[at + i] == s[i])
  {
  }

  function Prefix(s: string, n: nat): string
  {
    if n <= |s| then s[..n] else s
  }

  method StrLen(b: seq<char>, at: nat) returns (n: nat)
    requires Terminated(b, at)
    ensures n == |Text(b, at)|
  {
    n := 0;
    while b[at + n] != NUL
      invariant n <= |Text(b, at)|
      decreases |Text(b, at)| - n
    {
      n := n + 1;
    }
    TextFrom(b, at, n);
  }

  /** The value of a byte as a signed character. */
  function Signed(c: char): int
  {
    if c as int < 128 then c as int else c as int - 256
  }

  /** Order of two texts: a proper prefix comes first, otherwise the first difference decides. */
  function Compare(s: string, t: string): int
  {
    if s == [] && t == [] then 0
    else if s == [] then -1
    else if t == [] then 1
    else if s[0] == t[0] then Compare(s[1..], t[1..])
    else if Signed(s[0]) < Signed(t[0]) then -1 else 1
  }

  lemma {:induction false} CompareEqual(s: string, t: string)
    ensures Compare(s, t) == 0 <==> s == t
  {
    if s != [] && t != [] && s[0] == t[0] {
      CompareEqual(s[1..], t[1..]);
      assert s == [s[0]] + s[1..] && t == [t[0]] + t[1..];
    }
  }

  lemma {:induction false} CompareFrom(s: string, t: string, i: nat)
    requires i <= |s| && i <= |t| && s[..i] == t[..i]
    ensures Compare(s, t) == Compare(s[i..], t[i..])
  {
    if i > 0 {
      assert s[0] == s[..i][0] == t[..i][0] == t[0];
      assert s[1..][..i - 1] == s[..i][1..] && t[1..][..i - 1] == t[..i][1..];
      CompareFrom(s[1..], t[1..], i - 1);
    }
  }

  /** The texts agree so far; the characters at position `i` decide, or there are none left. */
  lemma {:induction false} CompareAt(s: string, t: string, n: nat, i: nat)
    requires i <= |s| && i <= |t| && i <= n && s[..i] == t[..i]
    ensures var r := Compare(Prefix(s, n), Prefix(t, n));
            && (i == n || (i == |s| && i == |t|) ==> r == 0)
            && (i < n && i == |s| && i < |t| ==> r == -1)
            && (i < n && i < |s| && i == |t| ==> r == 1)
            && (i < n && i < |s| && i < |t| && s[i] != t[i] ==> r == if Signed(s[i]) < Signed(t[i]) then -1 else 1)
  {
    var a, b := Prefix(s, n), Prefix(t, n);
    assert a[..i] == s[..i] && b[..i] == t[..i];
    CompareFrom(a, b, i);
  }

  /** Compares at most `n` characters. */
  method StrNCmp(p: seq<char>, i0: nat, q: seq<char>, j0: nat, n: nat) returns (r: int)
    requires Terminated(p, i0) && Terminated(q, j0)
    ensures r == Compare(Prefix(Text(p, i0), n), Prefix(Text(q, j0), n))
  {
    ghost var s, t := Text(p, i0), Text(q, j0);
    var i := 0;
    while i < n
      invariant i <= n && i <= |s| && i <= |t| && s[..i] == t[..i]
    {
      EndIff(p, i0, s, i);
      EndIff(q, j0, t, i);
      CompareAt(s, t, n, i);
      var c, d := p[i0 + i], q[j0 + i];
      if c == d {
        if c == NUL {
          return 0;
        }
      } else {
        if c == NUL {
          return -1;
        }
        if d == NUL {
          return 1;
        }
        return if Signed(c) < Signed(d) then -1 else 1;
      }
      i := i + 1;
    }
    CompareAt(s, t, n, i);
    r := 0;
  }

  /** The first `n` characters of a text, filled up with NUL. */
  function Padded(s: string, n: nat): (r: string)
    ensures |r| == n
    ensures n <= |s| ==> r == s[..n]
  {
    seq(n, i requires 0 <= i < n => if i < |s| then s[i] else NUL)
  }

  /** Writes exactly `n` characters. */
  method StrNCpy(d: array<char>, to0: nat, b: seq<char>, at: nat, n: nat)
    requires Terminated(b, at) && to0 + n <= d.Length
    modifies d
    ensures d[..] == old(d[..to0]) + Padded(Text(b, at), n) + old(d[to0 + n..])
  {
    ghost var s, r := Text(b, at), Padded(Text(b, at), n);
    var i := 0;
    while b[at + i] != NUL && i < n
      invariant i <= n && i <= |s|
      invariant forall k :: 0 <= k < i ==> d[to0 + k] == r[k]
      invariant forall k :: 0 <= k < d.Length && !(to0 <= k < to0 + i) ==> d[k] == old(d[k])
      decreases n - i
    {
      d[to0 + i] := b[at + i];
      i := i + 1;
    }
    assert i < n ==> i == |s|;
    while i < n
      invariant i <= n && (i < n ==> i >= |s|)
      invariant forall k :: 0 <= k < i ==> d[to0 + k] == r[k]
      invariant forall k :: 0 <= k < d.Length && !(to0 <= k < to0 + i) ==> d[k] == old(d[k])
    {
      d[to0 + i] := NUL;
      i := i + 1;
    }
  }

  ghost predicate HasAt(s: string, p: string, i: nat)
  {
    i + |p| <= |s| && s[i..i + |p|] == p
  }

  lemma {:induction false} HasAtPrefix(s: string, p: string, i: nat)
    requires i <= |s|
    ensures HasAt(s, p, i) <==> Prefix(s[i..], |p|) == p
    ensures p != [] && i < |s| && s[i] != p[0] ==> !HasAt(s, p, i)
  {
    if HasAt(s, p, i) {
      assert Prefix(s[i..], |p|) == s[i..i + |p|];
      assert p != [] ==> s[i] == s[i..i + |p|][0];
    }
  }

  /** Whether the pattern occurs at a position: the first character is compared before the rest. */
  method Occurs(b: seq<char>, at: nat, i: nat, q: seq<char>, j: nat, plen: nat) returns (hit: bool)
    requires Terminated(b, at) && Terminated(q, j) && i < |Text(b, at)| && plen == |Text(q, j)|
    ensures hit <==> Text(q, j) != [] && HasAt(Text(b, at), Text(q, j), i)
  {
    ghost var s, p := Text(b, at), Text(q, j);
    EndIff(b, at, s, i);
    EndIff(q, j, p, 0);
    HasAtPrefix(s, p, i);
    hit := false;
    if b[at + i] == q[j] {
      TextFrom(b, at, i);
      var c := StrNCmp(b, at + i, q, j, plen);
      CompareEqual(Prefix(s[i..], plen), p);
      assert Prefix(p, plen) == p;
      hit := c == 0;
    }
  }

  /** The first position at which the pattern occurs; an empty pattern is not found. */
  method StrStr(b: seq<char>, at: nat, q: seq<char>, j: nat) returns (r: Option<nat>)
    requires Terminated(b, at) && Terminated(q, j)
    ensures r.None? ==> Text(q, j) == [] || forall i :: 0 <= i < |Text(b, at)| ==> !HasAt(Text(b, at), Text(q, j), i)
    ensures r.Some? ==> && Text(q, j) != [] && at <= r.value < at + |Text(b, at)|
                        && HasAt(Text(b, at), Text(q, j), r.value - at)
                        && forall i :: 0 <= i < r.value - at ==> !HasAt(Text(b, at), Text(q, j), i)
  {
    ghost var s, p := Text(b, at), Text(q, j);
    var plen := StrLen(q, j);
    var i := 0;
    EndIff(b, at, s, i);
    while b[at + i] != NUL
      invariant i <= |s| && at + i < |b| && (b[at + i] == NUL <==> i == |s|)
      invariant p == [] || forall k :: 0 <= k < i ==> !HasAt(s, p, k)
      decreases |s| - i
    {
      var hit := Occurs(b, at, i, q, j, plen);
      if hit {
        return Some(at + i);
      }
      i := i + 1;
      EndIff(b, at, s, i);
    }
    r := None;
  }
}
