/**
  Paths (src/path.c): an absolute path is split into the parts behind each separator, and joined again.
 */
module Paths {
  import opened Options
  import opened CStrings

  const SLASH := '/'
  const SEPARATOR := [SLASH, NUL]

  // ------------------------------------------------------------------ split and join as functions

  /** The length of a text up to its first separator. */
  function Len(s: string): (n: nat)
    ensures n <= |s| && SLASH !in s[..n] && (n < |s| ==> s[n] == SLASH)
  {
    if s == [] || s[0] == SLASH then 0 else
      var n := Len(s[1..]);
      assert s[..n + 1] == [s[0]] + s[1..][..n];
      n + 1
  }

  predicate Absolute(s: string)
  {
    s != [] && s[0] == SLASH
  }

  /** The first part of an absolute path and what follows it. */
  function Cut(s: string): (r: (string, string))
    requires Absolute(s)
    ensures s == [SLASH] + r.0 + r.1 && SLASH !in r.0 && (r.1 == [] || Absolute(r.1))
    ensures r.0 == s[1..][..Len(s[1..])] && r.1 == s[1..][Len(s[1..])..]
  {
    var t := s[1..];
    (t[..Len(t)], t[Len(t)..])
  }

  /** The parts behind the separators of a text that is empty or begins with one. */
  function Split(s: string): seq<string>
    requires s == [] || Absolute(s)
    decreases |s|
  {
    if s == [] then [] else
      var (c, rest) := Cut(s);
      [c] + Split(rest)
  }

  /** Every part behind a separator. */
  function Join(cs: seq<string>): string
  {
    if cs == [] then [] else [SLASH] + cs[0] + Join(cs[1..])
  }

  lemma {:induction false} JoinCons(c: string, cs: seq<string>)
    ensures Join([c] + cs) == [SLASH] + c + Join(cs)
  {
    assert ([c] + cs)[1..] == cs;
  }

  /** Joining the parts of a path gives the path. */
  lemma {:induction false} JoinSplit(s: string)
    requires s == [] || Absolute(s)
    ensures Join(Split(s)) == s
    decreases |s|
  {
    if s != [] {
      var (c, rest) := Cut(s);
      JoinSplit(rest);
      JoinCons(c, Split(rest));
    }
  }

  lemma {:induction false} LenIs(c: string, rest: string)
    requires SLASH !in c && (rest == [] || Absolute(rest))
    ensures Len(c + rest) == |c|
  {
    if c == [] {
      assert c + rest == rest;
    } else {
      assert (c + rest)[1..] == c[1..] + rest && c[0] in c;
      LenIs(c[1..], rest);
    }
  }

  /** Splitting joined parts gives the parts, when none of them contains a separator. */
  lemma {:induction false} SplitJoin(cs: seq<string>)
    requires forall i :: 0 <= i < |cs| ==> SLASH !in cs[i]
    ensures Join(cs) == [] || Absolute(Join(cs))
    ensures Split(Join(cs)) == cs
  {
    if cs != [] {
      SplitJoin(cs[1..]);
      var c, rest := cs[0], Join(cs[1..]);
      var s := Join(cs);
      LenIs(c, rest);
      assert s[1..] == c + rest && (c + rest)[..|c|] == c && (c + rest)[|c|..] == rest;
      assert cs == [c] + cs[1..];
    }
  }

  // ------------------------------------------------------------------ splitting

  /** The next separator of a string. */
  method FindSlash(b: seq<char>, at: nat) returns (r: Option<nat>)
    requires Terminated(b, at)
    ensures var s := Text(b, at);
            r == if Len(s) < |s| then Some(at + Len(s)) else None
  {
    ghost var s := Text(b, at);
    assert SEPARATOR[1] == NUL;
    TextIs(SEPARATOR, 0, [SLASH]);
    r := StrStr(b, at, SEPARATOR, 0);
    forall i | 0 <= i < |s|
      ensures HasAt(s, [SLASH], i) <==> s[i] == SLASH
    {
      assert s[i..i + 1] == [s[i]];
    }
    assert forall i :: 0 <= i < Len(s) ==> s[i] == s[..Len(s)][i];
  }

  /** Number of separators. */
  ghost function Slashes(s: string): nat
  {
    if s == [] then 0 else (if s[0] == SLASH then 1 else 0) + Slashes(s[1..])
  }

  lemma {:induction false} SlashesSkip(s: string, n: nat)
    requires n <= |s| && SLASH !in s[..n]
    ensures Slashes(s) == Slashes(s[n..])
  {
    if n > 0 {
      assert s[0] in s[..n] && s[1..][..n - 1] == s[..n][1..] && s[1..][n - 1..] == s[n..];
      SlashesSkip(s[1..], n - 1);
    }
  }

  lemma {:induction false} SplitCount(s: string)
    requires s == [] || Absolute(s)
    ensures |Split(s)| == Slashes(s)
    decreases |s|
  {
    if s != [] {
      var n := Len(s[1..]);
      SplitCount(s[1..][n..]);
      SlashesSkip(s[1..], n);
    }
  }

  /** Counts the separators. */
  method CountSlashes(b: seq<char>) returns (count: nat)
    requires Terminated(b, 0)
    ensures count == Slashes(Text(b, 0))
  {
    ghost var s := Text(b, 0);
    count := 0;
    var at := 0;
    while true
      invariant at <= |s| && count + Slashes(s[at..]) == Slashes(s)
      decreases |s| - at
    {
      TextFrom(b, 0, at);
      var next := FindSlash(b, at);
      SlashesSkip(s[at..], Len(s[at..]));
      if next.None? {
        assert s[at..][Len(s[at..])..] == [];
        return;
      }
      assert s[at..][Len(s[at..])..][1..] == s[next.value + 1..];
      count, at := count + 1, next.value + 1;
    }
  }

  /** A fresh buffer with the next `n` characters. */
  method CopyPart(b: seq<char>, at: nat, n: nat) returns (part: seq<char>)
    requires Terminated(b, at) && n <= |Text(b, at)|
    ensures Terminated(part, 0) && Text(part, 0) == Text(b, at)[..n]
  {
    var buf := new char[n + 1];
    StrNCpy(buf, 0, b, at, n);
    buf[n] := NUL;
    part := buf[..];
    assert part[..n] == Text(b, at)[..n];
    TextIs(part, 0, Text(b, at)[..n]);
  }

  ghost predicate AllTerminated(bs: seq<seq<char>>)
  {
    forall i :: 0 <= i < |bs| ==> Terminated(bs[i], 0)
  }

  ghost function Texts(bs: seq<seq<char>>): (ts: seq<string>)
    requires AllTerminated(bs)
    ensures |ts| == |bs|
  {
    seq(|bs|, i requires 0 <= i < |bs| => Text(bs[i], 0))
  }

  /** What is left to split when the walk stands at `at`: everything from the next separator on. */
  ghost function Left(s: string, at: nat): (r: string)
    requires at <= |s|
    ensures r == [] || Absolute(r)
  {
    s[at..][Len(s[at..])..]
  }

  lemma {:induction false} LeftStep(s: string, at: nat, next: nat)
    requires at <= |s| && Len(s[at..]) < |s[at..]| && next == at + Len(s[at..]) + 1
    ensures next <= |s| && Absolute(Left(s, at))
    ensures Split(Left(s, at)) == [s[next..][..Len(s[next..])]] + Split(Left(s, next))
  {
    var r := Left(s, at);
    assert r[1..] == s[next..];
  }

  /** The buffer holds the text. */
  ghost predicate Reads(b: seq<char>, s: string)
  {
    Terminated(b, 0) && Text(b, 0) == s
  }

  ghost predicate AllRead(bs: seq<seq<char>>, ts: seq<string>)
  {
    |bs| == |ts| && forall k :: 0 <= k < |bs| ==> Reads(bs[k], ts[k])
  }

  lemma {:induction false} AllReadMore(bs: seq<seq<char>>, cs: seq<seq<char>>, ts: seq<string>, n: nat)
    requires n < |ts| && AllRead(bs, ts[..n]) && |cs| == n + 1 && cs[..n] == bs && Reads(cs[n], ts[n])
    ensures AllRead(cs, ts[..n + 1])
  {
    forall k | 0 <= k < n + 1
      ensures Reads(cs[k], ts[..n + 1][k])
    {
      assert k < n ==> cs[k] == bs[k] && ts[..n][k] == ts[..n + 1][k];
    }
  }

  lemma {:induction false} TextsAre(bs: seq<seq<char>>, ts: seq<string>)
    requires AllRead(bs, ts)
    ensures AllTerminated(bs) && Texts(bs) == ts
  {
  }

  /** The part that starts at a position: up to the next separator or the end. */
  method PartAt(b: seq<char>, start: nat, ghost s: string) returns (part: seq<char>)
    requires Terminated(b, 0) && s == Text(b, 0) && start <= |s|
    ensures Reads(part, s[start..][..Len(s[start..])])
  {
    TextFrom(b, 0, start);
    var next := FindSlash(b, start);
    var len;
    if next.Some? {
      len := next.value - start;
    } else {
      len := StrLen(b, start);
    }
    part := CopyPart(b, start, len);
  }

  /** The parts still to come when the walk stands at `at`. */
  ghost function ToCome(s: string, at: nat): seq<string>
    requires at <= |s|
  {
    Split(Left(s, at))
  }

  /** The next part, and where it starts; none when no separator follows. */
  method NextPart(b: seq<char>, at: nat, ghost s: string) returns (part: Option<seq<char>>, start: nat)
    requires Terminated(b, 0) && s == Text(b, 0) && at <= |s|
    ensures part.None? ==> ToCome(s, at) == []
    ensures part.Some? ==> && at < start <= |s| && ToCome(s, at) != []
                           && Reads(part.value, ToCome(s, at)[0]) && ToCome(s, at)[1..] == ToCome(s, start)
  {
    TextFrom(b, 0, at);
    var found := FindSlash(b, at);
    if found.None? {
      assert Left(s, at) == [];
      return None, at;
    }
    start := found.value + 1;
    LeftStep(s, at, start);
    var p := PartAt(b, start, s);
    part := Some(p);
  }

  lemma {:induction false} Advance(all: seq<string>, n: nat, rest: seq<string>)
    requires n <= |all| && all[n..] == rest && rest != []
    ensures n < |all| && all[n] == rest[0] && all[n + 1..] == rest[1..]
  {
  }

  /** Enters a part into the table. */
  method Store(parts: array<seq<char>>, n: nat, part: seq<char>, ghost all: seq<string>)
    requires n < |all| == parts.Length && AllRead(parts[..n], all[..n]) && Reads(part, all[n])
    modifies parts
    ensures AllRead(parts[..n + 1], all[..n + 1])
  {
    ghost var before := parts[..n];
    parts[n] := part;
    AllReadMore(before, parts[..n + 1], all, n);
  }

  lemma {:induction false} AllStored(parts: array<seq<char>>, n: nat, all: seq<string>)
    requires n <= |all| == parts.Length && all[n..] == [] && AllRead(parts[..n], all[..n])
    ensures AllRead(parts[..], all)
  {
    assert n == |all|;
    assert parts[..n] == parts[..] && all[..n] == all;
  }

  /** The first `n` parts are in the table and the walk stands at the position from which the others follow. */
  ghost predicate Filled(table: seq<seq<char>>, s: string, at: nat, n: nat, all: seq<string>)
  {
    at <= |s| && n <= |all| && all[n..] == ToCome(s, at) && AllRead(table, all[..n])
  }

  /** One more part, unless there is none. */
  method FillNext(parts: array<seq<char>>, b: seq<char>, at: nat, n: nat, ghost s: string, ghost all: seq<string>)
    returns (more: bool, start: nat)
    requires Terminated(b, 0) && s == Text(b, 0) && parts.Length == |all| && n <= |all|
    requires Filled(parts[..n], s, at, n, all)
    modifies parts
    ensures more ==> n < |all| && at < start <= |s| && Filled(parts[..n + 1], s, start, n + 1, all)
    ensures !more ==> AllRead(parts[..], all)
  {
    var part;
    part, start := NextPart(b, at, s);
    more := part.Some?;
    if more {
      Advance(all, n, ToCome(s, at));
      Store(parts, n, part.value, all);
    } else {
      AllStored(parts, n, all);
    }
  }

  /** Fills the table of parts; it has room for exactly as many as there are. */
  method Parts(b: seq<char>, count: nat, ghost s: string, ghost all: seq<string>) returns (parts: array<seq<char>>)
    requires Terminated(b, 0) && s == Text(b, 0) && all == ToCome(s, 0) && count == |all|
    ensures AllRead(parts[..], all)
  {
    parts := new seq<char>[count];
    var at, n, more := 0, 0, true;
    while more
      invariant parts.Length == |all| && n <= |all| && at <= |s|
      invariant more ==> Filled(parts[..n], s, at, n, all)
      invariant !more ==> AllRead(parts[..], all)
      decreases more, |s| - at
    {
      var start;
      more, start := FillNext(parts, b, at, n, s, all);
      if more {
        at, n := start, n + 1;
      }
    }
  }

  /** The parts of a path; none for a null pointer or a path that is not absolute. */
  method Create(p: Option<seq<char>>) returns (path: Option<seq<seq<char>>>)
    requires p.Some? ==> Terminated(p.value, 0)
    ensures path.Some? <==> p.Some? && Absolute(Text(p.value, 0))
    ensures path.Some? ==> AllTerminated(path.value) && Texts(path.value) == Split(Text(p.value, 0))
  {
    if p.None? {
      return None;
    }
    var b := p.value;
    ghost var s := Text(b, 0);
    TextIs(SEPARATOR, 0, [SLASH]);
    var sepLen := StrLen(SEPARATOR, 0);
    var c := StrNCmp(b, 0, SEPARATOR, 0, sepLen);
    CompareEqual(Prefix(s, 1), [SLASH]);
    assert Prefix([SLASH], 1) == [SLASH];
    assert c == 0 <==> Absolute(s) by {
      assert s != [] ==> Prefix(s, 1) == [s[0]];
    }
    if c != 0 {
      return None;
    }
    var count := CountSlashes(b);
    SplitCount(s);
    assert Left(s, 0) == s;
    var parts := Parts(b, count, s, Split(s));
    TextsAre(parts[..], Split(s));
    path := Some(parts[..]);
  }

  // ------------------------------------------------------------------ joining

  lemma {:induction false} JoinMore(cs: seq<string>, c: string)
    ensures Join(cs + [c]) == Join(cs) + [SLASH] + c
  {
    if cs == [] {
      assert cs + [c] == [c] && Join([c][1..]) == [];
    } else {
      assert (cs + [c])[1..] == cs[1..] + [c];
      JoinMore(cs[1..], c);
    }
  }

  lemma {:induction false} JoinLength(cs: seq<string>, i: nat)
    requires i <= |cs|
    ensures |Join(cs[..i])| <= |Join(cs)|
    decreases |cs| - i
  {
    if i < |cs| {
      JoinLength(cs, i + 1);
      assert cs[..i + 1] == cs[..i] + [cs[i]];
      JoinMore(cs[..i], cs[i]);
    } else {
      assert cs[..i] == cs;
    }
  }

  lemma {:induction false} JoinClean(cs: seq<string>)
    requires forall i :: 0 <= i < |cs| ==> NUL !in cs[i]
    ensures NUL !in Join(cs)
  {
    if cs != [] {
      JoinClean(cs[1..]);
    }
  }

  /** The summed length of the parts, with a separator for each. */
  method JoinedLength(parts: seq<seq<char>>) returns (len: nat)
    requires AllTerminated(parts)
    ensures len == |Join(Texts(parts))|
  {
    ghost var ts := Texts(parts);
    len := 0;
    for i := 0 to |parts|
      invariant len == |Join(ts[..i])|
    {
      var n := StrLen(parts[i], 0);
      assert ts[..i + 1] == ts[..i] + [ts[i]];
      JoinMore(ts[..i], ts[i]);
      len := len + 1 + n;
    }
    assert ts[..|parts|] == ts;
  }

  /** Writes a separator and a part. */
  method PutPart(buf: array<char>, pos: nat, part: seq<char>) returns (end: nat)
    requires Terminated(part, 0) && pos + 1 + |Text(part, 0)| <= buf.Length
    modifies buf
    ensures end == pos + 1 + |Text(part, 0)| && buf[..end] == old(buf[..pos]) + [SLASH] + Text(part, 0)
  {
    TextIs(SEPARATOR, 0, [SLASH]);
    StrNCpy(buf, pos, SEPARATOR, 0, 1);
    var n := StrLen(part, 0);
    assert buf[..pos + 1] == old(buf[..pos]) + [SLASH];
    StrNCpy(buf, pos + 1, part, 0, n);
    end := pos + 1 + n;
  }

  /** The path as a string. */
  method ToString(path: Option<seq<seq<char>>>) returns (r: Option<seq<char>>)
    requires path.Some? ==> AllTerminated(path.value)
    ensures r.Some? <==> path.Some?
    ensures r.Some? ==> Terminated(r.value, 0) && Text(r.value, 0) == Join(Texts(path.value))
  {
    if path.None? {
      return None;
    }
    var parts := path.value;
    ghost var ts := Texts(parts);
    var len := JoinedLength(parts);
    var buf := new char[len + 1];
    var pos := 0;
    for i := 0 to |parts|
      invariant pos == |Join(ts[..i])| <= len && buf[..pos] == Join(ts[..i])
    {
      assert ts[..i + 1] == ts[..i] + [ts[i]];
      JoinMore(ts[..i], ts[i]);
      JoinLength(ts, i + 1);
      pos := PutPart(buf, pos, parts[i]);
    }
    assert ts[..|parts|] == ts;
    buf[pos] := NUL;
    JoinClean(ts);
    TextIs(buf[..], 0, Join(ts));
    r := Some(buf[..]);
  }

  /** Splitting the string of a path with separator-free parts gives the parts. */
  method SplitAgain(parts: seq<seq<char>>) returns (path: Option<seq<seq<char>>>)
    requires AllTerminated(parts) && parts != [] && forall i :: 0 <= i < |parts| ==> SLASH !in Texts(parts)[i]
    ensures path.Some? && AllTerminated(path.value) && Texts(path.value) == Texts(parts)
  {
    var s := ToString(Some(parts));
    SplitJoin(Texts(parts));
    path := Create(s);
  }

  /** The string of a split path is the path. */
  method JoinAgain(b: seq<char>) returns (r: Option<seq<char>>)
    requires Terminated(b, 0) && Absolute(Text(b, 0))
    ensures r.Some? && Terminated(r.value, 0) && Text(r.value, 0) == Text(b, 0)
  {
    var path := Create(Some(b));
    JoinSplit(Text(b, 0));
    r := ToString(path);
  }
}
