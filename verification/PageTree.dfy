/**
  Four-level page tables as values: the walk that translates an address, the tree that the
  tables of one address space form, and what single entry updates do to translations.

  A frame is a physical address divided by 4096, an entry a frame with its low flag bits.
 */
module PageTree {
  import opened Options

  const ENTRIES := 512

  datatype Flag =
    | Present | Writable | User | WriteThrough | NonCachable | Accessed | Dirty | Large | Global

  datatype Entry = Entry(frame: nat, flags: set<Flag>)

  const ZERO := Entry(0, {})

  type Table = t: seq<Entry> | |t| == ENTRIES witness seq(ENTRIES, _ => ZERO)

  const EMPTY: Table := seq(ENTRIES, _ => ZERO)

  type Memory = map<nat, Table>

  /** The four table indices of a virtual page. */
  type Path = p: seq<nat> | |p| == 4 && forall i :: 0 <= i < 4 ==> p[i] < ENTRIES witness [0, 0, 0, 0]

  /** What a page translates to: the entry the walk ends at, flags included, for a 4K page or a 2M page. */
  datatype Leaf = Small(entry: Entry) | Big(entry: Entry)

  predicate IsPresent(e: Entry)
  {
    Present in e.flags
  }

  /** At depth `d` the present entry `e` leads to another table. */
  predicate IsLink(d: nat, e: Entry)
  {
    IsPresent(e) && (d < 2 || (d == 2 && Large !in e.flags))
  }

  /** The walk as the kernel does it, from table `t` at depth `d`. */
  function Walk(mem: Memory, t: nat, d: nat, v: Path): Option<Leaf>
    requires d < 4
    decreases 4 - d
  {
    if t !in mem then None
    else
      var e := mem[t][v[d]];
      if !IsPresent(e) then None
      else if d == 3 then Some(Small(e))
      else if IsLink(d, e) then Walk(mem, e.frame, d + 1, v)
      else Some(Big(e))
  }

  // ------------------------------------------------------------------ the tree

  /** For each table of an address space, the indices that lead to it. */
  type Owners = map<nat, seq<nat>>

  /**
    The tables of a space form a tree: the entry that leads to a table is determined by the
    table, so no table is linked twice. Entries that are not present are zero.
   */
  ghost predicate Tree(mem: Memory, own: Owners, root: nat)
  {
    && root in own && own[root] == []
    && (forall t :: t in own ==> t in mem && |own[t]| < 4)
    && (forall t, i :: t in own && 0 <= i < ENTRIES ==> EntryOk(mem, own, t, i))
  }

  ghost predicate EntryOk(mem: Memory, own: Owners, t: nat, i: nat)
    requires t in own && t in mem && i < ENTRIES
  {
    var e := mem[t][i];
    && (!IsPresent(e) ==> e == ZERO)
    && (IsLink(|own[t]|, e) ==> e.frame in own && own[e.frame] == own[t] + [i])
  }

  /** The walk of `v` from `t` at depth `d` comes to table `f` at depth `e`. */
  ghost predicate Leads(mem: Memory, t: nat, d: nat, f: nat, e: nat, v: Path)
    requires d <= e < 4
    decreases e - d
  {
    if d == e then t == f
    else t in mem && IsLink(d, mem[t][v[d]]) && Leads(mem, mem[t][v[d]].frame, d + 1, f, e, v)
  }

  lemma {:induction false} LeadsWalk(mem: Memory, t: nat, d: nat, f: nat, e: nat, v: Path)
    requires d <= e < 4
    requires Leads(mem, t, d, f, e, v)
    ensures Walk(mem, t, d, v) == Walk(mem, f, e, v)
    decreases e - d
  {
    if d < e {
      LeadsWalk(mem, mem[t][v[d]].frame, d + 1, f, e, v);
    }
  }

  lemma {:induction false} LeadsOn(mem: Memory, t: nat, d: nat, f: nat, e: nat, v: Path)
    requires d <= e < 3
    requires Leads(mem, t, d, f, e, v)
    requires f in mem && IsLink(e, mem[f][v[e]])
    ensures Leads(mem, t, d, mem[f][v[e]].frame, e + 1, v)
    decreases e - d
  {
    if d < e {
      LeadsOn(mem, mem[t][v[d]].frame, d + 1, f, e, v);
    }
  }

  /** Tables met on the way know their indices. */
  lemma {:induction false} LeadsOwner(mem: Memory, own: Owners, root: nat, t: nat, d: nat, f: nat, e: nat, v: Path)
    requires Tree(mem, own, root) && d <= e < 4
    requires t in own && own[t] == v[..d]
    requires Leads(mem, t, d, f, e, v)
    ensures f in own && own[f] == v[..e]
    decreases e - d
  {
    if d < e {
      assert EntryOk(mem, own, t, v[d]);
      assert v[..d + 1] == v[..d] + [v[d]];
      LeadsOwner(mem, own, root, mem[t][v[d]].frame, d + 1, f, e, v);
    }
  }

  // ------------------------------------------------------------------ one entry changes

  function Put(mem: Memory, f: nat, i: nat, e: Entry): (r: Memory)
    requires f in mem && i < ENTRIES
    ensures r.Keys == mem.Keys
    ensures r[f][i] == e
    ensures forall t, j :: t in mem && 0 <= j < ENTRIES && (t != f || j != i) ==> r[t][j] == mem[t][j]
  {
    mem[f := mem[f][i := e]]
  }

  /** `v` passes through entry `i` of the table with indices `p`. */
  predicate Through(v: Path, p: seq<nat>, i: nat)
    requires |p| < 4
  {
    v[..|p|] == p && v[|p|] == i
  }

  /** A walk that does not use the changed entry does not notice. */
  lemma {:induction false} WalkOther(mem: Memory, own: Owners, root: nat, f: nat, i: nat, e: Entry, t: nat, d: nat,
      v: Path)
    requires Tree(mem, own, root) && f in own && i < ENTRIES
    requires d < 4 && t in own && own[t] == v[..d]
    requires !Through(v, own[f], i)
    ensures Walk(Put(mem, f, i, e), t, d, v) == Walk(mem, t, d, v)
    decreases 4 - d
  {
    assert t != f || v[d] != i;
    var x := mem[t][v[d]];
    assert Put(mem, f, i, e)[t][v[d]] == x;
    if IsLink(d, x) {
      assert EntryOk(mem, own, t, v[d]);
      assert v[..d + 1] == v[..d] + [v[d]];
      WalkOther(mem, own, root, f, i, e, x.frame, d + 1, v);
    }
  }

  /** Above the changed table nothing changes on the way to it. */
  lemma {:induction false} LeadsOther(mem: Memory, own: Owners, root: nat, f: nat, i: nat, e: Entry, t: nat, d: nat,
      v: Path)
    requires Tree(mem, own, root) && f in own && i < ENTRIES
    requires d <= |own[f]| && t in own && own[t] == v[..d]
    requires Leads(mem, t, d, f, |own[f]|, v)
    ensures Leads(Put(mem, f, i, e), t, d, f, |own[f]|, v)
    decreases 4 - d
  {
    if d < |own[f]| {
      assert EntryOk(mem, own, t, v[d]);
      assert v[..d + 1] == v[..d] + [v[d]];
      LeadsOther(mem, own, root, f, i, e, mem[t][v[d]].frame, d + 1, v);
    }
  }

  /** All translations of the space are the same in both memories. */
  ghost predicate SameWalks(mem: Memory, mem': Memory, root: nat)
  {
    forall v: Path :: Walk(mem', root, 0, v) == Walk(mem, root, 0, v)
  }

  // Adding flags to a link.

  function Widened(e: Entry, u: set<Flag>): Entry
  {
    Entry(e.frame, e.flags + u)
  }

  lemma {:induction false} WidenWalk(mem: Memory, own: Owners, root: nat, f: nat, i: nat, u: set<Flag>, t: nat,
      d: nat, v: Path)
    requires Tree(mem, own, root) && f in own && i < ENTRIES
    requires IsLink(|own[f]|, mem[f][i]) && (Large !in u || |own[f]| < 2)
    requires d < 4 && t in own && own[t] == v[..d]
    ensures Walk(Put(mem, f, i, Widened(mem[f][i], u)), t, d, v) == Walk(mem, t, d, v)
    decreases 4 - d
  {
    var mem' := Put(mem, f, i, Widened(mem[f][i], u));
    var x := mem[t][v[d]];
    assert mem'[t][v[d]].frame == x.frame && IsLink(d, mem'[t][v[d]]) == IsLink(d, x);
    if IsLink(d, x) {
      assert EntryOk(mem, own, t, v[d]);
      assert v[..d + 1] == v[..d] + [v[d]];
      WidenWalk(mem, own, root, f, i, u, x.frame, d + 1, v);
    }
  }

  lemma {:induction false} Widen(mem: Memory, own: Owners, root: nat, f: nat, i: nat, u: set<Flag>)
    requires Tree(mem, own, root) && f in own && i < ENTRIES
    requires IsLink(|own[f]|, mem[f][i]) && (Large !in u || |own[f]| < 2)
    ensures var mem' := Put(mem, f, i, Widened(mem[f][i], u));
            Tree(mem', own, root) && SameWalks(mem, mem', root)
  {
    var mem' := Put(mem, f, i, Widened(mem[f][i], u));
    forall t, j | t in own && 0 <= j < ENTRIES
      ensures EntryOk(mem', own, t, j)
    {
      assert EntryOk(mem, own, t, j);
    }
    forall v: Path
      ensures Walk(mem', root, 0, v) == Walk(mem, root, 0, v)
    {
      WidenWalk(mem, own, root, f, i, u, root, 0, v);
    }
  }

  // Linking a new, empty table.

  lemma {:induction false} LinkWalk(mem: Memory, own: Owners, root: nat, f: nat, i: nat, c: nat, u: set<Flag>,
      t: nat, d: nat, v: Path)
    requires Tree(mem, own, root) && f in own && i < ENTRIES && |own[f]| < 3
    requires mem[f][i] == ZERO && c !in own && c in mem && mem[c] == EMPTY
    requires IsLink(|own[f]|, Entry(c, u))
    requires d < 4 && t in own && own[t] == v[..d]
    ensures Walk(Put(mem, f, i, Entry(c, u)), t, d, v) == Walk(mem, t, d, v)
    decreases 4 - d
  {
    var mem' := Put(mem, f, i, Entry(c, u));
    var x := mem[t][v[d]];
    if t == f && v[d] == i {
      assert mem'[c][v[d + 1]] == ZERO;
    } else if IsLink(d, x) {
      assert EntryOk(mem, own, t, v[d]);
      assert v[..d + 1] == v[..d] + [v[d]];
      LinkWalk(mem, own, root, f, i, c, u, x.frame, d + 1, v);
    }
  }

  lemma {:induction false} Link(mem: Memory, own: Owners, root: nat, f: nat, i: nat, c: nat, u: set<Flag>)
    requires Tree(mem, own, root) && f in own && i < ENTRIES && |own[f]| < 3
    requires mem[f][i] == ZERO && c !in own && c in mem && mem[c] == EMPTY
    requires IsLink(|own[f]|, Entry(c, u))
    ensures var mem' := Put(mem, f, i, Entry(c, u));
            Tree(mem', own[c := own[f] + [i]], root) && SameWalks(mem, mem', root)
  {
    var mem', own' := Put(mem, f, i, Entry(c, u)), own[c := own[f] + [i]];
    forall t, j | t in own' && 0 <= j < ENTRIES
      ensures EntryOk(mem', own', t, j)
    {
      if t == c {
        assert mem'[c][j] == ZERO;
      } else {
        assert EntryOk(mem, own, t, j);
      }
    }
    forall v: Path
      ensures Walk(mem', root, 0, v) == Walk(mem, root, 0, v)
    {
      LinkWalk(mem, own, root, f, i, c, u, root, 0, v);
    }
  }

  // Clearing a frame that is not one of the tables.

  lemma {:induction false} OutsideWalk(mem: Memory, own: Owners, root: nat, c: nat, x: Table, t: nat, d: nat, v: Path)
    requires Tree(mem, own, root) && c !in own
    requires d < 4 && t in own && own[t] == v[..d]
    ensures Walk(mem[c := x], t, d, v) == Walk(mem, t, d, v)
    decreases 4 - d
  {
    var y := mem[t][v[d]];
    if IsLink(d, y) {
      assert EntryOk(mem, own, t, v[d]);
      assert v[..d + 1] == v[..d] + [v[d]];
      OutsideWalk(mem, own, root, c, x, y.frame, d + 1, v);
    }
  }

  lemma {:induction false} Outside(mem: Memory, own: Owners, root: nat, c: nat, x: Table)
    requires Tree(mem, own, root) && c !in own
    ensures Tree(mem[c := x], own, root) && SameWalks(mem, mem[c := x], root)
  {
    var mem' := mem[c := x];
    forall t, j | t in own && 0 <= j < ENTRIES
      ensures EntryOk(mem', own, t, j)
    {
      assert EntryOk(mem, own, t, j);
    }
    forall v: Path
      ensures Walk(mem', root, 0, v) == Walk(mem, root, 0, v)
    {
      OutsideWalk(mem, own, root, c, x, root, 0, v);
    }
  }

  lemma {:induction false} LeadsOutside(mem: Memory, own: Owners, root: nat, c: nat, x: Table, t: nat, d: nat,
      f: nat, e: nat, v: Path)
    requires Tree(mem, own, root) && c !in own && d <= e < 4
    requires t in own && own[t] == v[..d]
    requires Leads(mem, t, d, f, e, v)
    ensures Leads(mem[c := x], t, d, f, e, v)
    decreases e - d
  {
    if d < e {
      assert EntryOk(mem, own, t, v[d]);
      assert v[..d + 1] == v[..d] + [v[d]];
      LeadsOutside(mem, own, root, c, x, mem[t][v[d]].frame, d + 1, f, e, v);
    }
  }

  /** A space none of whose tables changed keeps all its translations. */
  lemma {:induction false} OtherSpace(mem: Memory, mem': Memory, own: Owners, root: nat)
    requires Tree(mem, own, root)
    requires forall t :: t in own ==> t in mem' && mem'[t] == mem[t]
    ensures Tree(mem', own, root) && SameWalks(mem, mem', root)
  {
    forall t, j | t in own && 0 <= j < ENTRIES
      ensures EntryOk(mem', own, t, j)
    {
      assert EntryOk(mem, own, t, j);
    }
    forall v: Path
      ensures Walk(mem', root, 0, v) == Walk(mem, root, 0, v)
    {
      OtherWalk(mem, mem', own, root, root, 0, v);
    }
  }

  lemma {:induction false} OtherWalk(mem: Memory, mem': Memory, own: Owners, root: nat, t: nat, d: nat, v: Path)
    requires Tree(mem, own, root)
    requires forall t :: t in own ==> t in mem' && mem'[t] == mem[t]
    requires d < 4 && t in own && own[t] == v[..d]
    ensures Walk(mem', t, d, v) == Walk(mem, t, d, v)
    decreases 4 - d
  {
    var y := mem[t][v[d]];
    if IsLink(d, y) {
      assert EntryOk(mem, own, t, v[d]);
      assert v[..d + 1] == v[..d] + [v[d]];
      OtherWalk(mem, mem', own, root, y.frame, d + 1, v);
    }
  }

  // Setting or clearing a page.

  /** What an entry that is no link translates to. */
  function Target(d: nat, e: Entry): Option<Leaf>
  {
    if !IsPresent(e) then None else if d == 3 then Some(Small(e)) else Some(Big(e))
  }

  lemma {:induction false} LeadsPrefix(mem: Memory, t: nat, d: nat, f: nat, e: nat, v: Path, w: Path)
    requires d <= e < 4 && v[..e] == w[..e]
    requires Leads(mem, t, d, f, e, v)
    ensures Leads(mem, t, d, f, e, w)
    decreases e - d
  {
    if d < e {
      assert v[d] == v[..e][d] == w[..e][d] == w[d];
      LeadsPrefix(mem, mem[t][v[d]].frame, d + 1, f, e, v, w);
    }
  }

  /** The translations after entry `e` has been put at depth `d` on the path of `v`. */
  ghost predicate PageSet(mem: Memory, mem': Memory, root: nat, d: nat, v: Path, e: Entry)
    requires d < 4
  {
    forall w: Path :: Walk(mem', root, 0, w)
                   == if w[..d + 1] == v[..d + 1] then Target(d, e) else Walk(mem, root, 0, w)
  }

  lemma {:induction false} SetPage(mem: Memory, own: Owners, root: nat, f: nat, d: nat, v: Path, e: Entry)
    requires Tree(mem, own, root) && 2 <= d < 4
    requires Leads(mem, root, 0, f, d, v)
    requires f in mem && !IsLink(d, mem[f][v[d]])
    requires !IsLink(d, e) && (IsPresent(e) || e == ZERO)
    ensures Tree(Put(mem, f, v[d], e), own, root)
    ensures PageSet(mem, Put(mem, f, v[d], e), root, d, v, e)
    ensures PageSet(mem, mem, root, d, v, mem[f][v[d]])
  {
    LeadsOwner(mem, own, root, root, 0, f, d, v);
    var mem' := Put(mem, f, v[d], e);
    forall t, j | t in own && 0 <= j < ENTRIES
      ensures EntryOk(mem', own, t, j)
    {
      assert EntryOk(mem, own, t, j);
    }
    forall w: Path
      ensures Walk(mem', root, 0, w)
           == if w[..d + 1] == v[..d + 1] then Target(d, e) else Walk(mem, root, 0, w)
    {
      assert v[..d + 1] == v[..d] + [v[d]] && w[..d + 1] == w[..d] + [w[d]];
      if w[..d + 1] == v[..d + 1] {
        assert w[..d] == w[..d + 1][..d] == v[..d + 1][..d] == v[..d];
        assert w[d] == w[..d + 1][d] == v[..d + 1][d] == v[d];
        LeadsPrefix(mem, root, 0, f, d, v, w);
        LeadsOther(mem, own, root, f, v[d], e, root, 0, w);
        LeadsWalk(mem', root, 0, f, d, w);
      } else {
        WalkOther(mem, own, root, f, v[d], e, root, 0, w);
      }
    }
    forall w: Path | w[..d + 1] == v[..d + 1]
      ensures Walk(mem, root, 0, w) == Target(d, mem[f][v[d]])
    {
      assert w[..d] == w[..d + 1][..d] == v[..d + 1][..d] == v[..d];
      assert w[d] == w[..d + 1][d] == v[..d + 1][d] == v[d];
      LeadsPrefix(mem, root, 0, f, d, v, w);
      LeadsWalk(mem, root, 0, f, d, w);
    }
  }

  // ------------------------------------------------------------------ every entry on every way

  /** The present entry that the walk of `v` from table `t` at depth `d` meets at depth `k`. */
  function EntryOn(mem: Memory, t: nat, d: nat, k: nat, v: Path): Option<Entry>
    requires d <= k < 4
    decreases k - d
  {
    if t !in mem || !IsPresent(mem[t][v[d]]) then None
    else if d == k then Some(mem[t][v[d]])
    else if IsLink(d, mem[t][v[d]]) then EntryOn(mem, mem[t][v[d]].frame, d + 1, k, v)
    else None
  }

  function IfPresent(e: Entry): Option<Entry>
  {
    if IsPresent(e) then Some(e) else None
  }

  /** Both positions agree down to depth `d`. */
  predicate SameWay(v: Path, w: Path, d: nat)
    requires d < 4
  {
    v[..d + 1] == w[..d + 1]
  }

  /** Entry `x` may take the place of `e` at depth `d`: nothing below it is lost or gained. */
  ghost predicate Replaces(mem: Memory, own: Owners, d: nat, e: Entry, x: Entry)
  {
    || (IsLink(d, e) && IsLink(d, x) && x.frame == e.frame)
    || (!IsLink(d, e) && !IsLink(d, x))
    || (e == ZERO && IsLink(d, x) && x.frame !in own && Blank(mem, x.frame))
  }

  /** A table without entries. */
  ghost predicate Blank(mem: Memory, c: nat)
  {
    c in mem && forall j :: 0 <= j < ENTRIES ==> mem[c][j] == ZERO
  }

  lemma {:induction false} EntryOnPut(mem: Memory, own: Owners, root: nat, f: nat, i: nat, x: Entry, t: nat, d: nat,
      k: nat, w: Path)
    requires Tree(mem, own, root) && f in own && i < ENTRIES
    requires Replaces(mem, own, |own[f]|, mem[f][i], x)
    requires d <= k < 4 && t in own && own[t] == w[..d]
    ensures EntryOn(Put(mem, f, i, x), t, d, k, w)
         == if k == |own[f]| && Leads(mem, t, d, f, k, w) && w[k] == i then IfPresent(x)
            else EntryOn(mem, t, d, k, w)
    decreases k - d
  {
    var r, e := Put(mem, f, i, x), mem[t][w[d]];
    assert t != f || w[d] != i ==> r[t][w[d]] == e;
    if d < k {
      assert w[..d + 1] == w[..d] + [w[d]];
      if IsLink(d, e) {
        assert EntryOk(mem, own, t, w[d]);
        EntryOnPut(mem, own, root, f, i, x, e.frame, d + 1, k, w);
      }
    }
  }

  /** Of all entries on all ways, only the one at depth `d` on the way of `v` differs, and is `x`. */
  ghost predicate OneEntry(mem: Memory, mem': Memory, root: nat, v: Path, d: nat, x: Entry)
    requires d < 4
  {
    forall w: Path, k: nat :: k < 4 ==>
      EntryOn(mem', root, 0, k, w) == if k == d && SameWay(v, w, d) then IfPresent(x) else EntryOn(mem, root, 0, k, w)
  }

  lemma {:induction false} PutOneEntry(mem: Memory, own: Owners, root: nat, f: nat, d: nat, v: Path, x: Entry)
    requires Tree(mem, own, root) && d < 4 && f in own && own[f] == v[..d] && Leads(mem, root, 0, f, d, v)
    requires Replaces(mem, own, d, mem[f][v[d]], x)
    ensures OneEntry(mem, Put(mem, f, v[d], x), root, v, d, x)
  {
    forall w: Path, k: nat | k < 4
      ensures EntryOn(Put(mem, f, v[d], x), root, 0, k, w)
           == if k == d && SameWay(v, w, d) then IfPresent(x) else EntryOn(mem, root, 0, k, w)
    {
      EntryOnPut(mem, own, root, f, v[d], x, root, 0, k, w);
      if k == d {
        LeadsSame(mem, own, root, f, d, v, w);
      }
    }
  }

  /** The way of `w` comes through entry `v[d]` of the table `f` on the way of `v` exactly if both agree so far. */
  lemma {:induction false} LeadsSame(mem: Memory, own: Owners, root: nat, f: nat, d: nat, v: Path, w: Path)
    requires Tree(mem, own, root) && d < 4 && f in own && own[f] == v[..d] && Leads(mem, root, 0, f, d, v)
    ensures Leads(mem, root, 0, f, d, w) && w[d] == v[d] <==> SameWay(v, w, d)
  {
    assert v[..d + 1] == v[..d] + [v[d]] && w[..d + 1] == w[..d] + [w[d]];
    if Leads(mem, root, 0, f, d, w) {
      LeadsOwner(mem, own, root, root, 0, f, d, w);
    }
    if SameWay(v, w, d) {
      assert w[..d] == w[..d + 1][..d] == v[..d + 1][..d] == v[..d];
      assert w[d] == w[..d + 1][d] == v[..d + 1][d] == v[d];
      LeadsPrefix(mem, root, 0, f, d, v, w);
    }
  }

  /** All entries on all ways are the same. */
  ghost predicate SameEntries(mem: Memory, mem': Memory, root: nat)
  {
    forall w: Path, k: nat :: k < 4 ==> EntryOn(mem', root, 0, k, w) == EntryOn(mem, root, 0, k, w)
  }

  lemma {:induction false} EntryOnOutside(mem: Memory, own: Owners, root: nat, c: nat, x: Table, t: nat, d: nat,
      k: nat, w: Path)
    requires Tree(mem, own, root) && c !in own
    requires d <= k < 4 && t in own && own[t] == w[..d]
    ensures EntryOn(mem[c := x], t, d, k, w) == EntryOn(mem, t, d, k, w)
    decreases k - d
  {
    if d < k && IsLink(d, mem[t][w[d]]) {
      assert EntryOk(mem, own, t, w[d]);
      assert w[..d + 1] == w[..d] + [w[d]];
      EntryOnOutside(mem, own, root, c, x, mem[t][w[d]].frame, d + 1, k, w);
    }
  }

  lemma {:induction false} OutsideEntries(mem: Memory, own: Owners, root: nat, c: nat, x: Table)
    requires Tree(mem, own, root) && c !in own
    ensures SameEntries(mem, mem[c := x], root)
  {
    forall w: Path, k: nat | k < 4
      ensures EntryOn(mem[c := x], root, 0, k, w) == EntryOn(mem, root, 0, k, w)
    {
      EntryOnOutside(mem, own, root, c, x, root, 0, k, w);
    }
  }

  /** What opening the way with flags `u` makes of an entry: a writable table if there was none, and the flags added. */
  ghost predicate Passed(e: Option<Entry>, e': Option<Entry>, u: set<Flag>)
  {
    && e'.Some?
    && e'.value.flags == (if e.Some? then e.value.flags else {Present, Writable}) + u
    && (e.Some? ==> e'.value.frame == e.value.frame)
  }

  /** The entries at depths `lo` to `hi` on the way of `v` have been opened; all others are the same. */
  ghost predicate Opened(mem: Memory, mem': Memory, root: nat, v: Path, lo: nat, hi: nat, u: set<Flag>)
  {
    forall w: Path, k: nat :: k < 4 ==> OpenedAt(mem, mem', root, v, lo, hi, u, w, k)
  }

  ghost predicate OpenedAt(mem: Memory, mem': Memory, root: nat, v: Path, lo: nat, hi: nat, u: set<Flag>,
      w: Path, k: nat)
    requires k < 4
  {
    if lo <= k < hi && SameWay(v, w, k) then Passed(EntryOn(mem, root, 0, k, w), EntryOn(mem', root, 0, k, w), u)
    else EntryOn(mem', root, 0, k, w) == EntryOn(mem, root, 0, k, w)
  }

  lemma {:induction false} OpenedMore(m0: Memory, m1: Memory, m2: Memory, root: nat, v: Path, lo: nat, mid: nat,
      hi: nat, u: set<Flag>)
    requires lo <= mid <= hi && Opened(m0, m1, root, v, lo, mid, u) && Opened(m1, m2, root, v, mid, hi, u)
    ensures Opened(m0, m2, root, v, lo, hi, u)
  {
    forall w: Path, k: nat | k < 4
      ensures OpenedAt(m0, m2, root, v, lo, hi, u, w, k)
    {
      assert OpenedAt(m0, m1, root, v, lo, mid, u, w, k) && OpenedAt(m1, m2, root, v, mid, hi, u, w, k);
    }
  }

  /** All ways that agree with `v` down to table `f` meet its entry. */
  lemma {:induction false} LeadsEntry(mem: Memory, t: nat, d: nat, f: nat, k: nat, v: Path, w: Path)
    requires d <= k < 4 && Leads(mem, t, d, f, k, v) && f in mem && SameWay(v, w, k)
    ensures EntryOn(mem, t, d, k, w) == IfPresent(mem[f][v[k]])
    decreases k - d
  {
    assert v[d] == v[..k + 1][d] == w[..k + 1][d] == w[d];
    if d < k {
      LeadsEntry(mem, mem[t][v[d]].frame, d + 1, f, k, v, w);
    }
  }

  /** Putting `x` in place of the entry of `f` opens its depth. */
  lemma {:induction false} OneOpened(mem: Memory, mem': Memory, root: nat, f: nat, v: Path, d: nat, hi: nat, x: Entry,
      u: set<Flag>)
    requires d < 4 && hi == d + 1 && Leads(mem, root, 0, f, d, v) && f in mem
    requires OneEntry(mem, mem', root, v, d, x) && IsPresent(x)
    requires Passed(IfPresent(mem[f][v[d]]), Some(x), u)
    ensures Opened(mem, mem', root, v, d, hi, u)
  {
    forall w: Path, k: nat | k < 4
      ensures OpenedAt(mem, mem', root, v, d, hi, u, w, k)
    {
      if k == d && SameWay(v, w, d) {
        LeadsEntry(mem, root, 0, f, d, v, w);
      }
      assert EntryOn(mem', root, 0, k, w)
          == if k == d && SameWay(v, w, d) then IfPresent(x) else EntryOn(mem, root, 0, k, w);
    }
  }

  /** Two changes of one entry are one change. */
  lemma {:induction false} OneEntryTwice(m0: Memory, m1: Memory, m2: Memory, root: nat, v: Path, d: nat, x: Entry,
      y: Entry)
    requires d < 4 && OneEntry(m0, m1, root, v, d, x) && OneEntry(m1, m2, root, v, d, y)
    ensures OneEntry(m0, m2, root, v, d, y)
  {
    forall w: Path, k: nat | k < 4
      ensures EntryOn(m2, root, 0, k, w)
           == if k == d && SameWay(v, w, d) then IfPresent(y) else EntryOn(m0, root, 0, k, w)
    {
      assert EntryOn(m1, root, 0, k, w)
          == if k == d && SameWay(v, w, d) then IfPresent(x) else EntryOn(m0, root, 0, k, w);
    }
  }

  lemma {:induction false} SameThenOne(m0: Memory, m1: Memory, m2: Memory, root: nat, v: Path, d: nat, x: Entry)
    requires d < 4 && SameEntries(m0, m1, root) && OneEntry(m1, m2, root, v, d, x)
    ensures OneEntry(m0, m2, root, v, d, x)
  {
    forall w: Path, k: nat | k < 4
      ensures EntryOn(m2, root, 0, k, w)
           == if k == d && SameWay(v, w, d) then IfPresent(x) else EntryOn(m0, root, 0, k, w)
    {
      assert EntryOn(m1, root, 0, k, w) == EntryOn(m0, root, 0, k, w);
    }
  }

  /**
    The effect of a mapping on every entry of the space: `x` at depth `d` on the way of `v`, the way to it
    opened with the flags `u`, everything else the same.
   */
  ghost predicate Mapped(mem: Memory, mem': Memory, root: nat, v: Path, d: nat, x: Entry, u: set<Flag>)
    requires d < 4
  {
    && EntryOn(mem, root, 0, d, v) == None
    && forall w: Path, k: nat :: k < 4 ==> MappedAt(mem, mem', root, v, d, x, u, w, k)
  }

  ghost predicate MappedAt(mem: Memory, mem': Memory, root: nat, v: Path, d: nat, x: Entry, u: set<Flag>,
      w: Path, k: nat)
    requires k < 4 && d < 4
  {
    if k == d && SameWay(v, w, k) then EntryOn(mem', root, 0, k, w) == Some(x)
    else OpenedAt(mem, mem', root, v, 0, d, u, w, k)
  }

  lemma {:induction false} OpenedThenOne(m0: Memory, m1: Memory, m2: Memory, root: nat, v: Path, d: nat, x: Entry,
      u: set<Flag>)
    requires d < 4 && Opened(m0, m1, root, v, 0, d, u) && OneEntry(m1, m2, root, v, d, x) && IsPresent(x)
    requires EntryOn(m1, root, 0, d, v) == None
    ensures Mapped(m0, m2, root, v, d, x, u)
  {
    assert OpenedAt(m0, m1, root, v, 0, d, u, v, d);
    forall w: Path, k: nat | k < 4
      ensures MappedAt(m0, m2, root, v, d, x, u, w, k)
    {
      assert OpenedAt(m0, m1, root, v, 0, d, u, w, k);
      assert EntryOn(m2, root, 0, k, w)
          == if k == d && SameWay(v, w, d) then IfPresent(x) else EntryOn(m1, root, 0, k, w);
    }
  }

  /** The page carries the flags it was mapped with at every level. */
  lemma {:induction false} MappedEverywhere(mem: Memory, mem': Memory, root: nat, v: Path, d: nat, x: Entry,
      u: set<Flag>, k: nat)
    requires d < 4 && k <= d && Mapped(mem, mem', root, v, d, x, u) && u <= x.flags
    ensures EntryOn(mem', root, 0, k, v).Some? && u <= EntryOn(mem', root, 0, k, v).value.flags
  {
    assert MappedAt(mem, mem', root, v, d, x, u, v, k);
  }

  /** The entry that a walk ends at, met on the way. */
  lemma {:induction false} WalkEntry(mem: Memory, t: nat, d: nat, v: Path)
    requires d < 4 && Walk(mem, t, d, v).Some?
    ensures match Walk(mem, t, d, v).value
            case Small(e) => EntryOn(mem, t, d, 3, v) == Some(e) && (d <= 2 ==> EntryOn(mem, t, d, 2, v).Some?)
            case Big(e) => d <= 2 && EntryOn(mem, t, d, 2, v) == Some(e) && Large in e.flags
    decreases 4 - d
  {
    if d < 3 && IsLink(d, mem[t][v[d]]) {
      WalkEntry(mem, mem[t][v[d]].frame, d + 1, v);
    }
  }

  /** The entry before a table on the way leads to it. */
  lemma {:induction false} LeadsBefore(mem: Memory, t: nat, d: nat, f: nat, k: nat, v: Path)
    requires d < k < 4 && Leads(mem, t, d, f, k, v)
    ensures EntryOn(mem, t, d, k - 1, v).Some? && EntryOn(mem, t, d, k - 1, v).value.frame == f
    decreases k - d
  {
    if d + 1 < k {
      LeadsBefore(mem, mem[t][v[d]].frame, d + 1, f, k, v);
    }
  }

  /** On the way to a page table there is an entry at the third level. */
  lemma {:induction false} LeadsThird(mem: Memory, t: nat, d: nat, f: nat, v: Path)
    requires d <= 2 && Leads(mem, t, d, f, 3, v)
    ensures EntryOn(mem, t, d, 2, v).Some?
    decreases 4 - d
  {
    if d < 2 {
      LeadsThird(mem, mem[t][v[d]].frame, d + 1, f, v);
    }
  }

  /** A page table exists for the 2M range of `v`. */
  ghost predicate HasPageTable(mem: Memory, space: nat, v: Path)
  {
    exists f :: Leads(mem, space, 0, f, 3, v)
  }

  /** A mapped page or a page table in the way of a large page. */
  lemma {:induction false} ThirdTaken(mem: Memory, mem': Memory, root: nat, v: Path, d: nat, u: set<Flag>)
    requires d == 2 && Opened(mem, mem', root, v, 0, d, u)
    requires Walk(mem, root, 0, v).Some? || HasPageTable(mem', root, v)
    ensures EntryOn(mem, root, 0, d, v).Some?
  {
    if Walk(mem, root, 0, v).Some? {
      WalkEntry(mem, root, 0, v);
    } else {
      var f :| Leads(mem', root, 0, f, 3, v);
      LeadsThird(mem', root, 0, f, v);
      assert OpenedAt(mem, mem', root, v, 0, d, u, v, d);
    }
  }

  /** Without a mapped page there is nothing at the fourth level. */
  lemma {:induction false} NoLeaf(mem: Memory, t: nat, d: nat, v: Path)
    requires d < 4 && Walk(mem, t, d, v) == None
    ensures EntryOn(mem, t, d, 3, v) == None
    decreases 4 - d
  {
    if t in mem && d < 3 && IsLink(d, mem[t][v[d]]) {
      NoLeaf(mem, mem[t][v[d]].frame, d + 1, v);
    }
  }

  lemma {:induction false} NoneEntry(mem: Memory, root: nat, d: nat, v: Path)
    requires d == 3 && Walk(mem, root, 0, v) == None
    ensures OneEntry(mem, mem, root, v, d, ZERO)
  {
    forall w: Path, k: nat | k < 4
      ensures EntryOn(mem, root, 0, k, w)
           == if k == d && SameWay(v, w, d) then IfPresent(ZERO) else EntryOn(mem, root, 0, k, w)
    {
      if k == d && SameWay(v, w, d) {
        assert v == v[..4] && w == w[..4];
        NoLeaf(mem, root, 0, v);
      }
    }
  }

  // ------------------------------------------------------------------ the processor's walk

  /** The outcome of 4-level paging in the processor (section 4.5 of the Intel SDM, Volume 3A). */
  datatype Hardware = NotPresent | ReservedBit | Page4K(frame: nat) | Page2M(frame: nat) | Page1G(frame: nat)

  /** In the root, bit 7 is reserved; below, it ends the walk at a 1G or 2M page. */
  function HardwareWalk(mem: Memory, t: nat, d: nat, v: Path): Hardware
    requires d < 4
    decreases 4 - d
  {
    if t !in mem || !IsPresent(mem[t][v[d]]) then NotPresent
    else
      var e := mem[t][v[d]];
      if d == 3 then Page4K(e.frame)
      else if Large !in e.flags then HardwareWalk(mem, e.frame, d + 1, v)
      else if d == 0 then ReservedBit
      else if d == 1 then Page1G(e.frame)
      else Page2M(e.frame)
  }

  function AsHardware(l: Option<Leaf>): Hardware
  {
    match l
    case None => NotPresent
    case Some(Small(e)) => Page4K(e.frame)
    case Some(Big(e)) => Page2M(e.frame)
  }

  /** No entry of the upper two levels carries the large-page bit. */
  ghost predicate Clean(mem: Memory, own: Owners)
  {
    forall t, i :: t in own && t in mem && |own[t]| < 2 && 0 <= i < ENTRIES ==> Large !in mem[t][i].flags
  }

  lemma {:induction false} CleanAgrees(mem: Memory, own: Owners, root: nat, t: nat, d: nat, v: Path)
    requires Tree(mem, own, root) && Clean(mem, own)
    requires d < 4 && t in own && own[t] == v[..d]
    ensures HardwareWalk(mem, t, d, v) == AsHardware(Walk(mem, t, d, v))
    decreases 4 - d
  {
    var x := mem[t][v[d]];
    if IsLink(d, x) {
      assert EntryOk(mem, own, t, v[d]);
      assert v[..d + 1] == v[..d] + [v[d]];
      CleanAgrees(mem, own, root, x.frame, d + 1, v);
    }
  }

  /**
    For a mapped page the processor finds what the kernel recorded exactly when the
    large-page bit is absent from both upper entries on its path.
   */
  lemma {:induction false} AgreesIff(mem: Memory, own: Owners, root: nat, v: Path)
    requires Tree(mem, own, root) && Walk(mem, root, 0, v).Some?
    ensures root in mem && mem[root][v[0]].frame in mem
    ensures HardwareWalk(mem, root, 0, v) == AsHardware(Walk(mem, root, 0, v))
       <==> Large !in mem[root][v[0]].flags && Large !in mem[mem[root][v[0]].frame][v[1]].flags
  {
    assert EntryOk(mem, own, root, v[0]);
    var f := mem[root][v[0]].frame;
    assert own[f] == [v[0]];
    assert EntryOk(mem, own, f, v[1]);
    var g := mem[f][v[1]].frame;
    assert HardwareWalk(mem, g, 2, v) == AsHardware(Walk(mem, g, 2, v)) by {
      assert EntryOk(mem, own, g, v[2]);
    }
  }

  // ------------------------------------------------------------------ addresses

  /** The table indices of a virtual address: bits 39-47, 30-38, 21-29 and 12-20. */
  function Indices(virt: nat): Path
  {
    [virt / 0x80_0000_0000 % 512, virt / 0x4000_0000 % 512, virt / 0x20_0000 % 512, virt / 0x1000 % 512]
  }

  /** The 4K page of an address, out of 2^36. */
  function PageOf(virt: nat): nat
  {
    virt / 0x1000 % 0x10_0000_0000
  }

  /** The 2M page of an address, out of 2^27. */
  function BigPageOf(virt: nat): nat
  {
    virt / 0x20_0000 % 0x800_0000
  }

  lemma {:induction false} LowDigit2(y: nat)
    ensures y % 0x40000 == (y / 512 % 512) * 512 + y % 512
  {
    var z := y / 512;
    var q, r := z / 512, z % 512;
    assert y == 512 * z + y % 512 && z == 512 * q + r;
    assert y == 0x40000 * q + (512 * r + y % 512) && 0 <= 512 * r + y % 512 < 0x40000;
  }

  lemma {:induction false} LowDigit3(y: nat)
    ensures y % 0x800_0000 == (y / 512 % 0x40000) * 512 + y % 512
  {
    var z := y / 512;
    var q, r := z / 0x40000, z % 0x40000;
    assert y == 512 * z + y % 512 && z == 0x40000 * q + r;
    assert y == 0x800_0000 * q + (512 * r + y % 512) && 0 <= 512 * r + y % 512 < 0x800_0000;
  }

  /** Shifting in steps. */
  lemma Shifts(virt: nat)
    ensures virt / 0x20_0000 == virt / 0x1000 / 512
    ensures virt / 0x4000_0000 == virt / 0x20_0000 / 512
    ensures virt / 0x80_0000_0000 == virt / 0x4000_0000 / 512
  {
  }

  lemma {:induction false} LowDigit4(y: nat)
    ensures y % 0x10_0000_0000 == (y / 512 % 0x800_0000) * 512 + y % 512
  {
    var z := y / 512;
    var q, r := z / 0x800_0000, z % 0x800_0000;
    assert y == 512 * z + y % 512 && z == 0x800_0000 * q + r;
    assert y == 0x10_0000_0000 * q + (512 * r + y % 512) && 0 <= 512 * r + y % 512 < 0x10_0000_0000;
  }

  lemma {:induction false} PageDigits(virt: nat)
    ensures var p := Indices(virt);
            && BigPageOf(virt) == p[0] * 0x40000 + p[1] * 512 + p[2]
            && PageOf(virt) == BigPageOf(virt) * 512 + p[3]
  {
    Shifts(virt);
    LowDigit3(virt / 0x20_0000);
    LowDigit2(virt / 0x4000_0000);
    LowDigit4(virt / 0x1000);
  }

  lemma DigitsUnique(p: Path, q: Path)
    ensures p[..3] == q[..3] <==> p[0] * 0x40000 + p[1] * 512 + p[2] == q[0] * 0x40000 + q[1] * 512 + q[2]
    ensures p == q <==> p[..3] == q[..3] && p[3] == q[3]
  {
    assert p == p[..3] + [p[3]] && q == q[..3] + [q[3]];
    assert p[..3] == [p[0], p[1], p[2]] && q[..3] == [q[0], q[1], q[2]];
  }

  /** Two addresses take the same way through the tables exactly when they lie in the same page. */
  lemma {:induction false} SamePage(a: nat, b: nat)
    ensures Indices(a) == Indices(b) <==> PageOf(a) == PageOf(b)
    ensures Indices(a)[..3] == Indices(b)[..3] <==> BigPageOf(a) == BigPageOf(b)
  {
    PageDigits(a);
    PageDigits(b);
    DigitsUnique(Indices(a), Indices(b));
  }

  /** The kernel's translation of a virtual address. */
  function Translate(mem: Memory, root: nat, virt: nat): Option<Leaf>
  {
    Walk(mem, root, 0, Indices(virt))
  }

  /** Both addresses lie in one page of the size that belongs to depth `d`. */
  predicate SharePage(d: nat, a: nat, b: nat)
  {
    if d == 2 then BigPageOf(a) == BigPageOf(b) else PageOf(a) == PageOf(b)
  }

  /** In `mem'` the page of `virt` translates to `target`; every other address keeps its translation. */
  ghost predicate OnlyPage(mem: Memory, mem': Memory, root: nat, d: nat, virt: nat, target: Option<Leaf>)
  {
    forall w: nat :: Translate(mem', root, w) == if SharePage(d, w, virt) then target else Translate(mem, root, w)
  }

  lemma {:induction false} PageSetAddresses(mem: Memory, mem': Memory, root: nat, d: nat, virt: nat, e: Entry)
    requires d == 2 || d == 3
    requires PageSet(mem, mem', root, d, Indices(virt), e)
    ensures OnlyPage(mem, mem', root, d, virt, Target(d, e))
  {
    forall w: nat
      ensures Translate(mem', root, w) == if SharePage(d, w, virt) then Target(d, e) else Translate(mem, root, w)
    {
      SamePage(w, virt);
      var p, q := Indices(w), Indices(virt);
      assert p[..4] == p && q[..4] == q;
    }
  }

  /** A page of which one small-page address is not mapped, or none at all. */
  lemma {:induction false} WasUnmapped(mem: Memory, root: nat, d: nat, virt: nat)
    requires if d == 2 then OnlyPage(mem, mem, root, 2, virt, None) else Translate(mem, root, virt) == None
    ensures OnlyPage(mem, mem, root, d, virt, None)
  {
    if d != 2 {
      forall w: nat
        ensures Translate(mem, root, w) == if SharePage(d, w, virt) then None else Translate(mem, root, w)
      {
        SamePage(w, virt);
        assert Indices(w)[..4] == Indices(w) && Indices(virt)[..4] == Indices(virt);
      }
    }
  }

  lemma {:induction false} UnmapRestores(m0: Memory, m1: Memory, m2: Memory, root: nat, d: nat, virt: nat, leaf: Leaf)
    requires OnlyPage(m0, m0, root, d, virt, None) && OnlyPage(m0, m1, root, d, virt, Some(leaf))
    requires OnlyPage(m1, m2, root, d, virt, None)
    ensures forall w: nat :: Translate(m2, root, w) == Translate(m0, root, w)
  {
    forall w: nat
      ensures Translate(m2, root, w) == Translate(m0, root, w)
    {
      assert SharePage(d, w, virt) || Translate(m1, root, w) == Translate(m0, root, w);
    }
  }
}
