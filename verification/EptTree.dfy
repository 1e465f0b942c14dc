/** The page-table tree as a mathematical object: raw frames on one side, the ghost
    assignment of index prefixes to frames on the other. */
module EptTree {
  import opened Wrappers
  import opened EptEntries

  /** Raw memory, one 512-entry frame per physical page. */
  type Frame = seq<Word>
  type Memory = map<PhysAddr, Frame>

  ghost predicate Framed(mem: Memory) {
    forall pa :: pa in mem ==> |mem[pa]| == 512
  }

  /** The index prefix that leads to a table, root first. */
  type Prefix = seq<nat>

  /** Which frame holds the table reached by each prefix. */
  type Tables = map<Prefix, PhysAddr>

  /** A bump allocator over a fixed pool: addrs are the pool's pages in the order
      they are handed out, next counts the calls made so far (also failing ones). */
  datatype Pool = Pool(addrs: seq<PhysAddr>, next: nat, mem: Memory) {
    function Handed(): (n: nat) ensures n <= |addrs| {
      if next <= |addrs| then next else |addrs|
    }

    ghost predicate IsHanded(pa: PhysAddr) {
      exists k :: 0 <= k < Handed() && addrs[k] == pa
    }
  }

  ghost predicate Zeroed(f: Frame) {
    |f| == 512 && forall i :: 0 <= i < 512 ==> f[i] == 0
  }

  ghost predicate PoolValid(p: Pool) {
    && Framed(p.mem)
    && (forall j, k :: 0 <= j < k < |p.addrs| ==> p.addrs[j] != p.addrs[k])
    && (forall k :: 0 <= k < |p.addrs| ==> Aligned(p.addrs[k]) && p.addrs[k] in p.mem)
    && (forall k :: p.next <= k < |p.addrs| ==> Zeroed(p.mem[p.addrs[k]]))
  }

  // ----- allocation and raw access ----------------------------------------

  function Alloc(p: Pool): (r: (Pool, Option<PhysAddr>)) {
    (p.(next := p.next + 1), if p.next < |p.addrs| then Some(p.addrs[p.next]) else None)
  }

  function Write(mem: Memory, pa: PhysAddr, i: nat, w: Word): Memory
    requires pa in mem && i < |mem[pa]|
  {
    mem[pa := mem[pa][i := w]]
  }

  lemma WriteKeeps(mem: Memory, pa: PhysAddr, i: nat, w: Word)
    requires pa in mem && i < |mem[pa]|
    ensures Write(mem, pa, i, w).Keys == mem.Keys
    ensures forall o :: o in mem && o != pa ==> Write(mem, pa, i, w)[o] == mem[o]
    ensures Write(mem, pa, i, w)[pa] == mem[pa][i := w]
    ensures Framed(mem) ==> Framed(Write(mem, pa, i, w))
  {}

  // ----- the tree invariant -------------------------------------------------

  function Child(p: Prefix, i: nat): Prefix { p + [i] }

  function Parent(p: Prefix): Prefix
    requires |p| > 0
  {
    p[..|p| - 1]
  }

  /** The entry for child i of the table at p is a link exactly when the child exists. */
  ghost predicate Linked(mem: Memory, tables: Tables, p: Prefix, i: nat)
    requires p in tables && tables[p] in mem && i < |mem[tables[p]]|
  {
    var e := mem[tables[p]][i];
    if Child(p, i) in tables then e == TableEntry(tables[Child(p, i)]) else !Present(e)
  }

  ghost predicate Tree(mem: Memory, root: PhysAddr, tables: Tables) {
    && Framed(mem)
    && [] in tables && tables[[]] == root
    && (forall p :: p in tables ==> |p| <= 3 && tables[p] in mem && Aligned(tables[p]))
    && (forall p, q :: p in tables && q in tables && tables[p] == tables[q] ==> p == q)
    && (forall p {:trigger Parent(p)} :: p in tables && |p| > 0 ==> Parent(p) in tables)
    && (forall p, i :: p in tables && |p| < 3 && 0 <= i < 512 ==> Linked(mem, tables, p, i))
  }

  ghost predicate IsPath(path: seq<nat>) {
    |path| == 4 && path[0] < 512 && path[1] < 512 && path[2] < 512 && path[3] < 512
  }

  /** What the tree stores for a path: the leaf word, if one is present. */
  ghost function Lookup(mem: Memory, tables: Tables, path: seq<nat>): Option<Word>
    requires IsPath(path)
    requires Framed(mem) && (path[..3] in tables ==> tables[path[..3]] in mem)
  {
    if path[..3] in tables && Present(mem[tables[path[..3]]][path[3]])
    then Some(mem[tables[path[..3]]][path[3]])
    else None
  }

  /** Tables at different prefixes are different frames. */
  lemma WriteElsewhere(mem: Memory, root: PhysAddr, tables: Tables, p: Prefix, i: nat, w: Word, q: Prefix)
    requires Tree(mem, root, tables) && p in tables && q in tables && i < 512
    ensures tables[q] in Write(mem, tables[p], i, w)
    ensures q != p ==> Write(mem, tables[p], i, w)[tables[q]] == mem[tables[q]]
  {
    hide Linked, Fits52, Aligned;
    assert q != p ==> tables[q] != tables[p];
  }

  /** A zeroed frame pa may be linked below p at index i. */
  ghost predicate CanLink(mem: Memory, root: PhysAddr, tables: Tables, p: Prefix, i: nat, pa: PhysAddr) {
    && Tree(mem, root, tables)
    && p in tables && |p| < 3 && i < 512 && Child(p, i) !in tables
    && pa in mem && Aligned(pa) && Zeroed(mem[pa]) && NoTable(tables, pa)
  }

  ghost predicate NoTable(tables: Tables, pa: PhysAddr) {
    forall q :: q in tables ==> tables[q] != pa
  }

  lemma LinkKeepsLinks(mem: Memory, root: PhysAddr, tables: Tables, p: Prefix, i: nat, pa: PhysAddr, q: Prefix, j: nat)
    requires CanLink(mem, root, tables, p, i, pa)
    requires (q in tables || q == Child(p, i)) && |q| < 3 && j < 512
    ensures var mem' := Write(mem, tables[p], i, TableEntry(pa));
            var tables' := tables[Child(p, i) := pa];
            q in tables' && tables'[q] in mem' && |mem'[tables'[q]]| == 512 && Linked(mem', tables', q, j)
  {
    hide Present, TableEntry, Aligned, Fits52;
    var c := Child(p, i);
    if q == c {
      ZeroAbsent();
      NoGrandchild(mem, root, tables, c, j);
    } else {
      assert Linked(mem, tables, q, j);
      WriteElsewhere(mem, root, tables, p, i, TableEntry(pa), q);
      assert Child(q, j)[|q|] == j && Child(q, j)[..|q|] == q;
      assert c[|p|] == i && c[..|p|] == p;
    }
  }

  lemma LinkShowsNothing(mem: Memory, root: PhysAddr, tables: Tables, p: Prefix, i: nat, pa: PhysAddr, path: seq<nat>)
    requires CanLink(mem, root, tables, p, i, pa) && IsPath(path)
    ensures var mem' := Write(mem, tables[p], i, TableEntry(pa));
            var tables' := tables[Child(p, i) := pa];
            Framed(mem') && (path[..3] in tables' ==> tables'[path[..3]] in mem')
            && Lookup(mem', tables', path) == Lookup(mem, tables, path)
  {
    hide Present, TableEntry, Aligned, Fits52, Linked;
    var q := path[..3];
    if q == Child(p, i) {
      ZeroAbsent();
    } else if q in tables {
      WriteElsewhere(mem, root, tables, p, i, TableEntry(pa), q);
    }
  }

  /** Linking a zeroed frame below p keeps the tree and shows nothing new. */
  lemma LinkStep(mem: Memory, root: PhysAddr, tables: Tables, p: Prefix, i: nat, pa: PhysAddr)
    requires CanLink(mem, root, tables, p, i, pa)
    ensures Tree(Write(mem, tables[p], i, TableEntry(pa)), root, tables[Child(p, i) := pa])
    ensures forall path :: IsPath(path) ==>
      Lookup(Write(mem, tables[p], i, TableEntry(pa)), tables[Child(p, i) := pa], path)
      == Lookup(mem, tables, path)
  {
    hide Present, TableEntry, Aligned, Fits52, Linked, Lookup;
    var c := Child(p, i);
    var mem' := Write(mem, tables[p], i, TableEntry(pa));
    var tables' := tables[c := pa];
    assert Parent(c) == p;
    forall q, j | q in tables' && |q| < 3 && 0 <= j < 512
      ensures Linked(mem', tables', q, j)
    {
      LinkKeepsLinks(mem, root, tables, p, i, pa, q, j);
    }
    forall path | IsPath(path)
      ensures Lookup(mem', tables', path) == Lookup(mem, tables, path)
    {
      LinkShowsNothing(mem, root, tables, p, i, pa, path);
    }
  }

  lemma NoGrandchild(mem: Memory, root: PhysAddr, tables: Tables, c: Prefix, j: nat)
    requires Tree(mem, root, tables) && c !in tables
    ensures Child(c, j) !in tables
  {
    var g := Child(c, j);
    assert Parent(g) == c;
  }

  /** Writing a leaf keeps the tree and changes exactly one path. */
  lemma LeafStep(mem: Memory, root: PhysAddr, tables: Tables, at: seq<nat>, w: Word)
    requires Tree(mem, root, tables) && IsPath(at) && at[..3] in tables && Present(w)
    ensures Tree(Write(mem, tables[at[..3]], at[3], w), root, tables)
    ensures forall path :: IsPath(path) ==>
      Lookup(Write(mem, tables[at[..3]], at[3], w), tables, path)
      == if path == at then Some(w) else Lookup(mem, tables, path)
  {
    hide Present, TableEntry, Aligned, Fits52;
    var r := at[..3];
    var mem' := Write(mem, tables[r], at[3], w);
    forall q, j | q in tables && |q| < 3 && 0 <= j < 512
      ensures Linked(mem', tables, q, j)
    {
      assert Linked(mem, tables, q, j);
      WriteElsewhere(mem, root, tables, r, at[3], w, q);
    }
    forall path | IsPath(path)
      ensures Lookup(mem', tables, path)
           == if path == at then Some(w) else Lookup(mem, tables, path)
    {
      LeafShows(mem, root, tables, at, w, path);
    }
  }

  lemma LeafShows(mem: Memory, root: PhysAddr, tables: Tables, at: seq<nat>, w: Word, path: seq<nat>)
    requires Tree(mem, root, tables) && IsPath(at) && at[..3] in tables && Present(w) && IsPath(path)
    ensures Lookup(Write(mem, tables[at[..3]], at[3], w), tables, path)
         == if path == at then Some(w) else Lookup(mem, tables, path)
  {
    var q, r := path[..3], at[..3];
    WriteKeeps(mem, tables[r], at[3], w);
    hide Present, TableEntry, Aligned, Fits52, Linked, Write;
    assert path == q + [path[3]] && at == r + [at[3]];
    if q in tables {
      WriteElsewhere(mem, root, tables, r, at[3], w, q);
    }
  }

  /** Writing into a frame that is not a table changes nothing. */
  lemma ForeignWrite(mem: Memory, mem': Memory, root: PhysAddr, tables: Tables)
    requires Tree(mem, root, tables)
    requires Framed(mem') && forall p :: p in tables ==> tables[p] in mem' && mem'[tables[p]] == mem[tables[p]]
    ensures Tree(mem', root, tables)
    ensures forall path :: IsPath(path) ==> Lookup(mem', tables, path) == Lookup(mem, tables, path)
  {
    hide Present, TableEntry, Aligned, Fits52;
    forall q, j | q in tables && |q| < 3 && 0 <= j < 512
      ensures Linked(mem', tables, q, j)
    {
      assert Linked(mem, tables, q, j);
    }
  }

  // ----- effects of one update on the rest of the machine --------------------

  ghost predicate Ready(p: Pool, root: PhysAddr, tables: Tables) {
    && PoolValid(p)
    && Tree(p.mem, root, tables)
    && forall q :: q in tables ==> p.IsHanded(tables[q])
  }

  /** Existing tables stay where they are; new ones use frames handed out since, one
      each. Other frames handed out before keep their contents. */
  ghost predicate Grows(p: Pool, tables: Tables, p': Pool, tables': Tables) {
    && p'.addrs == p.addrs && p'.next >= p.next && p'.mem.Keys == p.mem.Keys
    && (forall q :: q in tables ==> q in tables' && tables'[q] == tables[q])
    && (forall q :: q in tables' && q !in tables ==> !p.IsHanded(tables'[q]))
    && |tables'| - |tables| == p'.Handed() - p.Handed()
    && (forall pa :: pa in p.mem && p.IsHanded(pa) && NoTable(tables, pa) ==> p'.mem[pa] == p.mem[pa])
  }

  lemma GrowsTransitive(p: Pool, t: Tables, p1: Pool, t1: Tables, p2: Pool, t2: Tables)
    requires Grows(p, t, p1, t1) && Grows(p1, t1, p2, t2)
    ensures Grows(p, t, p2, t2)
  {
    HandedGrows(p, p1);
    forall pa | pa in p.mem && p.IsHanded(pa) && NoTable(t, pa)
      ensures p2.mem[pa] == p.mem[pa]
    {
      assert NoTable(t1, pa);
    }
  }

  lemma HandedGrows(p: Pool, p': Pool)
    requires p'.addrs == p.addrs && p'.next >= p.next
    ensures p.Handed() <= p'.Handed()
    ensures forall pa :: p.IsHanded(pa) ==> p'.IsHanded(pa)
  {
    forall pa | p.IsHanded(pa)
      ensures p'.IsHanded(pa)
    {
      var k :| 0 <= k < p.Handed() && p.addrs[k] == pa;
      assert 0 <= k < p'.Handed();
    }
  }

  /** Take a frame from the pool and link it below prefix at. */
  ghost function LinkFresh(p: Pool, tables: Tables, at: Prefix, i: nat): (Pool, Tables)
    requires at in tables && tables[at] in p.mem && i < |p.mem[tables[at]]|
    requires p.next < |p.addrs|
  {
    var pa := p.addrs[p.next];
    (p.(next := p.next + 1, mem := Write(p.mem, tables[at], i, TableEntry(pa))),
     tables[Child(at, i) := pa])
  }

  lemma FreshIsNoTable(p: Pool, root: PhysAddr, tables: Tables)
    requires Ready(p, root, tables) && p.next < |p.addrs|
    ensures NoTable(tables, p.addrs[p.next]) && !p.IsHanded(p.addrs[p.next])
  {}

  lemma LinkFreshPool(p: Pool, root: PhysAddr, tables: Tables, at: Prefix, i: nat)
    requires Ready(p, root, tables)
    requires at in tables && i < 512 && p.next < |p.addrs|
    ensures PoolValid(LinkFresh(p, tables, at, i).0)
  {
    hide Present, TableEntry, Aligned, Fits52, Linked;
    var p' := LinkFresh(p, tables, at, i).0;
    var k0 :| 0 <= k0 < p.Handed() && p.addrs[k0] == tables[at];
    forall k | p'.next <= k < |p'.addrs|
      ensures Zeroed(p'.mem[p'.addrs[k]])
    {
      assert p.addrs[k0] != p.addrs[k];
      assert Zeroed(p.mem[p.addrs[k]]);
    }
  }

  lemma LinkFreshHanded(p: Pool, root: PhysAddr, tables: Tables, at: Prefix, i: nat)
    requires Ready(p, root, tables)
    requires at in tables && tables[at] in p.mem && i < |p.mem[tables[at]]| && p.next < |p.addrs|
    ensures var (p', t') := LinkFresh(p, tables, at, i);
      forall q :: q in t' ==> p'.IsHanded(t'[q])
  {
    hide Present, TableEntry, Aligned, Fits52, Linked, Tree, PoolValid, Zeroed, Framed;
    var (p', t') := LinkFresh(p, tables, at, i);
    HandedGrows(p, p');
    assert p'.addrs[p.next] == p.addrs[p.next] && p.next < p'.Handed();
  }

  lemma LinkFreshGrows(p: Pool, root: PhysAddr, tables: Tables, at: Prefix, i: nat)
    requires Ready(p, root, tables)
    requires at in tables && tables[at] in p.mem && i < |p.mem[tables[at]]|
    requires Child(at, i) !in tables && p.next < |p.addrs|
    ensures var (p', t') := LinkFresh(p, tables, at, i);
      Grows(p, tables, p', t')
  {
    FreshIsNoTable(p, root, tables);
    hide Present, TableEntry, Aligned, Fits52, Linked, Tree, Zeroed, PoolValid, Ready, Child;
    hide Pool.IsHanded;
    var c := Child(at, i);
    var (p', t') := LinkFresh(p, tables, at, i);
    SizePlusOne(tables, c, p.addrs[p.next]);
    WriteKeeps(p.mem, tables[at], i, TableEntry(p.addrs[p.next]));
    hide Write;
  }

  lemma SizePlusOne(tables: Tables, c: Prefix, pa: PhysAddr)
    requires c !in tables
    ensures |tables[c := pa]| == |tables| + 1
  {
    assert tables[c := pa].Keys == tables.Keys + {c};
  }

  lemma LinkFreshEffect(p: Pool, root: PhysAddr, tables: Tables, at: Prefix, i: nat)
    requires Ready(p, root, tables)
    requires at in tables && |at| < 3 && i < 512 && Child(at, i) !in tables
    requires p.next < |p.addrs|
    ensures var (p', t') := LinkFresh(p, tables, at, i);
      && Ready(p', root, t')
      && Grows(p, tables, p', t')
      && p'.Handed() == p.Handed() + 1
      && forall q :: IsPath(q) ==> Lookup(p'.mem, t', q) == Lookup(p.mem, tables, q)
  {
    hide Present, TableEntry, Aligned, Fits52, Linked, Lookup, Tree, Grows, Zeroed;
    ReadyIsUsable(p, root, tables);
    LinkFreshPool(p, root, tables, at, i);
    LinkFreshHanded(p, root, tables, at, i);
    LinkFreshGrows(p, root, tables, at, i);
    FreshIsNoTable(p, root, tables);
    LinkStep(p.mem, root, tables, at, i, p.addrs[p.next]);
  }

  lemma LeafEffect(p: Pool, root: PhysAddr, tables: Tables, path: seq<nat>, w: Word)
    requires Ready(p, root, tables) && IsPath(path) && path[..3] in tables && Present(w)
    ensures var p' := p.(mem := Write(p.mem, tables[path[..3]], path[3], w));
      && Ready(p', root, tables)
      && Grows(p, tables, p', tables)
      && forall q :: IsPath(q) ==>
           Lookup(p'.mem, tables, q) == if q == path then Some(w) else Lookup(p.mem, tables, q)
  {
    hide Present, TableEntry, Aligned, Fits52, Linked, Lookup, Tree;
    LeafStep(p.mem, root, tables, path, w);
    assert p.IsHanded(tables[path[..3]]);
    var p' := p.(mem := Write(p.mem, tables[path[..3]], path[3], w));
    HandedGrows(p, p');
  }

  // ----- mapping a page, as a function on the tree ----------------------------

  datatype Mapped = Mapped(pool: Pool, tables: Tables, ok: bool)

  ghost predicate Usable(p: Pool, tables: Tables) {
    && Framed(p.mem)
    && (forall q :: q in tables ==> tables[q] in p.mem)
    && (forall k :: 0 <= k < |p.addrs| ==> p.addrs[k] in p.mem)
  }

  lemma ReadyIsUsable(p: Pool, root: PhysAddr, tables: Tables)
    requires Ready(p, root, tables)
    ensures Usable(p, tables)
    ensures forall q :: q in tables ==> |p.mem[tables[q]]| == 512
  {}

  /** Create the missing tables on the way down from depth d, then write the leaf.
      The pool may run dry on the way; the tables linked so far stay. */
  ghost function MapFrom(p: Pool, tables: Tables, path: seq<nat>, d: nat, leaf: Word): Mapped
    requires IsPath(path) && d <= 3 && path[..d] in tables && Usable(p, tables)
    decreases 3 - d
  {
    var at := path[..d];
    if d == 3 then
      Mapped(p.(mem := Write(p.mem, tables[at], path[3], leaf)), tables, true)
    else
      assert path[..d + 1] == Child(at, path[d]);
      if path[..d + 1] in tables then
        MapFrom(p, tables, path, d + 1, leaf)
      else if p.next < |p.addrs| then
        var (p', tables') := LinkFresh(p, tables, at, path[d]);
        MapFrom(p', tables', path, d + 1, leaf)
      else
        Mapped(p.(next := p.next + 1), tables, false)
  }

  /** How many tables are missing below depth d. */
  function Missing(tables: Tables, path: seq<nat>, d: nat): (n: nat)
    requires |path| == 4 && d <= 3
    decreases 3 - d
  {
    if d == 3 then 0
    else (if path[..d + 1] in tables then 0 else 1) + Missing(tables, path, d + 1)
  }

  /** One path changes on success, none on failure. */
  ghost predicate Shows(p: Pool, tables: Tables, path: seq<nat>, leaf: Word, m: Mapped)
    requires Usable(p, tables) && Usable(m.pool, m.tables)
  {
    forall q :: IsPath(q) ==>
      Lookup(m.pool.mem, m.tables, q)
      == if m.ok && q == path then Some(leaf) else Lookup(p.mem, tables, q)
  }

  /** A mapping attempt on a ready tree: what it keeps, what it shows. */
  ghost predicate MapOutcome(p: Pool, root: PhysAddr, tables: Tables, path: seq<nat>, leaf: Word, m: Mapped)
    requires Usable(p, tables)
  {
    && Ready(m.pool, root, m.tables)
    && Grows(p, tables, m.pool, m.tables)
    && Usable(m.pool, m.tables)
    && Shows(p, tables, path, leaf, m)
  }

  lemma {:induction false} MapFromCorrect(p: Pool, root: PhysAddr, tables: Tables, path: seq<nat>, d: nat, leaf: Word)
    requires Ready(p, root, tables)
    requires IsPath(path) && d <= 3 && path[..d] in tables && Present(leaf)
    ensures Usable(p, tables)
    ensures MapOutcome(p, root, tables, path, leaf, MapFrom(p, tables, path, d, leaf))
    decreases 3 - d
  {
    hide Present, TableEntry, Aligned, Fits52, Linked, Lookup, Grows, Ready, Usable, Write;
    ReadyIsUsable(p, root, tables);
    var at := path[..d];
    if d == 3 {
      LeafEffect(p, root, tables, path, leaf);
      ReadyIsUsable(p.(mem := Write(p.mem, tables[at], path[3], leaf)), root, tables);
    } else {
      assert path[..d + 1] == Child(at, path[d]);
      if path[..d + 1] in tables {
        MapFromCorrect(p, root, tables, path, d + 1, leaf);
      } else if p.next < |p.addrs| {
        LinkFreshEffect(p, root, tables, at, path[d]);
        var (p', t') := LinkFresh(p, tables, at, path[d]);
        MapFromCorrect(p', root, t', path, d + 1, leaf);
        var m := MapFrom(p', t', path, d + 1, leaf);
        GrowsTransitive(p, tables, p', t', m.pool, m.tables);
      } else {
        DryAlloc(p, root, tables);
        ReadyIsUsable(p.(next := p.next + 1), root, tables);
      }
    }
  }

  lemma DryAlloc(p: Pool, root: PhysAddr, tables: Tables)
    requires Ready(p, root, tables) && p.next >= |p.addrs|
    ensures Ready(p.(next := p.next + 1), root, tables)
    ensures Grows(p, tables, p.(next := p.next + 1), tables)
  {
    hide Present, TableEntry, Aligned, Fits52, Linked, Tree;
    HandedGrows(p, p.(next := p.next + 1));
  }

  // ----- when a mapping succeeds, and which tables it leaves -------------------

  lemma {:induction false} MissingIgnoresShallow(tables: Tables, path: seq<nat>, d: nat, c: Prefix, pa: PhysAddr)
    requires |path| == 4 && d <= 3 && |c| <= d
    ensures Missing(tables[c := pa], path, d) == Missing(tables, path, d)
    decreases 3 - d
  {
    if d < 3 {
      assert |path[..d + 1]| == d + 1;
      MissingIgnoresShallow(tables, path, d + 1, c, pa);
    }
  }

  /** The prefixes of a path that name tables strictly below depth d. */
  function Below(path: seq<nat>, d: nat): set<Prefix>
    requires |path| == 4 && d <= 3
    decreases 3 - d
  {
    if d == 3 then {} else {path[..d + 1]} + Below(path, d + 1)
  }

  /** What a mapping from depth d costs and adds. */
  ghost predicate Budgeted(p: Pool, tables: Tables, path: seq<nat>, d: nat, m: Mapped)
    requires |path| == 4 && d <= 3
  {
    && (m.ok <==> Missing(tables, path, d) <= |p.addrs| - p.Handed())
    && (m.ok ==> m.tables.Keys == tables.Keys + Below(path, d))
    && (m.ok ==> m.pool.next == p.next + Missing(tables, path, d))
    && (!m.ok ==> m.pool.Handed() == |p.addrs| && tables.Keys <= m.tables.Keys <= tables.Keys + Below(path, d))
  }

  /** One fresh table more. */
  lemma BudgetAddsOne(p: Pool, q: Pool, tables: Tables, path: seq<nat>, d: nat, pa: PhysAddr, m: Mapped)
    requires |path| == 4 && d < 3 && path[..d + 1] !in tables
    requires p.next < |p.addrs| && q.next == p.next + 1 && |q.addrs| == |p.addrs|
    requires Budgeted(q, tables[path[..d + 1] := pa], path, d + 1, m)
    ensures Budgeted(p, tables, path, d, m)
  {
    var c := path[..d + 1];
    var rest := Below(path, d + 1);
    assert Below(path, d) == {c} + rest;
    MissingIgnoresShallow(tables, path, d + 1, c, pa);
    hide Below;
    var t := tables[c := pa];
    assert t.Keys + rest == tables.Keys + ({c} + rest);
    assert tables.Keys <= t.Keys;
  }

  lemma BudgetSkipsOne(p: Pool, tables: Tables, path: seq<nat>, d: nat, m: Mapped)
    requires |path| == 4 && d < 3 && path[..d + 1] in tables
    requires Budgeted(p, tables, path, d + 1, m)
    ensures Budgeted(p, tables, path, d, m)
  {
    var c := path[..d + 1];
    var rest := Below(path, d + 1);
    assert Below(path, d) == {c} + rest;
    assert tables.Keys + ({c} + rest) == tables.Keys + rest;
  }

  /** A mapping succeeds exactly when the pool still covers the missing tables. On
      success the path's tables are all present and nothing else was added; on failure
      the pool is used up and only tables of this path were added. */
  lemma {:induction false} MapFromBudget(p: Pool, root: PhysAddr, tables: Tables, path: seq<nat>, d: nat, leaf: Word)
    requires Ready(p, root, tables)
    requires IsPath(path) && d <= 3 && path[..d] in tables && Present(leaf)
    ensures Usable(p, tables)
    ensures Budgeted(p, tables, path, d, MapFrom(p, tables, path, d, leaf))
    decreases 3 - d
  {
    hide Present, TableEntry, Aligned, Fits52, Linked, Lookup, Grows, Ready, Usable, Write;
    ReadyIsUsable(p, root, tables);
    var at := path[..d];
    if d < 3 {
      var c := path[..d + 1];
      assert c == Child(at, path[d]);
      if c in tables {
        hide Budgeted;
        MapFromBudget(p, root, tables, path, d + 1, leaf);
        BudgetSkipsOne(p, tables, path, d, MapFrom(p, tables, path, d + 1, leaf));
      } else if p.next < |p.addrs| {
        hide Budgeted;
        LinkFreshEffect(p, root, tables, at, path[d]);
        var (p', t') := LinkFresh(p, tables, at, path[d]);
        MapFromBudget(p', root, t', path, d + 1, leaf);
        BudgetAddsOne(p, p', tables, path, d, p.addrs[p.next], MapFrom(p', t', path, d + 1, leaf));
      }
    }
  }

  // ----- translation on raw memory ---------------------------------------------

  function Read(mem: Memory, pa: PhysAddr, i: nat): Word {
    if pa in mem && i < |mem[pa]| then mem[pa][i] else 0
  }

  /** Follow raw entries from a table, one index at a time, to the leaf word. */
  function WalkRaw(mem: Memory, table: PhysAddr, path: seq<nat>): Option<Word>
    requires |path| > 0
    decreases |path|
  {
    var e := Read(mem, table, path[0]);
    if !Present(e) then None
    else if |path| == 1 then Some(e)
    else WalkRaw(mem, AddrOf(e), path[1..])
  }

  lemma {:induction false} WalkRawFrom(mem: Memory, root: PhysAddr, tables: Tables, path: seq<nat>, d: nat)
    requires Tree(mem, root, tables) && IsPath(path) && d <= 3 && path[..d] in tables
    ensures WalkRaw(mem, tables[path[..d]], path[d..]) == Lookup(mem, tables, path)
    decreases 3 - d
  {
    hide Present, TableEntry, Fits52, AddrOf;
    var at := path[..d];
    assert path[d..][0] == path[d];
    if d < 3 {
      var c := path[..d + 1];
      assert c == Child(at, path[d]);
      assert Linked(mem, tables, at, path[d]);
      if c in tables {
        hide Aligned;
        TableEntryRoundTrip(tables[c]);
        assert path[d..][1..] == path[d + 1..];
        WalkRawFrom(mem, root, tables, path, d + 1);
      } else {
        NoDeepTable(mem, root, tables, path, d + 1);
      }
    }
  }

  /** Below a missing table there are no tables. */
  lemma {:induction false} NoDeepTable(mem: Memory, root: PhysAddr, tables: Tables, path: seq<nat>, d: nat)
    requires Tree(mem, root, tables) && IsPath(path) && 1 <= d <= 3 && path[..d] !in tables
    ensures path[..3] !in tables
    decreases 3 - d
  {
    hide Linked, Aligned, Fits52;
    if d < 3 {
      assert Parent(path[..d + 1]) == path[..d];
      NoDeepTable(mem, root, tables, path, d + 1);
    }
  }

  /** The memory walk finds exactly what the tree stores. */
  lemma WalkRawIsLookup(mem: Memory, root: PhysAddr, tables: Tables, path: seq<nat>)
    requires Tree(mem, root, tables) && IsPath(path)
    ensures WalkRaw(mem, root, path) == Lookup(mem, tables, path)
  {
    hide Linked, Aligned, Fits52, Lookup, WalkRaw;
    assert path[..0] == [] && path[0..] == path;
    WalkRawFrom(mem, root, tables, path, 0);
  }
}
