/** The in-place page-table walker: a frame allocator over a fixed pool and the EPT
    root whose tables live in it. */
module EptWalker {
  import opened Wrappers
  import opened EptEntries
  import opened EptTree

  /** The kernel's bump allocator. addrs lists the pool's pages in address order and
      next is the allocation counter, which also advances on a failed call. */
  class KernelFrames {
    const addrs: seq<PhysAddr>
    var next: nat
    var mem: Memory

    ghost function State(): Pool
      reads this
    {
      Pool(addrs, next, mem)
    }

    /** A boot-time pool: distinct aligned pages, all zero. */
    constructor (addrs: seq<PhysAddr>, mem: Memory)
      requires PoolValid(Pool(addrs, 0, mem))
      ensures State() == Pool(addrs, 0, mem)
    {
      this.addrs := addrs;
      this.next := 0;
      this.mem := mem;
    }

    method AllocZeroed() returns (r: Result<PhysAddr, HyperError>)
      requires PoolValid(State())
      modifies this
      ensures State() == old(State()).(next := old(next) + 1)
      ensures PoolValid(State())
      ensures if old(next) < |addrs| then r == Ok(addrs[old(next)]) else r == Err(Exhausted)
      ensures r.Ok? ==> r.value in mem && Zeroed(mem[r.value]) && Aligned(r.value)
    {
      var off := next;
      next := next + 1;
      if off >= |addrs| {
        return Err(Exhausted);
      }
      r := Ok(addrs[off]);
    }

    /** The walker may only touch frames that exist. */
    method ReadEntry(pa: PhysAddr, idx: nat) returns (w: Word)
      requires pa in mem && idx < |mem[pa]|
      ensures w == mem[pa][idx]
    {
      w := mem[pa][idx];
    }

    method WriteEntry(pa: PhysAddr, idx: nat, w: Word)
      requires pa in mem && idx < |mem[pa]|
      modifies `mem
      ensures mem == Write(old(mem), pa, idx, w)
    {
      mem := mem[pa := mem[pa][idx := w]];
    }
  }

  /** Table indices with the leaf table's first, as the walk's level numbers want them. */
  function EptIndices(gpa: PhysAddr): (idx: seq<nat>)
    ensures |idx| == 4
    ensures forall level :: 0 <= level < 4 ==> idx[level] == PathOf(gpa)[3 - level]
  {
    var p := PathOf(gpa);
    [p[3], p[2], p[1], p[0]]
  }

  class Ept {
    const pml4: PhysAddr
    ghost var tables: Tables

    ghost predicate Valid(p: KernelFrames)
      reads this, p
    {
      Ready(p.State(), pml4, tables)
    }

    constructor Rooted(pml4: PhysAddr)
      ensures this.pml4 == pml4 && tables == map[[] := pml4]
    {
      this.pml4 := pml4;
      this.tables := map[[] := pml4];
    }

    /** Allocate an empty root table. */
    static method New(p: KernelFrames) returns (r: Result<Ept, HyperError>)
      requires PoolValid(p.State())
      modifies p
      ensures p.State() == old(p.State()).(next := old(p.next) + 1)
      ensures r.Ok? <==> old(p.next) < |p.addrs|
      ensures r.Ok? ==> fresh(r.value) && r.value.Valid(p) && r.value.tables == map[[] := p.addrs[old(p.next)]]
      ensures r.Ok? ==> forall path :: IsPath(path) ==> Lookup(p.mem, r.value.tables, path) == None
    {
      var a := p.AllocZeroed();
      if a.Err? {
        return Err(a.error);
      }
      var ept := new Ept.Rooted(a.value);
      EmptyRoot(p.State(), a.value);
      r := Ok(ept);
    }

    /** Map one 4 KiB guest page, creating missing tables on the way down. */
    method Map4K(p: KernelFrames, gpa: PhysAddr, hpa: PhysAddr, flags: Flags)
      returns (r: Result<(), HyperError>)
      requires Valid(p)
      modifies p, `tables
      ensures Valid(p)
      ensures !CanMap(gpa, hpa, flags) ==>
        r == Err(Hardware) && p.State() == old(p.State()) && tables == old(tables)
      ensures CanMap(gpa, hpa, flags) ==>
        var m := old(MapPage(p.State(), pml4, tables, gpa, hpa, flags));
        p.State() == m.pool && tables == m.tables && r == if m.ok then Ok(()) else Err(Exhausted)
    {
      hide Fits52, Declared, Aligned, GrantsAccess, Present, AddrOf, Ready, Walking, PathOf, TableEntry, LeafEntry, Write, MapPage, Usable, PoolValid, Zeroed;
      if !Aligned(gpa) || !Aligned(hpa) {
        return Err(Hardware);
      }
      if !GrantsAccess(flags) {
        return Err(Hardware);
      }
      var idx := EptIndices(gpa);
      ghost var path := PathOf(gpa);
      ghost var leaf := LeafEntry(hpa, flags);
      ghost var want := MapPage(p.State(), pml4, tables, gpa, hpa, flags);
      StartWalk(p.State(), pml4, tables, gpa, hpa, flags);
      var table := pml4;
      var level := 3;
      while level >= 1
        invariant 0 <= level <= 3
        invariant Walking(p.State(), pml4, tables, path, 3 - level, leaf, want)
        invariant path[..3 - level] in tables && table == tables[path[..3 - level]]
      {
        ghost var d := 3 - level;
        var i := idx[level];
        EntryTells(p.State(), pml4, tables, path, d, leaf, want);
        var entry := p.ReadEntry(table, i);
        if Present(entry) {
          WalkLinked(p.State(), pml4, tables, path, d, leaf, want);
          table := AddrOf(entry);
        } else {
          ghost var before := p.State();
          var a := p.AllocZeroed();
          if a.Err? {
            WalkDry(before, pml4, tables, path, d, leaf, want);
            return Err(a.error);
          }
          p.WriteEntry(table, i, TableEntry(a.value));
          WalkFresh(before, pml4, tables, path, d, leaf, want);
          tables := tables[Child(path[..d], i) := a.value];
          table := a.value;
        }
        level := level - 1;
      }
      WalkLeaf(p.State(), pml4, tables, path, leaf, want);
      p.WriteEntry(table, idx[0], LeafEntry(hpa, flags));
      r := Ok(());
    }

    /** Translate a guest address; fails exactly where the tree stores no leaf. */
    method Translate(p: KernelFrames, gpa: PhysAddr) returns (r: Result<PhysAddr, HyperError>)
      requires Valid(p)
      ensures r == TranslateRaw(p.mem, pml4, gpa)
    {
      var idx := EptIndices(gpa);
      ghost var path := PathOf(gpa);
      PathInRange(gpa);
      assert path[0..] == path && path[..0] == [];
      assert Descended(p.State(), pml4, tables, path, 0, pml4);
      hide Fits52, Aligned, Present, AddrOf, PathOf, Ready, AtOffset, WalkRaw, Descended, TableEntry;
      var table := pml4;
      var level := 3;
      while level >= 1
        invariant 0 <= level <= 3
        invariant Descended(p.State(), pml4, tables, path, 3 - level, table)
        invariant WalkRaw(p.mem, pml4, path) == WalkRaw(p.mem, table, path[3 - level..])
      {
        Descend(p.State(), pml4, tables, path, 3 - level, table);
        var entry := p.ReadEntry(table, idx[level]);
        if !Present(entry) {
          return Err(Hardware);
        }
        table := AddrOf(entry);
        level := level - 1;
      }
      Descend(p.State(), pml4, tables, path, 3, table);
      var leaf := p.ReadEntry(table, idx[0]);
      if !Present(leaf) {
        return Err(Hardware);
      }
      r := Ok(AtOffset(AddrOf(leaf), gpa));
    }
  }

  // ----- translation ---------------------------------------------------------------

  /** The hardware's view: what a guest address means, reading raw memory only. */
  function TranslateRaw(mem: Memory, root: PhysAddr, gpa: PhysAddr): Result<PhysAddr, HyperError> {
    match WalkRaw(mem, root, PathOf(gpa))
    case None => Err(Hardware)
    case Some(e) => Ok(AtOffset(AddrOf(e), gpa))
  }

  // ----- the walk's invariant ----------------------------------------------------

  /** Depth d has been reached and finishing from here gives the wanted outcome. */
  ghost predicate Walking(p: Pool, root: PhysAddr, tables: Tables, path: seq<nat>, d: nat, leaf: Word, want: Mapped) {
    && Ready(p, root, tables) && Usable(p, tables)
    && IsPath(path) && d <= 3 && path[..d] in tables && Present(leaf)
    && want == MapFrom(p, tables, path, d, leaf)
  }

  lemma StartWalk(p: Pool, root: PhysAddr, tables: Tables, gpa: PhysAddr, hpa: PhysAddr, flags: Flags)
    requires Ready(p, root, tables) && CanMap(gpa, hpa, flags)
    ensures Walking(p, root, tables, PathOf(gpa), 0, LeafEntry(hpa, flags), MapPage(p, root, tables, gpa, hpa, flags))
    ensures PathOf(gpa)[..0] == [] && [] in tables && tables[[]] == root
  {
    hide Fits52, PathOf, LeafEntry, Present, AddrOf, Aligned, TableEntry, Linked;
    LeafEntryRoundTrip(hpa, flags);
    PathInRange(gpa);
    ReadyIsUsable(p, root, tables);
    assert PathOf(gpa)[..0] == [];
  }

  lemma WalkLinked(p: Pool, root: PhysAddr, tables: Tables, path: seq<nat>, d: nat, leaf: Word, want: Mapped)
    requires Walking(p, root, tables, path, d, leaf, want) && d < 3 && path[..d + 1] in tables
    ensures Walking(p, root, tables, path, d + 1, leaf, want)
  {
    hide Ready, Usable, Present;
  }

  lemma WalkFresh(p: Pool, root: PhysAddr, tables: Tables, path: seq<nat>, d: nat, leaf: Word, want: Mapped)
    requires Walking(p, root, tables, path, d, leaf, want) && d < 3 && path[..d + 1] !in tables
    requires p.next < |p.addrs|
    ensures tables[path[..d]] in p.mem && path[d] < |p.mem[tables[path[..d]]]|
    ensures var (p', t') := LinkFresh(p, tables, path[..d], path[d]);
            Walking(p', root, t', path, d + 1, leaf, want)
    ensures path[..d + 1] == Child(path[..d], path[d])
  {
    hide Ready, Usable, Present, TableEntry, Grows, Write;
    ReadyIsUsable(p, root, tables);
    assert path[..d + 1] == Child(path[..d], path[d]);
    LinkFreshEffect(p, root, tables, path[..d], path[d]);
    var (p', t') := LinkFresh(p, tables, path[..d], path[d]);
    ReadyIsUsable(p', root, t');
  }

  lemma WalkDry(p: Pool, root: PhysAddr, tables: Tables, path: seq<nat>, d: nat, leaf: Word, want: Mapped)
    requires Walking(p, root, tables, path, d, leaf, want) && d < 3 && path[..d + 1] !in tables
    requires p.next >= |p.addrs|
    ensures want == Mapped(p.(next := p.next + 1), tables, false) && Ready(want.pool, root, tables)
  {
    hide Present, TableEntry, Grows, Write, Aligned, Linked;
    DryAlloc(p, root, tables);
  }

  lemma WalkLeaf(p: Pool, root: PhysAddr, tables: Tables, path: seq<nat>, leaf: Word, want: Mapped)
    requires Walking(p, root, tables, path, 3, leaf, want)
    ensures var t := tables[path[..3]];
      && t in p.mem && path[3] < |p.mem[t]|
      && want == Mapped(p.(mem := Write(p.mem, t, path[3], leaf)), tables, true)
      && Ready(want.pool, root, tables)
  {
    hide Ready, Present, TableEntry, Grows, Write;
    ReadyIsUsable(p, root, tables);
    LeafEffect(p, root, tables, path, leaf);
  }

  /** The walk of a path has reached depth d, at this table. */
  ghost predicate Descended(p: Pool, root: PhysAddr, tables: Tables, path: seq<nat>, d: nat, table: PhysAddr) {
    && Ready(p, root, tables)
    && IsPath(path) && d <= 3 && path[..d] in tables && table == tables[path[..d]]
  }

  /** The entry read at depth d decides where the walk goes next. */
  lemma Descend(p: Pool, root: PhysAddr, tables: Tables, path: seq<nat>, d: nat, table: PhysAddr)
    requires Descended(p, root, tables, path, d, table)
    ensures |path| == 4 && table in p.mem && path[d] < |p.mem[table]|
    ensures var e := p.mem[table][path[d]];
      && WalkRaw(p.mem, table, path[d..])
         == (if !Present(e) then None else if d == 3 then Some(e) else WalkRaw(p.mem, AddrOf(e), path[d + 1..]))
      && (Present(e) && d < 3 ==> Descended(p, root, tables, path, d + 1, AddrOf(e)))
  {
    hide Present, AddrOf, Fits52, Aligned, TableEntry;
    assert path[d..][0] == path[d] && path[d..][1..] == path[d + 1..];
    ReadyIsUsable(p, root, tables);
    if d < 3 {
      StepTells(p, root, tables, path, d);
    }
  }

  predicate CanMap(gpa: PhysAddr, hpa: PhysAddr, flags: Flags) {
    Aligned(gpa) && Aligned(hpa) && GrantsAccess(flags)
  }

  ghost function MapPage(p: Pool, root: PhysAddr, tables: Tables, gpa: PhysAddr, hpa: PhysAddr, flags: Flags): Mapped
    requires Ready(p, root, tables) && CanMap(gpa, hpa, flags)
  {
    ReadyIsUsable(p, root, tables);
    PathInRange(gpa);
    assert PathOf(gpa)[..0] == [];
    MapFrom(p, tables, PathOf(gpa), 0, LeafEntry(hpa, flags))
  }

  /** A fresh zeroed frame is an empty tree. */
  lemma EmptyRoot(p: Pool, root: PhysAddr)
    requires PoolValid(p) && p.IsHanded(root) && root in p.mem && Zeroed(p.mem[root]) && Aligned(root)
    ensures Ready(p, root, map[[] := root])
    ensures forall path :: IsPath(path) ==> Lookup(p.mem, map[[] := root], path) == None
  {
    hide Present, Aligned, Fits52, TableEntry;
    ZeroAbsent();
    var t: Tables := map[[] := root];
    forall q, i | q in t && |q| < 3 && 0 <= i < 512
      ensures Linked(p.mem, t, q, i)
    {
      assert Child(q, i) !in t;
    }
  }

  /** Reading the entry at depth d tells whether the next table exists, and where. */
  lemma StepTells(p: Pool, root: PhysAddr, tables: Tables, path: seq<nat>, d: nat)
    requires Ready(p, root, tables) && IsPath(path) && d < 3 && path[..d] in tables
    ensures tables[path[..d]] in p.mem && |p.mem[tables[path[..d]]]| == 512
    ensures path[..d + 1] == Child(path[..d], path[d])
    ensures var e := p.mem[tables[path[..d]]][path[d]];
      if path[..d + 1] in tables then Present(e) && AddrOf(e) == tables[path[..d + 1]] else !Present(e)
  {
    hide Present, TableEntry, Fits52, AddrOf;
    assert Linked(p.mem, tables, path[..d], path[d]);
    if path[..d + 1] in tables {
      TableEntryRoundTrip(tables[path[..d + 1]]);
    }
  }

  lemma EntryTells(p: Pool, root: PhysAddr, tables: Tables, path: seq<nat>, d: nat, leaf: Word, want: Mapped)
    requires Walking(p, root, tables, path, d, leaf, want) && d < 3
    ensures |path| == 4 && path[d] < 512 && path[..d] in tables && PoolValid(p)
    ensures tables[path[..d]] in p.mem && |p.mem[tables[path[..d]]]| == 512
    ensures path[..d + 1] == Child(path[..d], path[d])
    ensures var e := p.mem[tables[path[..d]]][path[d]];
      if path[..d + 1] in tables then Present(e) && AddrOf(e) == tables[path[..d + 1]] else !Present(e)
  {
    hide Present, TableEntry, Fits52, AddrOf, Usable, Tree;
    StepTells(p, root, tables, path, d);
  }
}
