/** Runs of the whole memory manager: any number of guests whose page tables, along with
    all other kernel pages, come from one frame pool. */
module EptMachine {
  import opened Wrappers
  import opened EptEntries
  import opened EptTree
  import opened EptWalker

  datatype Space = Space(root: PhysAddr, tables: Tables)

  /** others are the pool frames taken for guest memory and VMX regions. */
  datatype Machine = Machine(pool: Pool, spaces: seq<Space>, others: set<PhysAddr>)

  datatype Op =
    | NewSpace
    | MapOne(space: nat, gpa: PhysAddr, hpa: PhysAddr, flags: Flags)
    | TakeFrame
    | Scribble(pa: PhysAddr, idx: nat, word: Word)

  /** What a guest's address space means: from pages (bits 47:12) to leaf words. */
  type View = map<Address, Word>

  ghost predicate Apart(m: Machine, s: nat, t: nat)
    requires s < |m.spaces| && t < |m.spaces|
  {
    forall p, q :: p in m.spaces[s].tables && q in m.spaces[t].tables
      ==> m.spaces[s].tables[p] != m.spaces[t].tables[q]
  }

  function TableCount(spaces: seq<Space>): nat {
    if spaces == [] then 0 else TableCount(spaces[..|spaces| - 1]) + |spaces[|spaces| - 1].tables|
  }

  ghost predicate SpaceOk(m: Machine, s: nat)
    requires s < |m.spaces|
  {
    && Ready(m.pool, m.spaces[s].root, m.spaces[s].tables)
    && (forall p :: p in m.spaces[s].tables ==> m.spaces[s].tables[p] !in m.others)
  }

  ghost predicate AllApart(m: Machine) {
    forall s, t :: 0 <= s < t < |m.spaces| ==> Apart(m, s, t)
  }

  ghost predicate OthersOk(m: Machine) {
    forall pa :: pa in m.others ==> pa in m.pool.mem && m.pool.IsHanded(pa)
  }

  /** Every frame handed out is accounted for, once. */
  ghost predicate Accounted(m: Machine) {
    TableCount(m.spaces) + |m.others| == m.pool.Handed()
  }

  ghost predicate MachineOk(m: Machine) {
    && PoolValid(m.pool)
    && (forall s :: 0 <= s < |m.spaces| ==> SpaceOk(m, s))
    && AllApart(m) && OthersOk(m) && Accounted(m)
  }

  ghost predicate Enabled(m: Machine, op: Op) {
    op.MapOne? ==> op.space < |m.spaces| && CanMap(op.gpa, op.hpa, op.flags)
  }

  ghost function Attempt(m: Machine, op: Op): Mapped
    requires MachineOk(m) && op.MapOne? && Enabled(m, op)
  {
    assert SpaceOk(m, op.space);
    MapPage(m.pool, m.spaces[op.space].root, m.spaces[op.space].tables, op.gpa, op.hpa, op.flags)
  }

  /** One call. Calls the code rejects before touching memory are no-ops, as are writes
      to frames that were not taken. */
  ghost function Step(m: Machine, op: Op): Machine
    requires MachineOk(m)
  {
    if !Enabled(m, op) then m else
    match op
    case NewSpace =>
      var (pool', a) := Alloc(m.pool);
      if a.None? then m.(pool := pool')
      else Machine(pool', m.spaces + [Space(a.value, map[[] := a.value])], m.others)
    case TakeFrame =>
      var (pool', a) := Alloc(m.pool);
      if a.None? then m.(pool := pool') else m.(pool := pool', others := m.others + {a.value})
    case Scribble(pa, idx, word) =>
      if pa in m.others && idx < |m.pool.mem[pa]|
      then m.(pool := m.pool.(mem := Write(m.pool.mem, pa, idx, word)))
      else m
    case MapOne(s, _, _, _) =>
      After(m, s, Attempt(m, op))
  }

  function After(m: Machine, s: nat, out: Mapped): Machine
    requires s < |m.spaces|
  {
    Machine(out.pool, m.spaces[s := Space(m.spaces[s].root, out.tables)], m.others)
  }

  // ----- the specification: finite maps ---------------------------------------------

  /** The number of tables a mapping would have to create. */
  ghost function Needed(m: Machine, op: Op): nat
    requires op.MapOne? && op.space < |m.spaces|
  {
    Missing(m.spaces[op.space].tables, PathOf(op.gpa), 0)
  }

  /** A mapping succeeds when its arguments are acceptable and the pool can supply the
      tables it needs. */
  ghost predicate Succeeds(m: Machine, op: Op)
    requires op.MapOne?
  {
    Enabled(m, op) && Needed(m, op) <= |m.pool.addrs| - m.pool.Handed()
  }

  ghost function ViewStep(m: Machine, views: seq<View>, op: Op): seq<View>
    requires |views| == |m.spaces|
  {
    match op
    case NewSpace => if m.pool.next < |m.pool.addrs| then views + [map[]] else views
    case MapOne(s, gpa, hpa, flags) =>
      if Succeeds(m, op) then views[s := views[s][PageOf(gpa) := LeafEntry(hpa, flags)]] else views
    case TakeFrame => views
    case Scribble(_, _, _) => views
  }

  ghost predicate Represents(m: Machine, s: nat, view: View)
    requires s < |m.spaces|
    requires SpaceOk(m, s)
  {
    forall gpa: PhysAddr :: IsPath(PathOf(gpa)) ==>
      Lookup(m.pool.mem, m.spaces[s].tables, PathOf(gpa))
      == if PageOf(gpa) in view then Some(view[PageOf(gpa)]) else None
  }

  ghost predicate Refines(m: Machine, views: seq<View>) {
    && MachineOk(m)
    && |views| == |m.spaces|
    && forall s :: 0 <= s < |m.spaces| ==> Represents(m, s, views[s])
  }

  // ----- frame lemmas ------------------------------------------------------------------

  /** A space none of whose frames changed still shows the same view. */
  lemma SpaceUntouched(m: Machine, m': Machine, s: nat)
    requires s < |m.spaces| && s < |m'.spaces| && m'.spaces[s] == m.spaces[s]
    requires SpaceOk(m, s) && PoolValid(m'.pool)
    requires m'.pool.addrs == m.pool.addrs && m'.pool.next >= m.pool.next
    requires forall p :: p in m.spaces[s].tables ==>
      m.spaces[s].tables[p] in m'.pool.mem && m'.pool.mem[m.spaces[s].tables[p]] == m.pool.mem[m.spaces[s].tables[p]]
    requires forall p :: p in m.spaces[s].tables ==> m.spaces[s].tables[p] !in m'.others
    ensures SpaceOk(m', s)
    ensures forall view :: Represents(m, s, view) ==> Represents(m', s, view)
  {
    hide Fits52, Aligned, PathOf, PageOf, Tree, Lookup, Zeroed;
    HandedGrows(m.pool, m'.pool);
    ForeignWrite(m.pool.mem, m'.pool.mem, m.spaces[s].root, m.spaces[s].tables);
  }

  lemma TableCountAppend(spaces: seq<Space>, sp: Space)
    ensures TableCount(spaces + [sp]) == TableCount(spaces) + |sp.tables|
  {
    assert (spaces + [sp])[..|spaces|] == spaces;
  }

  lemma {:induction false} TableCountUpdate(spaces: seq<Space>, s: nat, sp: Space)
    requires s < |spaces|
    ensures TableCount(spaces[s := sp]) == TableCount(spaces) - |spaces[s].tables| + |sp.tables|
  {
    var k := |spaces| - 1;
    if s == k {
      assert spaces[s := sp][..k] == spaces[..k];
    } else {
      assert spaces[s := sp][..k] == spaces[..k][s := sp];
      TableCountUpdate(spaces[..k], s, sp);
    }
  }

  // ----- one step keeps the invariant and refines the specification ---------------------

  /** The pool after a call that changed no frame of space s. */
  ghost predicate Spares(m: Machine, m': Machine, s: nat)
    requires s < |m.spaces|
  {
    forall p :: p in m.spaces[s].tables ==>
      && m.spaces[s].tables[p] in m.pool.mem && m.spaces[s].tables[p] in m'.pool.mem
      && m'.pool.mem[m.spaces[s].tables[p]] == m.pool.mem[m.spaces[s].tables[p]]
      && m.spaces[s].tables[p] !in m'.others
  }

  /** A call that spares every existing space and adds none. */
  lemma StepSparingAll(m: Machine, m': Machine, views: seq<View>)
    requires Refines(m, views)
    requires m'.spaces == m.spaces && m'.pool.addrs == m.pool.addrs && m'.pool.next >= m.pool.next
    requires PoolValid(m'.pool) && OthersOk(m') && |m'.others| - |m.others| == m'.pool.Handed() - m.pool.Handed()
    requires forall s :: 0 <= s < |m.spaces| ==> Spares(m, m', s)
    ensures Refines(m', views)
  {
    hide Fits52, Aligned, PathOf, PageOf, Tree, Lookup, Zeroed, Represents, OthersOk, PoolValid, Ready;
    forall s | 0 <= s < |m'.spaces|
      ensures SpaceOk(m', s) && Represents(m', s, views[s])
    {
      assert SpaceOk(m, s) && Spares(m, m', s);
      SpaceUntouched(m, m', s);
    }
    forall s, t | 0 <= s < t < |m'.spaces|
      ensures Apart(m', s, t)
    {
      assert Apart(m, s, t);
    }
  }

  lemma SpareFacts(m: Machine, s: nat)
    requires MachineOk(m) && s < |m.spaces|
    ensures Ready(m.pool, m.spaces[s].root, m.spaces[s].tables)
    ensures Usable(m.pool, m.spaces[s].tables)
    ensures forall p :: p in m.spaces[s].tables ==> m.pool.IsHanded(m.spaces[s].tables[p])
    ensures forall p :: p in m.spaces[s].tables ==> m.spaces[s].tables[p] !in m.others
  {
    assert SpaceOk(m, s);
    ReadyIsUsable(m.pool, m.spaces[s].root, m.spaces[s].tables);
  }

  /** A failed allocation changes only the counter. */
  lemma StepDry(m: Machine, views: seq<View>)
    requires Refines(m, views) && m.pool.next >= |m.pool.addrs|
    ensures Refines(m.(pool := m.pool.(next := m.pool.next + 1)), views)
  {
    hide Fits52, Aligned, PathOf, PageOf, Tree, Lookup, Zeroed, Represents;
    var m' := m.(pool := m.pool.(next := m.pool.next + 1));
    HandedGrows(m.pool, m'.pool);
    forall s | 0 <= s < |m.spaces|
      ensures Spares(m, m', s)
    {
      SpareFacts(m, s);
    }
    StepSparingAll(m, m', views);
  }

  /** The next frame of the pool is in nobody's hands. */
  lemma NextIsNobodys(m: Machine)
    requires MachineOk(m) && m.pool.next < |m.pool.addrs|
    ensures var pa := m.pool.addrs[m.pool.next];
      && pa !in m.others && pa in m.pool.mem && Aligned(pa) && Zeroed(m.pool.mem[pa])
      && (forall s, p :: 0 <= s < |m.spaces| && p in m.spaces[s].tables ==> m.spaces[s].tables[p] != pa)
      && m.pool.(next := m.pool.next + 1).IsHanded(pa)
      && PoolValid(m.pool.(next := m.pool.next + 1))
  {
    hide Fits52, Aligned, Tree, Zeroed;
    var pa := m.pool.addrs[m.pool.next];
    assert !m.pool.IsHanded(pa);
    forall s, p | 0 <= s < |m.spaces| && p in m.spaces[s].tables
      ensures m.spaces[s].tables[p] != pa
    {
      SpareFacts(m, s);
    }
    assert m.pool.(next := m.pool.next + 1).addrs[m.pool.next] == pa;
  }

  lemma TakeFrameSpares(m: Machine)
    requires MachineOk(m) && m.pool.next < |m.pool.addrs|
    ensures forall s :: 0 <= s < |m.spaces| ==> Spares(m, Step(m, TakeFrame), s)
  {
    var m' := Step(m, TakeFrame);
    NextIsNobodys(m);
    hide Fits52, Aligned, PathOf, PageOf, Tree, Lookup, Zeroed, PoolValid, MachineOk;
    forall s | 0 <= s < |m.spaces|
      ensures Spares(m, m', s)
    {
      SpareFacts(m, s);
    }
  }

  lemma StepTakeFrame(m: Machine, views: seq<View>)
    requires Refines(m, views)
    ensures Refines(Step(m, TakeFrame), views)
  {
    if m.pool.next >= |m.pool.addrs| {
      hide MachineOk, Represents;
      StepDry(m, views);
    } else {
      hide Step, Spares, MachineOk, Represents, PoolValid, OthersOk;
      TakenFacts(m);
      TakeFrameSpares(m);
      StepSparingAll(m, Step(m, TakeFrame), views);
    }
  }

  lemma TakenFacts(m: Machine)
    requires MachineOk(m) && m.pool.next < |m.pool.addrs|
    ensures var m' := Step(m, TakeFrame);
      && m'.spaces == m.spaces && m'.pool.addrs == m.pool.addrs && m'.pool.next >= m.pool.next
      && PoolValid(m'.pool) && OthersOk(m') && |m'.others| - |m.others| == m'.pool.Handed() - m.pool.Handed()
  {
    NextIsNobodys(m);
    hide Fits52, Aligned, Zeroed, PoolValid, SpaceOk, AllApart, Accounted;
    HandedGrows(m.pool, Step(m, TakeFrame).pool);
  }

  lemma StepScribble(m: Machine, views: seq<View>, pa: PhysAddr, idx: nat, word: Word)
    requires Refines(m, views)
    ensures Refines(Step(m, Scribble(pa, idx, word)), views)
  {
    var m' := Step(m, Scribble(pa, idx, word));
    if pa in m.others && idx < |m.pool.mem[pa]| {
      WriteKeeps(m.pool.mem, pa, idx, word);
      HandedStaysZeroed(m.pool, pa, idx, word);
      hide Fits52, Aligned, PathOf, PageOf, Tree, Lookup, Zeroed, Represents, PoolValid, Write;
      HandedGrows(m.pool, m'.pool);
      forall s | 0 <= s < |m.spaces|
        ensures Spares(m, m', s)
      {
        SpareFacts(m, s);
      }
      StepSparingAll(m, m', views);
    }
  }

  /** Writing to a frame already handed out leaves the unused part of the pool zero. */
  lemma HandedStaysZeroed(p: Pool, pa: PhysAddr, i: nat, w: Word)
    requires PoolValid(p) && p.IsHanded(pa) && pa in p.mem && i < |p.mem[pa]|
    ensures PoolValid(p.(mem := Write(p.mem, pa, i, w)))
  {
    hide Fits52, Aligned, Zeroed;
    var k0 :| 0 <= k0 < p.Handed() && p.addrs[k0] == pa;
    forall k | p.next <= k < |p.addrs|
      ensures Write(p.mem, pa, i, w)[p.addrs[k]] == p.mem[p.addrs[k]]
    {
      assert p.addrs[k0] != p.addrs[k];
    }
  }

  lemma NewSpaceFacts(m: Machine)
    requires MachineOk(m) && m.pool.next < |m.pool.addrs|
    ensures var m' := Step(m, NewSpace);
      var n := |m.spaces|;
      && |m'.spaces| == n + 1 && SpaceOk(m', n) && Represents(m', n, map[])
      && (forall s :: 0 <= s < n ==> Apart(m', s, n))
  {
    hide Fits52, Aligned, PathOf, PageOf, Tree, Lookup, Zeroed, PoolValid;
    var m' := Step(m, NewSpace);
    NextIsNobodys(m);
    EmptyRoot(m'.pool, m.pool.addrs[m.pool.next]);
  }

  lemma NewSpaceOther(m: Machine, s: nat)
    requires MachineOk(m) && m.pool.next < |m.pool.addrs| && s < |m.spaces|
    ensures var m' := Step(m, NewSpace);
      && s < |m'.spaces| && SpaceOk(m, s) && SpaceOk(m', s)
      && forall view :: Represents(m, s, view) ==> Represents(m', s, view)
  {
    NextIsNobodys(m);
    assert SpaceOk(m, s);
    SpareFacts(m, s);
    hide Fits52, Aligned, PathOf, PageOf, Tree, Lookup, Zeroed, PoolValid, Represents, Ready, MachineOk;
    SpaceUntouched(m, Step(m, NewSpace), s);
  }

  lemma NewSpaceApart(m: Machine)
    requires MachineOk(m) && m.pool.next < |m.pool.addrs|
    ensures AllApart(Step(m, NewSpace))
  {
    NewSpaceFacts(m);
    hide SpaceOk, PoolValid, OthersOk, Accounted;
    var m' := Step(m, NewSpace);
    forall s, t | 0 <= s < t < |m'.spaces|
      ensures Apart(m', s, t)
    {
      if t < |m.spaces| {
        assert Apart(m, s, t);
      }
    }
  }

  lemma NewSpaceAccounts(m: Machine)
    requires MachineOk(m) && m.pool.next < |m.pool.addrs|
    ensures PoolValid(Step(m, NewSpace).pool)
    ensures OthersOk(Step(m, NewSpace)) && Accounted(Step(m, NewSpace))
  {
    NextIsNobodys(m);
    hide SpaceOk, PoolValid, AllApart;
    var m' := Step(m, NewSpace);
    HandedGrows(m.pool, m'.pool);
    TableCountAppend(m.spaces, m'.spaces[|m.spaces|]);
  }

  lemma NewSpaceView(m: Machine, views: seq<View>, t: nat)
    requires Refines(m, views) && m.pool.next < |m.pool.addrs| && t <= |m.spaces|
    ensures var m' := Step(m, NewSpace);
      && |m'.spaces| == |m.spaces| + 1
      && SpaceOk(m', t) && Represents(m', t, (views + [map[]])[t])
  {
    if t == |m.spaces| {
      NewSpaceFacts(m);
    } else {
      NewSpaceOther(m, t);
      assert Represents(m, t, views[t]);
    }
  }

  lemma StepNewSpace(m: Machine, views: seq<View>)
    requires Refines(m, views)
    ensures Refines(Step(m, NewSpace), ViewStep(m, views, NewSpace))
  {
    if m.pool.next >= |m.pool.addrs| {
      hide MachineOk, Represents;
      StepDry(m, views);
    } else {
      hide Step, Represents, SpaceOk, PoolValid, AllApart, OthersOk, Accounted;
      NewSpaceApart(m);
      NewSpaceAccounts(m);
      var m' := Step(m, NewSpace);
      assert ViewStep(m, views, NewSpace) == views + [map[]];
      forall t | 0 <= t <= |m.spaces|
        ensures |m'.spaces| == |m.spaces| + 1 && SpaceOk(m', t) && Represents(m', t, (views + [map[]])[t])
      {
        NewSpaceView(m, views, t);
      }
    }
  }

  // A mapping in space s.

  /** What the walker's contract says about this attempt. */
  lemma AttemptFacts(m: Machine, op: Op)
    requires MachineOk(m) && op.MapOne? && Enabled(m, op)
    ensures var sp := m.spaces[op.space];
      var out := Attempt(m, op);
      && Ready(m.pool, sp.root, sp.tables) && Ready(out.pool, sp.root, out.tables)
      && Grows(m.pool, sp.tables, out.pool, out.tables)
      && (out.ok <==> Succeeds(m, op))
      && Usable(m.pool, sp.tables) && Usable(out.pool, out.tables)
      && Shows(m.pool, sp.tables, PathOf(op.gpa), LeafEntry(op.hpa, op.flags), out)
  {
    var sp := m.spaces[op.space];
    var path, leaf := PathOf(op.gpa), LeafEntry(op.hpa, op.flags);
    SpareFacts(m, op.space);
    PathInRange(op.gpa);
    LeafEntryRoundTrip(op.hpa, op.flags);
    hide Fits52, Aligned, PathOf, Tree, Lookup, Zeroed, PoolValid, Present, LeafEntry, Ready, Usable, Grows, Shows, MapFrom, Missing;
    assert path[..0] == [];
    assert [] in sp.tables by { ReadyHasRoot(m.pool, sp.root, sp.tables); }
    MapFromCorrect(m.pool, sp.root, sp.tables, path, 0, leaf);
    MapFromBudget(m.pool, sp.root, sp.tables, path, 0, leaf);
  }

  lemma ReadyHasRoot(p: Pool, root: PhysAddr, tables: Tables)
    requires Ready(p, root, tables)
    ensures [] in tables
  {}

  lemma OthersHanded(m: Machine)
    requires MachineOk(m)
    ensures forall pa :: pa in m.others ==> m.pool.IsHanded(pa)
  {}

  /** The space that was mapped into stays well formed. */
  lemma OwnSpaceOk(m: Machine, s: nat, out: Mapped)
    requires MachineOk(m) && s < |m.spaces|
    requires Ready(out.pool, m.spaces[s].root, out.tables)
    requires Grows(m.pool, m.spaces[s].tables, out.pool, out.tables)
    ensures SpaceOk(After(m, s, out), s)
  {
    OthersHanded(m);
    SpareFacts(m, s);
    hide Fits52, Aligned, Ready, MachineOk;
    forall p | p in out.tables
      ensures out.tables[p] !in m.others
    {
      assert p in m.spaces[s].tables || !m.pool.IsHanded(out.tables[p]);
    }
  }

  /** Its view gains the mapped page, or nothing. */
  lemma OwnRepresents(m: Machine, s: nat, out: Mapped, at: PhysAddr, leaf: Word, view: View)
    requires s < |m.spaces| && SpaceOk(m, s) && Represents(m, s, view)
    requires SpaceOk(After(m, s, out), s)
    requires Usable(m.pool, m.spaces[s].tables) && Usable(out.pool, out.tables)
    requires Shows(m.pool, m.spaces[s].tables, PathOf(at), leaf, out)
    ensures Represents(After(m, s, out), s, if out.ok then view[PageOf(at) := leaf] else view)
  {
    hide Fits52, Aligned, PathOf, PageOf, Tree, Lookup, PoolValid, Ready, SpaceOk;
    forall gpa: PhysAddr | IsPath(PathOf(gpa))
      ensures Lookup(out.pool.mem, out.tables, PathOf(gpa))
           == if out.ok && PageOf(gpa) == PageOf(at) then Some(leaf)
              else Lookup(m.pool.mem, m.spaces[s].tables, PathOf(gpa))
    {
      PathIsPage(gpa, at);
    }
  }

  /** Isolation, one step: another space keeps its frames and its meaning. */
  lemma OtherSpaceKept(m: Machine, s: nat, out: Mapped, t: nat)
    requires MachineOk(m) && s < |m.spaces| && t < |m.spaces| && t != s
    requires PoolValid(out.pool) && Grows(m.pool, m.spaces[s].tables, out.pool, out.tables)
    ensures var m' := After(m, s, out);
      && SpaceOk(m, t) && SpaceOk(m', t)
      && (forall view :: Represents(m, t, view) ==> Represents(m', t, view))
      && Apart(m', s, t) && Apart(m', t, s)
  {
    assert SpaceOk(m, t);
    assert if t < s then Apart(m, t, s) else Apart(m, s, t);
    SpareFacts(m, t);
    hide Fits52, Aligned, PathOf, PageOf, Tree, Lookup, Zeroed, PoolValid, Represents, MachineOk, SpaceOk, Ready;
    var m' := After(m, s, out);
    forall p | p in m.spaces[t].tables
      ensures m'.pool.mem[m.spaces[t].tables[p]] == m.pool.mem[m.spaces[t].tables[p]]
    {
      assert NoTable(m.spaces[s].tables, m.spaces[t].tables[p]);
    }
    SpaceUntouched(m, m', t);
  }

  lemma MapOneApart(m: Machine, s: nat, out: Mapped)
    requires MachineOk(m) && s < |m.spaces|
    requires PoolValid(out.pool) && Grows(m.pool, m.spaces[s].tables, out.pool, out.tables)
    ensures AllApart(After(m, s, out))
  {
    var m' := After(m, s, out);
    forall t, u | 0 <= t < u < |m.spaces|
      ensures Apart(m', t, u)
    {
      assert Apart(m, t, u);
      if t == s {
        OtherSpaceKept(m, s, out, u);
      } else if u == s {
        OtherSpaceKept(m, s, out, t);
      }
    }
  }

  lemma MapOneAccounts(m: Machine, s: nat, out: Mapped)
    requires MachineOk(m) && s < |m.spaces|
    requires Grows(m.pool, m.spaces[s].tables, out.pool, out.tables)
    ensures OthersOk(After(m, s, out)) && Accounted(After(m, s, out))
  {
    hide Fits52, Aligned, PoolValid, SpaceOk, Apart;
    HandedGrows(m.pool, out.pool);
    TableCountUpdate(m.spaces, s, Space(m.spaces[s].root, out.tables));
  }

  lemma MapOneKeepsOk(m: Machine, s: nat, out: Mapped)
    requires MachineOk(m) && s < |m.spaces|
    requires Ready(out.pool, m.spaces[s].root, out.tables)
    requires Grows(m.pool, m.spaces[s].tables, out.pool, out.tables)
    ensures MachineOk(After(m, s, out))
  {
    var m' := After(m, s, out);
    assert PoolValid(m'.pool);
    OwnSpaceOk(m, s, out);
    MapOneApart(m, s, out);
    MapOneAccounts(m, s, out);
    forall t | 0 <= t < |m'.spaces|
      ensures SpaceOk(m', t)
    {
      if t != s {
        OtherSpaceKept(m, s, out, t);
      }
    }
    hide PoolValid, AllApart, OthersOk, Accounted, SpaceOk, Ready, Grows;
  }

  lemma MapOneView(m: Machine, views: seq<View>, s: nat, out: Mapped, at: PhysAddr, leaf: Word, t: nat)
    requires Refines(m, views) && s < |m.spaces| && t < |m.spaces|
    requires Ready(out.pool, m.spaces[s].root, out.tables)
    requires Grows(m.pool, m.spaces[s].tables, out.pool, out.tables)
    requires Usable(m.pool, m.spaces[s].tables) && Usable(out.pool, out.tables)
    requires Shows(m.pool, m.spaces[s].tables, PathOf(at), leaf, out)
    ensures SpaceOk(After(m, s, out), t)
    ensures Represents(After(m, s, out), t,
                       if t == s && out.ok then views[t][PageOf(at) := leaf] else views[t])
  {
    assert SpaceOk(m, t) && Represents(m, t, views[t]);
    if t == s {
      OwnSpaceOk(m, s, out);
      OwnRepresents(m, s, out, at, leaf, views[s]);
    } else {
      OtherSpaceKept(m, s, out, t);
    }
  }

  lemma StepMapOne(m: Machine, views: seq<View>, op: Op)
    requires Refines(m, views) && op.MapOne? && Enabled(m, op)
    ensures Refines(Step(m, op), ViewStep(m, views, op))
  {
    var s, out := op.space, Attempt(m, op);
    var m' := After(m, s, out);
    AttemptFacts(m, op);
    MapOneKeepsOk(m, s, out);
    var leaf := LeafEntry(op.hpa, op.flags);
    var views' := if out.ok then views[s := views[s][PageOf(op.gpa) := leaf]] else views;
    assert ViewStep(m, views, op) == views' && Step(m, op) == m';
    forall t | 0 <= t < |m'.spaces|
      ensures SpaceOk(m', t) && Represents(m', t, views'[t])
    {
      MapOneView(m, views, s, out, op.gpa, leaf, t);
    }
    hide Fits52, Aligned, PathOf, PageOf, Tree, Lookup, PoolValid, Ready, LeafEntry, Represents, SpaceOk, Grows, Apart, AllApart, OthersOk, Accounted, Shows, Succeeds, MachineOk;
  }

  lemma StepRefines(m: Machine, views: seq<View>, op: Op)
    requires Refines(m, views)
    ensures Refines(Step(m, op), ViewStep(m, views, op))
  {
    match op
    case NewSpace => StepNewSpace(m, views);
    case TakeFrame => StepTakeFrame(m, views);
    case Scribble(pa, idx, word) => StepScribble(m, views, pa, idx, word);
    case MapOne(_, _, _, _) =>
      if Enabled(m, op) {
        StepMapOne(m, views, op);
      }
  }

  // ----- runs -----------------------------------------------------------------------------

  ghost function Boot(addrs: seq<PhysAddr>, mem: Memory): Machine {
    Machine(Pool(addrs, 0, mem), [], {})
  }

  lemma BootRefines(addrs: seq<PhysAddr>, mem: Memory)
    requires PoolValid(Pool(addrs, 0, mem))
    ensures Refines(Boot(addrs, mem), [])
  {
    hide Fits52, Aligned, Zeroed;
  }

  /** The machine and its specification, run side by side. */
  ghost function Run(m: Machine, views: seq<View>, ops: seq<Op>): (r: (Machine, seq<View>))
    requires Refines(m, views)
    ensures Refines(r.0, r.1)
    decreases |ops|
  {
    if ops == [] then (m, views)
    else
      StepRefines(m, views, ops[0]);
      Run(Step(m, ops[0]), ViewStep(m, views, ops[0]), ops[1..])
  }

  /** A guest address, looked up in a finite map. */
  function TranslateSpec(view: View, gpa: PhysAddr): Result<PhysAddr, HyperError> {
    if PageOf(gpa) in view then Ok(AtOffset(AddrOf(view[PageOf(gpa)]), gpa)) else Err(Hardware)
  }

  /** The memory walk agrees with the finite map, for every guest and every address. */
  lemma TranslateRefines(m: Machine, views: seq<View>, s: nat, gpa: PhysAddr)
    requires Refines(m, views) && s < |m.spaces|
    ensures TranslateRaw(m.pool.mem, m.spaces[s].root, gpa) == TranslateSpec(views[s], gpa)
  {
    hide Fits52, Aligned, PathOf, PageOf, Lookup, WalkRaw, AtOffset, AddrOf;
    assert SpaceOk(m, s) && Represents(m, s, views[s]);
    PathInRange(gpa);
    WalkRawIsLookup(m.pool.mem, m.spaces[s].root, m.spaces[s].tables, PathOf(gpa));
  }

  /** Main result: from boot, after any calls on any number of guests, including failed
      ones, every translation is what the finite map says. */
  lemma RunsRefine(addrs: seq<PhysAddr>, mem: Memory, ops: seq<Op>)
    requires PoolValid(Pool(addrs, 0, mem))
    ensures Refines(Boot(addrs, mem), [])
    ensures var (m, views) := Run(Boot(addrs, mem), [], ops);
      && |views| == |m.spaces|
      && forall s, gpa: PhysAddr :: 0 <= s < |m.spaces| ==>
           TranslateRaw(m.pool.mem, m.spaces[s].root, gpa) == TranslateSpec(views[s], gpa)
  {
    hide Fits52, Aligned, PathOf, PageOf, Lookup, WalkRaw, TranslateRaw, TranslateSpec, PoolValid, MachineOk;
    BootRefines(addrs, mem);
    var (m, views) := Run(Boot(addrs, mem), [], ops);
    forall s, gpa: PhysAddr | 0 <= s < |m.spaces|
      ensures TranslateRaw(m.pool.mem, m.spaces[s].root, gpa) == TranslateSpec(views[s], gpa)
    {
      TranslateRefines(m, views, s, gpa);
    }
  }

  lemma StepKeepsRoot(m: Machine, op: Op, t: nat)
    requires MachineOk(m) && t < |m.spaces|
    ensures t < |Step(m, op).spaces| && Step(m, op).spaces[t].root == m.spaces[t].root
  {
    hide MachineOk, Attempt;
  }

  lemma {:induction false} RunSparesView(m: Machine, views: seq<View>, ops: seq<Op>, t: nat)
    requires Refines(m, views) && t < |m.spaces|
    requires forall k :: 0 <= k < |ops| ==> !(ops[k].MapOne? && ops[k].space == t)
    ensures var (m', views') := Run(m, views, ops);
      t < |m'.spaces| && m'.spaces[t].root == m.spaces[t].root && views'[t] == views[t]
    decreases |ops|
  {
    hide MachineOk, Represents, Step, PageOf, PathOf, LeafEntry, Succeeds;
    if ops != [] {
      StepRefines(m, views, ops[0]);
      assert MachineOk(m);
      StepKeepsRoot(m, ops[0], t);
      RunSparesView(Step(m, ops[0]), ViewStep(m, views, ops[0]), ops[1..], t);
    }
  }

  /** No later call asks for this page of this guest. */
  predicate Spared(ops: seq<Op>, s: nat, page: Address) {
    forall op :: op in ops && op.MapOne? && op.space == s ==> PageOf(op.gpa) != page
  }

  lemma {:induction false} RunSparesPage(m: Machine, views: seq<View>, ops: seq<Op>, s: nat, page: Address)
    requires Refines(m, views) && s < |m.spaces| && Spared(ops, s, page)
    ensures var (m', views') := Run(m, views, ops);
      s < |views'| && (page in views'[s] <==> page in views[s]) && (page in views[s] ==> views'[s][page] == views[s][page])
    decreases |ops|
  {
    hide MachineOk, Represents, Step, PageOf, PathOf, LeafEntry, Needed;
    if ops != [] {
      assert ops[0] in ops;
      StepRefines(m, views, ops[0]);
      RunSparesPage(Step(m, ops[0]), ViewStep(m, views, ops[0]), ops[1..], s, page);
    }
  }

  /** The address a guest address stands for after its page was mapped to hpa: the host page above
      bit 12, the guest's own bits below. */
  predicate StandsFor(r: Result<PhysAddr, HyperError>, hpa: PhysAddr, gpa: PhysAddr) {
    r.Ok? && r.value.bits & 0xFFFF_FFFF_FFFF_F000 == hpa.bits && r.value.bits & 0xFFF == gpa.bits & 0xFFF
  }

  /** Main result: a mapping that succeeds governs every address of its page, whatever is called
      afterwards, until the page of that guest is mapped again. */
  lemma LastMappingGoverns(m: Machine, views: seq<View>, op: Op, ops: seq<Op>, at: PhysAddr)
    requires Refines(m, views) && op.MapOne? && Enabled(m, op) && Attempt(m, op).ok
    requires Spared(ops, op.space, PageOf(op.gpa)) && PageOf(at) == PageOf(op.gpa)
    ensures Refines(Step(m, op), ViewStep(m, views, op))
    ensures var m' := Run(Step(m, op), ViewStep(m, views, op), ops).0;
      op.space < |m'.spaces| && StandsFor(TranslateRaw(m'.pool.mem, m'.spaces[op.space].root, at), op.hpa, at)
  {
    hide MachineOk, Represents, Step, PageOf, PathOf, LeafEntry, TranslateRaw, Needed, Attempt, AtOffset, AddrOf, StandsFor, CanMap;
    assert MachineOk(m);
    AttemptFacts(m, op);
    StepRefines(m, views, op);
    var (m', views') := Run(Step(m, op), ViewStep(m, views, op), ops);
    RunSparesPage(Step(m, op), ViewStep(m, views, op), ops, op.space, PageOf(op.gpa));
    TranslateRefines(m', views', op.space, at);
    LeafStandsFor(op.hpa, op.flags, op.gpa, at);
  }

  lemma LeafStandsFor(hpa: PhysAddr, flags: Flags, gpa: PhysAddr, at: PhysAddr)
    requires CanMap(gpa, hpa, flags)
    ensures StandsFor(Ok(AtOffset(AddrOf(LeafEntry(hpa, flags)), at)), hpa, at)
  {
    LeafEntryRoundTrip(hpa, flags);
    OffsetKept(hpa, at);
    hide LeafEntry, AddrOf, AtOffset;
  }

  /** A page that no call ever asked for does not translate. */
  lemma NeverMapped(addrs: seq<PhysAddr>, mem: Memory, ops: seq<Op>, s: nat, at: PhysAddr)
    requires PoolValid(Pool(addrs, 0, mem)) && Refines(Boot(addrs, mem), [])
    requires Spared(ops, s, PageOf(at)) && s < |Run(Boot(addrs, mem), [], ops).0.spaces|
    ensures var m := Run(Boot(addrs, mem), [], ops).0; TranslateRaw(m.pool.mem, m.spaces[s].root, at).Err?
  {
    hide MachineOk, Represents, PageOf, PathOf, TranslateRaw, PoolValid;
    var (m, views) := Run(Boot(addrs, mem), [], ops);
    PageStaysOut(Boot(addrs, mem), [], ops, s, PageOf(at));
    TranslateRefines(m, views, s, at);
  }

  lemma {:induction false} PageStaysOut(m: Machine, views: seq<View>, ops: seq<Op>, s: nat, page: Address)
    requires Refines(m, views) && Spared(ops, s, page) && (s < |views| ==> page !in views[s])
    ensures var views' := Run(m, views, ops).1; s < |views'| ==> page !in views'[s]
    decreases |ops|
  {
    hide MachineOk, Represents, Step, PageOf, PathOf, LeafEntry, Needed;
    if ops != [] {
      assert ops[0] in ops;
      StepRefines(m, views, ops[0]);
      PageStaysOut(Step(m, ops[0]), ViewStep(m, views, ops[0]), ops[1..], s, page);
    }
  }

  /** Isolation: whatever is done to other guests, to the pool and to taken frames, one
      guest's translations do not move. */
  lemma Isolation(m: Machine, views: seq<View>, ops: seq<Op>, t: nat, gpa: PhysAddr)
    requires Refines(m, views) && t < |m.spaces|
    requires forall k :: 0 <= k < |ops| ==> !(ops[k].MapOne? && ops[k].space == t)
    ensures var m' := Run(m, views, ops).0;
      t < |m'.spaces|
      && TranslateRaw(m'.pool.mem, m'.spaces[t].root, gpa) == TranslateRaw(m.pool.mem, m.spaces[t].root, gpa)
  {
    hide MachineOk, Represents, TranslateRaw, TranslateSpec;
    var (m', views') := Run(m, views, ops);
    RunSparesView(m, views, ops, t);
    TranslateRefines(m, views, t, gpa);
    TranslateRefines(m', views', t, gpa);
  }

  /** A mapping that fails, also one that dies half-way down for want of frames, moves no
      translation of any guest. */
  lemma FailedMappingIsInvisible(m: Machine, views: seq<View>, op: Op, t: nat, gpa: PhysAddr)
    requires Refines(m, views) && op.MapOne? && !Succeeds(m, op) && t < |m.spaces|
    ensures var m' := Step(m, op);
      t < |m'.spaces|
      && TranslateRaw(m'.pool.mem, m'.spaces[t].root, gpa) == TranslateRaw(m.pool.mem, m.spaces[t].root, gpa)
  {
    hide MachineOk, Represents, TranslateRaw, TranslateSpec, Succeeds, Step;
    assert MachineOk(m);
    StepRefines(m, views, op);
    StepKeepsRoot(m, op, t);
    TranslateRefines(m, views, t, gpa);
    TranslateRefines(Step(m, op), views, t, gpa);
  }

  // ----- how many frames the tables take ----------------------------------------------------

  /** The distinct index prefixes of length k among the mapped pages. */
  function PrefixesOf(view: View, k: nat): set<Prefix>
    requires k <= 4
  {
    set page | page in view :: PathOf(page)[..k]
  }

  /** The tables are exactly the root and the prefixes of mapped pages. */
  ghost predicate Exact(sp: Space, view: View) {
    sp.tables.Keys == {[]} + PrefixesOf(view, 1) + PrefixesOf(view, 2) + PrefixesOf(view, 3)
  }

  ghost predicate AllExact(m: Machine, views: seq<View>) {
    |views| == |m.spaces| && forall s :: 0 <= s < |m.spaces| ==> Exact(m.spaces[s], views[s])
  }

  /** A call that does not fail. */
  ghost predicate Succeeded(m: Machine, op: Op) {
    match op
    case NewSpace => m.pool.next < |m.pool.addrs|
    case TakeFrame => m.pool.next < |m.pool.addrs|
    case MapOne(_, _, _, _) => Succeeds(m, op)
    case Scribble(_, _, _) => true
  }

  ghost predicate AllSucceed(m: Machine, views: seq<View>, ops: seq<Op>)
    requires Refines(m, views)
    decreases |ops|
  {
    ops != [] ==>
      Succeeded(m, ops[0]) &&
      (StepRefines(m, views, ops[0]);
       AllSucceed(Step(m, ops[0]), ViewStep(m, views, ops[0]), ops[1..]))
  }

  lemma PrefixesAdd(view: View, gpa: PhysAddr, w: Word, k: nat)
    requires k <= 4
    ensures PrefixesOf(view[PageOf(gpa) := w], k) == PrefixesOf(view, k) + {PathOf(gpa)[..k]}
  {
    PathOfPage(gpa);
    hide PathOf, PageOf, Fits52;
    var view' := view[PageOf(gpa) := w];
    forall p | p in PrefixesOf(view, k)
      ensures p in PrefixesOf(view', k)
    {
      var page :| page in view && PathOf(page)[..k] == p;
      assert page in view';
    }
    assert PageOf(gpa) in view';
  }

  lemma AttemptTables(m: Machine, op: Op)
    requires MachineOk(m) && op.MapOne? && Succeeds(m, op)
    ensures var path := PathOf(op.gpa);
      Attempt(m, op).tables.Keys == m.spaces[op.space].tables.Keys + {path[..1], path[..2], path[..3]}
  {
    var sp := m.spaces[op.space];
    var path, leaf := PathOf(op.gpa), LeafEntry(op.hpa, op.flags);
    SpareFacts(m, op.space);
    PathInRange(op.gpa);
    LeafEntryRoundTrip(op.hpa, op.flags);
    ReadyHasRoot(m.pool, sp.root, sp.tables);
    hide Fits52, Aligned, PathOf, Tree, Present, LeafEntry, Ready, Usable, MapFrom, Missing, MachineOk, Below;
    assert path[..0] == [];
    MapFromBudget(m.pool, sp.root, sp.tables, path, 0, leaf);
    BelowRoot(path);
  }

  lemma UnionShuffle<T>(r: set<T>, p: set<T>, q: set<T>, t: set<T>, a: T, b: T, c: T)
    ensures r + p + q + t + {a, b, c} == r + (p + {a}) + (q + {b}) + (t + {c})
  {}

  lemma ExactGrows(sp: Space, sp': Space, view: View, gpa: PhysAddr, w: Word)
    requires Exact(sp, view)
    requires var path := PathOf(gpa); sp'.tables.Keys == sp.tables.Keys + {path[..1], path[..2], path[..3]}
    ensures Exact(sp', view[PageOf(gpa) := w])
  {
    var path := PathOf(gpa);
    PrefixesAdd(view, gpa, w, 1);
    PrefixesAdd(view, gpa, w, 2);
    PrefixesAdd(view, gpa, w, 3);
    UnionShuffle({[]}, PrefixesOf(view, 1), PrefixesOf(view, 2), PrefixesOf(view, 3), path[..1], path[..2], path[..3]);
    hide PathOf, PageOf, Fits52, PrefixesOf;
  }

  lemma ExactUpdate(m: Machine, views: seq<View>, s: nat, out: Mapped, view: View)
    requires AllExact(m, views) && s < |m.spaces|
    requires Exact(Space(m.spaces[s].root, out.tables), view)
    ensures AllExact(After(m, s, out), views[s := view])
  {
    hide Exact;
  }

  lemma StepStaysExact(m: Machine, views: seq<View>, op: Op)
    requires Refines(m, views) && AllExact(m, views) && Succeeded(m, op)
    ensures AllExact(Step(m, op), ViewStep(m, views, op))
  {
    hide PathOf, PageOf, LeafEntry, Fits52, Aligned, MachineOk, Represents, PrefixesOf, Exact, MapPage;
    match op {
      case MapOne(s, gpa, hpa, flags) =>
        var out := Attempt(m, op);
        AttemptTables(m, op);
        ExactGrows(m.spaces[s], Space(m.spaces[s].root, out.tables), views[s], gpa, LeafEntry(hpa, flags));
        ExactUpdate(m, views, s, out, views[s][PageOf(gpa) := LeafEntry(hpa, flags)]);
      case NewSpace =>
        FreshRootIsExact(m.pool.addrs[m.pool.next]);
      case TakeFrame =>
      case Scribble(_, _, _) =>
    }
  }

  lemma FreshRootIsExact(root: PhysAddr)
    ensures Exact(Space(root, map[[] := root]), map[])
  {
    hide PathOf, Fits52;
    assert PrefixesOf(map[], 1) == {} && PrefixesOf(map[], 2) == {} && PrefixesOf(map[], 3) == {};
  }

  lemma BelowRoot(path: seq<nat>)
    requires |path| == 4
    ensures Below(path, 0) == {path[..1], path[..2], path[..3]}
  {
    assert Below(path, 2) == {path[..3]} + Below(path, 3);
    assert Below(path, 1) == {path[..2]} + Below(path, 2);
  }

  lemma {:induction false} RunStaysExact(m: Machine, views: seq<View>, ops: seq<Op>)
    requires Refines(m, views) && AllExact(m, views) && AllSucceed(m, views, ops)
    ensures var (m', views') := Run(m, views, ops); AllExact(m', views')
    decreases |ops|
  {
    hide AllExact, MachineOk, Represents, Succeeded;
    if ops != [] {
      StepRefines(m, views, ops[0]);
      StepStaysExact(m, views, ops[0]);
      RunStaysExact(Step(m, ops[0]), ViewStep(m, views, ops[0]), ops[1..]);
    }
  }

  /** The regions of 512 GiB, 1 GiB and 2 MiB (k = 1, 2, 3) that hold mapped pages, by address. */
  function RegionsOf(view: View, k: nat): set<Address>
    requires 1 <= k <= 4
  {
    set page | page in view :: Top(page, k)
  }

  function FrontsOf(pages: set<Address>, k: nat): set<Prefix>
    requires k <= 4
  {
    set page | page in pages :: PathOf(page)[..k]
  }

  function TopsOf(pages: set<Address>, k: nat): set<Address>
    requires 1 <= k <= 4
  {
    set page | page in pages :: Top(page, k)
  }

  lemma {:induction false} SameCount(pages: set<Address>, k: nat)
    requires 1 <= k <= 4
    ensures |FrontsOf(pages, k)| == |TopsOf(pages, k)|
    decreases |pages|
  {
    if pages == {} {
      assert FrontsOf(pages, k) == {} && TopsOf(pages, k) == {};
    } else {
      hide PathOf, Top, FrontsOf, TopsOf;
      var x :| x in pages;
      var rest := pages - {x};
      SameCount(rest, k);
      OneMorePage(pages, rest, x, k);
      SeenTogether(rest, x, k);
    }
  }

  lemma OneMorePage(pages: set<Address>, rest: set<Address>, x: Address, k: nat)
    requires 1 <= k <= 4 && x in pages && rest == pages - {x}
    ensures FrontsOf(pages, k) == FrontsOf(rest, k) + {PathOf(x)[..k]}
    ensures TopsOf(pages, k) == TopsOf(rest, k) + {Top(x, k)}
  {
    hide PathOf, Top;
    assert forall page :: page in pages <==> page == x || page in rest;
  }

  lemma SeenTogether(pages: set<Address>, x: Address, k: nat)
    requires 1 <= k <= 4
    ensures PathOf(x)[..k] in FrontsOf(pages, k) <==> Top(x, k) in TopsOf(pages, k)
  {
    hide PathOf, Top;
    forall page | page in pages
      ensures PathOf(page)[..k] == PathOf(x)[..k] <==> Top(page, k) == Top(x, k)
    {
      SharedTables(page, x, k);
    }
  }

  lemma PrefixesAreRegions(view: View, k: nat)
    requires 1 <= k <= 4
    ensures |PrefixesOf(view, k)| == |RegionsOf(view, k)|
  {
    hide PathOf, Top;
    SameCount(view.Keys, k);
    assert PrefixesOf(view, k) == FrontsOf(view.Keys, k) && RegionsOf(view, k) == TopsOf(view.Keys, k);
  }

  /** In a run without failures each guest's tables number one plus the 512 GiB, 1 GiB and 2 MiB
      regions with mapped pages, and tables plus taken frames are all that was handed out. */
  lemma TableFramesAreExact(addrs: seq<PhysAddr>, mem: Memory, ops: seq<Op>, s: nat)
    requires PoolValid(Pool(addrs, 0, mem)) && Refines(Boot(addrs, mem), [])
    requires AllSucceed(Boot(addrs, mem), [], ops)
    requires s < |Run(Boot(addrs, mem), [], ops).0.spaces|
    ensures var (m, views) := Run(Boot(addrs, mem), [], ops);
      && |m.spaces[s].tables|
         == 1 + |RegionsOf(views[s], 1)| + |RegionsOf(views[s], 2)| + |RegionsOf(views[s], 3)|
      && TableCount(m.spaces) + |m.others| == m.pool.Handed()
  {
    hide PathOf, AllSucceed;
    var (m, views) := Run(Boot(addrs, mem), [], ops);
    RunStaysExact(Boot(addrs, mem), [], ops);
    assert Exact(m.spaces[s], views[s]);
    PrefixSizes(views[s]);
    PrefixesAreRegions(views[s], 1);
    PrefixesAreRegions(views[s], 2);
    PrefixesAreRegions(views[s], 3);
    hide PrefixesOf, RegionsOf;
    assert |m.spaces[s].tables| == |m.spaces[s].tables.Keys|;
  }

  lemma PrefixSizes(view: View)
    ensures |{[]} + PrefixesOf(view, 1) + PrefixesOf(view, 2) + PrefixesOf(view, 3)|
         == 1 + |PrefixesOf(view, 1)| + |PrefixesOf(view, 2)| + |PrefixesOf(view, 3)|
  {
    hide PathOf;
    var a, b, c := PrefixesOf(view, 1), PrefixesOf(view, 2), PrefixesOf(view, 3);
    assert forall p :: p in a ==> |p| == 1;
    assert forall p :: p in b ==> |p| == 2;
    assert forall p :: p in c ==> |p| == 3;
    var r: set<Prefix> := {[]};
    assert r !! a && (r + a) !! b && (r + a + b) !! c;
  }
}
