/** Memory isolation: guests whose mapped frames were each taken for them never reach one another's
    memory, nor anyone's page tables, whatever they write through their translations. */
module EptIsolation {
  import opened Wrappers
  import opened EptEntries
  import opened EptTree
  import opened EptWalker
  import opened EptMachine

  /** The machine, what its translations are, and for which guest each guest frame was taken. */
  datatype System = System(m: Machine, views: seq<View>, owner: map<PhysAddr, nat>)

  datatype Act =
    | Start
    | Take(guest: nat)
    | Load(guest: nat, frame: PhysAddr, idx: nat, word: Word)
    | Attach(guest: nat, gpa: PhysAddr, hpa: PhysAddr, flags: Flags)
    | Store(guest: nat, gpa: PhysAddr, idx: nat, word: Word)
    | KernelTakes
    | KernelWrites(frame: PhysAddr, idx: nat, word: Word)

  /** The frame the hardware walk finds behind a guest address. */
  function HostFrame(m: Machine, s: nat, gpa: PhysAddr): Option<PhysAddr>
    requires s < |m.spaces|
  {
    match WalkRaw(m.pool.mem, m.spaces[s].root, PathOf(gpa)) case None => None case Some(e) => Some(AddrOf(e))
  }

  /** A word as a guest reads it: through its translation. */
  function GuestReads(m: Machine, s: nat, gpa: PhysAddr, idx: nat): Option<Word>
    requires s < |m.spaces|
  {
    match HostFrame(m, s, gpa)
    case None => None
    case Some(f) => if f in m.pool.mem && idx < |m.pool.mem[f]| then Some(m.pool.mem[f][idx]) else None
  }

  /** The machine's operation behind an act. A store of a guest goes wherever its translation leads,
      whatever the leaf's flags; without a translation it faults. */
  function OpOf(y: System, a: Act): Option<Op> {
    match a
    case Start => Some(NewSpace)
    case Take(_) => Some(TakeFrame)
    case KernelTakes => Some(TakeFrame)
    case Load(_, f, i, w) => Some(Scribble(f, i, w))
    case KernelWrites(f, i, w) => Some(Scribble(f, i, w))
    case Attach(s, gpa, hpa, flags) => Some(MapOne(s, gpa, hpa, flags))
    case Store(s, gpa, i, w) =>
      if s >= |y.m.spaces| then None
      else match HostFrame(y.m, s, gpa) case None => None case Some(f) => Some(Scribble(f, i, w))
  }

  /** What the kernel keeps to: it maps for a guest, and loads a guest's image into, only frames it
      took for that guest, and its own writes stay away from guest frames. Guests are not bound. */
  predicate Permitted(y: System, a: Act) {
    match a
    case Take(s) => s < |y.m.spaces|
    case Load(s, f, _, _) => f in y.owner && y.owner[f] == s
    case Attach(s, _, hpa, _) => hpa in y.owner && y.owner[hpa] == s
    case KernelWrites(f, _, _) => f !in y.owner
    case _ => true
  }

  ghost predicate Sound(y: System) { Refines(y.m, y.views) && |y.views| == |y.m.spaces| && MachineOk(y.m) }

  ghost function Next(y: System, a: Act): System
    requires Sound(y)
  {
    match OpOf(y, a)
    case None => y
    case Some(op) =>
      System(Step(y.m, op), ViewStep(y.m, y.views, op),
             if a.Take? && y.m.pool.next < |y.m.pool.addrs| then y.owner[y.m.pool.addrs[y.m.pool.next] := a.guest] else y.owner)
  }

  /** All frames a view maps belong to guest s. */
  ghost predicate Mine(owner: map<PhysAddr, nat>, view: View, s: nat) {
    forall page :: page in view ==> AddrOf(view[page]) in owner && owner[AddrOf(view[page])] == s
  }

  /** Every mapped frame was taken for the guest that maps it. */
  ghost predicate Owned(y: System) {
    && Sound(y)
    && (forall f :: f in y.owner ==> f in y.m.others && y.owner[f] < |y.m.spaces|)
    && forall s :: 0 <= s < |y.views| ==> Mine(y.owner, y.views[s], s)
  }

  /** A step keeps the machine in order. */
  lemma StaysSound(y: System, a: Act)
    requires Sound(y)
    ensures Sound(Next(y, a))
  {
    if OpOf(y, a).Some? { StepRefines(y.m, y.views, OpOf(y, a).value); }
    hide Step, ViewStep, MachineOk, Represents;
  }

  // ----- one step --------------------------------------------------------------------------------

  lemma HostFrameIs(y: System, s: nat, gpa: PhysAddr)
    requires Sound(y) && s < |y.m.spaces|
    ensures HostFrame(y.m, s, gpa) == if PageOf(gpa) in y.views[s] then Some(AddrOf(y.views[s][PageOf(gpa)])) else None
  {
    hide Fits52, Aligned, PathOf, PageOf, Lookup, WalkRaw, AddrOf;
    assert SpaceOk(y.m, s) && Represents(y.m, s, y.views[s]);
    PathInRange(gpa);
    WalkRawIsLookup(y.m.pool.mem, y.m.spaces[s].root, y.m.spaces[s].tables, PathOf(gpa));
  }

  /** Frames taken stay taken, and only a write to such a frame changes it. */
  lemma OthersKept(m: Machine, op: Op)
    requires MachineOk(m)
    ensures var m' := Step(m, op);
      && m.others <= m'.others && |m.spaces| <= |m'.spaces| && m'.pool.mem.Keys == m.pool.mem.Keys
      && (forall f :: f in m.others && !(op.Scribble? && op.pa == f) ==>
            f in m.pool.mem && f in m'.pool.mem && m'.pool.mem[f] == m.pool.mem[f])
  {
    hide Fits52, Aligned, PathOf, Tree, Zeroed, PoolValid, Ready, LeafEntry, Shows, Usable, SpaceOk, AllApart;
    match op
    case MapOne(s, gpa, hpa, flags) =>
      if Enabled(m, op) {
        AttemptFacts(m, op);
        SpareFacts(m, s);
        MapKeepsOthers(m, s, Attempt(m, op));
      }
    case Scribble(pa, idx, word) =>
    case NewSpace =>
    case TakeFrame =>
  }

  lemma MapKeepsOthers(m: Machine, s: nat, out: Mapped)
    requires s < |m.spaces| && OthersOk(m) && Grows(m.pool, m.spaces[s].tables, out.pool, out.tables)
    requires forall p :: p in m.spaces[s].tables ==> m.spaces[s].tables[p] !in m.others
    ensures out.pool.mem.Keys == m.pool.mem.Keys
    ensures forall f :: f in m.others ==> f in m.pool.mem && out.pool.mem[f] == m.pool.mem[f]
  {
    forall f | f in m.others
      ensures f in m.pool.mem && out.pool.mem[f] == m.pool.mem[f]
    {
      assert NoTable(m.spaces[s].tables, f);
    }
  }

  /** An act leaves the translations of all guests but the one it maps for. */
  lemma ViewsKept(y: System, op: Op, t: nat)
    requires Sound(y) && t < |y.views| && !(op.MapOne? && op.space == t)
    ensures t < |ViewStep(y.m, y.views, op)| && ViewStep(y.m, y.views, op)[t] == y.views[t]
  {
    hide Refines, MachineOk, PageOf, LeafEntry, Needed;
  }

  lemma TakenIsNew(y: System)
    requires Owned(y) && y.m.pool.next < |y.m.pool.addrs|
    ensures y.m.pool.addrs[y.m.pool.next] !in y.owner
    ensures y.m.pool.addrs[y.m.pool.next] in Step(y.m, TakeFrame).others
  {
    hide Fits52, Aligned, Zeroed, PathOf, Represents;
    NextIsNobodys(y.m);
  }

  lemma ViewsStayMine(y: System, a: Act, op: Op, s: nat)
    requires Owned(y) && Permitted(y, a) && OpOf(y, a) == Some(op) && s < |ViewStep(y.m, y.views, op)|
    ensures Mine(y.owner, ViewStep(y.m, y.views, op)[s], s)
  {
    hide Refines, MachineOk, AddrOf, PageOf, LeafEntry, Succeeds, HostFrame, Mine;
    if op.MapOne? && op.space == s && Succeeds(y.m, op) {
      SucceedsCanMap(y.m, op);
      LeafEntryRoundTrip(op.hpa, op.flags);
      MineAdds(y.owner, y.views[s], s, PageOf(op.gpa), LeafEntry(op.hpa, op.flags));
    } else if s >= |y.views| {
      assert Mine(y.owner, map[], s) by { NothingMine(y.owner, s); }
    }
  }

  lemma NothingMine(owner: map<PhysAddr, nat>, s: nat)
    ensures Mine(owner, map[], s)
  {}

  lemma MineAdds(owner: map<PhysAddr, nat>, view: View, s: nat, page: Address, leaf: Word)
    requires Mine(owner, view, s) && AddrOf(leaf) in owner && owner[AddrOf(leaf)] == s
    ensures Mine(owner, view[page := leaf], s)
  {
    hide AddrOf;
  }

  lemma SucceedsCanMap(m: Machine, op: Op)
    requires op.MapOne? && Succeeds(m, op)
    ensures CanMap(op.gpa, op.hpa, op.flags)
  {}

  /** Every permitted act, and every store of any guest, keeps frames with their owners. */
  lemma StaysOwned(y: System, a: Act)
    requires Owned(y) && Permitted(y, a)
    ensures Owned(Next(y, a))
  {
    hide Refines, MachineOk, Step, ViewStep, AddrOf, PageOf, HostFrame, Permitted, Mine;
    if OpOf(y, a).Some? {
      var op := OpOf(y, a).value;
      StaysSound(y, a);
      OthersKept(y.m, op);
      if a.Take? && y.m.pool.next < |y.m.pool.addrs| { TakenIsNew(y); }
      var y' := Next(y, a);
      forall s | 0 <= s < |y'.views|
        ensures Mine(y'.owner, y'.views[s], s)
      {
        ViewsStayMine(y, a, op, s);
        MineGrows(y, a, y'.views[s], s);
      }
      OwnersThere(y, a);
    }
  }

  lemma OwnersThere(y: System, a: Act)
    requires Owned(y) && Permitted(y, a) && OpOf(y, a).Some?
    ensures var y' := Next(y, a); forall f :: f in y'.owner ==> f in y'.m.others && y'.owner[f] < |y'.m.spaces|
  {
    OthersKept(y.m, OpOf(y, a).value);
    if a.Take? && y.m.pool.next < |y.m.pool.addrs| { TakenIsNew(y); }
    hide Refines, Step, ViewStep, AddrOf, PageOf, HostFrame, Mine;
  }

  lemma MineGrows(y: System, a: Act, view: View, s: nat)
    requires Owned(y) && OpOf(y, a).Some? && Mine(y.owner, view, s)
    ensures Mine(Next(y, a).owner, view, s)
  {
    if a.Take? && y.m.pool.next < |y.m.pool.addrs| { TakenIsNew(y); }
    hide Refines, AddrOf, Step, ViewStep;
  }

  // ----- no sharing, no disturbance ------------------------------------------------------------------

  /** Main result: no frame is reached by two guests, and none that is reached holds a page table. */
  lemma NothingShared(y: System, s: nat, t: nat, gpa: PhysAddr, gpb: PhysAddr)
    requires Owned(y) && s < |y.m.spaces| && t < |y.m.spaces| && HostFrame(y.m, s, gpa).Some?
    ensures s != t ==> HostFrame(y.m, t, gpb) != HostFrame(y.m, s, gpa)
    ensures forall p :: p in y.m.spaces[t].tables ==> y.m.spaces[t].tables[p] != HostFrame(y.m, s, gpa).value
  {
    hide HostFrame, PageOf, AddrOf, Represents, MachineOk;
    FrameIsOwned(y, s, gpa);
    if HostFrame(y.m, t, gpb).Some? { FrameIsOwned(y, t, gpb); }
    SpareFacts(y.m, t);
  }

  /** The guest that acts, if any. Taking a frame for a guest is no act of the guest. */
  predicate By(a: Act, t: nat) { (a.Load? || a.Attach? || a.Store?) && a.guest == t }

  lemma StepUndisturbed(y: System, a: Act, t: nat, gpa: PhysAddr, idx: nat)
    requires Owned(y) && Permitted(y, a) && !By(a, t) && t < |y.m.spaces|
    ensures t < |Next(y, a).m.spaces| && GuestReads(Next(y, a).m, t, gpa, idx) == GuestReads(y.m, t, gpa, idx)
  {
    hide Refines, MachineOk, Step, ViewStep, AddrOf, PageOf, HostFrame, GuestReads, Permitted, Mine;
    StaysSound(y, a);
    if OpOf(y, a).Some? {
      var op := OpOf(y, a).value;
      OthersKept(y.m, op);
      ViewsKept(y, op, t);
      HostFrameIs(y, t, gpa);
      HostFrameIs(Next(y, a), t, gpa);
      if HostFrame(y.m, t, gpa).Some? { NotMine(y, a, op, t, gpa); }
      SameRead(y.m, Next(y, a).m, t, gpa, idx);
    }
  }

  lemma SameRead(m: Machine, m': Machine, t: nat, gpa: PhysAddr, idx: nat)
    requires t < |m.spaces| && t < |m'.spaces| && HostFrame(m', t, gpa) == HostFrame(m, t, gpa)
    requires HostFrame(m, t, gpa).Some? ==>
      var f := HostFrame(m, t, gpa).value; f in m.pool.mem && f in m'.pool.mem && m'.pool.mem[f] == m.pool.mem[f]
    ensures GuestReads(m', t, gpa, idx) == GuestReads(m, t, gpa, idx)
  {
    hide HostFrame;
  }

  lemma NotMine(y: System, a: Act, op: Op, t: nat, gpa: PhysAddr)
    requires Owned(y) && Permitted(y, a) && !By(a, t) && t < |y.m.spaces| && OpOf(y, a) == Some(op)
    requires HostFrame(y.m, t, gpa).Some?
    ensures HostFrame(y.m, t, gpa).value in y.m.others
    ensures !(op.Scribble? && op.pa == HostFrame(y.m, t, gpa).value)
  {
    hide Refines, HostFrame, AddrOf, PageOf;
    FrameIsOwned(y, t, gpa);
    if a.Store? && a.guest < |y.m.spaces| && HostFrame(y.m, a.guest, a.gpa).Some? {
      FrameIsOwned(y, a.guest, a.gpa);
    }
  }

  lemma FrameIsOwned(y: System, s: nat, gpa: PhysAddr)
    requires Owned(y) && s < |y.m.spaces| && HostFrame(y.m, s, gpa).Some?
    ensures var f := HostFrame(y.m, s, gpa).value; f in y.owner && y.owner[f] == s && f in y.m.others
  {
    HostFrameIs(y, s, gpa);
    hide HostFrame, AddrOf, PageOf, Represents, MachineOk;
    assert Mine(y.owner, y.views[s], s);
  }

  ghost predicate AllPermitted(y: System, acts: seq<Act>)
    requires Owned(y)
    decreases |acts|
  {
    acts != [] ==> Permitted(y, acts[0]) && (StaysOwned(y, acts[0]); AllPermitted(Next(y, acts[0]), acts[1..]))
  }

  ghost function Run(y: System, acts: seq<Act>): (z: System)
    requires Owned(y) && AllPermitted(y, acts)
    ensures Owned(z)
    decreases |acts|
  {
    if acts == [] then y else (StaysOwned(y, acts[0]); Run(Next(y, acts[0]), acts[1..]))
  }

  /** Main result (memory isolation): over any run of the kernel and of any number of guests, in which
      the kernel does nothing for guest t and t does nothing itself, t reads the same words at all its
      addresses. */
  lemma {:induction false} MemoryIsolation(y: System, acts: seq<Act>, t: nat, gpa: PhysAddr, idx: nat)
    requires Owned(y) && AllPermitted(y, acts) && t < |y.m.spaces|
    requires forall a :: a in acts ==> !By(a, t)
    ensures t < |Run(y, acts).m.spaces| && GuestReads(Run(y, acts).m, t, gpa, idx) == GuestReads(y.m, t, gpa, idx)
    decreases |acts|
  {
    hide Sound, Mine, GuestReads, Permitted, Next, By;
    if acts != [] {
      StaysOwned(y, acts[0]);
      StepUndisturbed(y, acts[0], t, gpa, idx);
      MemoryIsolation(Next(y, acts[0]), acts[1..], t, gpa, idx);
    }
  }

  /** At boot nothing is mapped and nothing is owned. */
  lemma BootIsOwned(addrs: seq<PhysAddr>, mem: Memory)
    requires PoolValid(Pool(addrs, 0, mem))
    ensures Owned(System(Boot(addrs, mem), [], map[]))
  {
    BootRefines(addrs, mem);
    hide PoolValid, Refines;
  }

  // ----- what a guest stores it reads ------------------------------------------------------------------

  lemma StoreActs(y: System, s: nat, gpa: PhysAddr, i: nat, w: Word)
    requires Sound(y) && s < |y.m.spaces|
    ensures var z := Next(y, Store(s, gpa, i, w));
      match HostFrame(y.m, s, gpa)
      case None => z == y
      case Some(f) => z.m == Step(y.m, Scribble(f, i, w)) && z.views == ViewStep(y.m, y.views, Scribble(f, i, w))
  {
    hide HostFrame, Refines, MachineOk, Step, ViewStep;
  }

  lemma StoreStep(y: System, s: nat, gpa: PhysAddr, i: nat, w: Word)
    requires Owned(y) && s < |y.m.spaces| && i < 512 && HostFrame(y.m, s, gpa).Some?
    ensures var f, z := HostFrame(y.m, s, gpa).value, Next(y, Store(s, gpa, i, w));
      && f in y.m.pool.mem && |y.m.pool.mem[f]| == 512
      && z.m == y.m.(pool := y.m.pool.(mem := Write(y.m.pool.mem, f, i, w))) && z.views == y.views && Sound(z)
  {
    FrameIsOwned(y, s, gpa);
    var f := HostFrame(y.m, s, gpa).value;
    FramesAreWhole(y, f);
    StaysSound(y, Store(s, gpa, i, w));
    StoreActs(y, s, gpa, i, w);
    hide Refines, Mine, MachineOk, ViewStep, HostFrame, Next, Step, Write;
    ScribbleIs(y.m, y.views, f, i, w);
  }

  lemma ReadAfterWrite(m: Machine, m': Machine, f: PhysAddr, i: nat, w: Word, t: nat, at: PhysAddr, j: nat)
    requires f in m.pool.mem && i < |m.pool.mem[f]| && m'.pool.mem == Write(m.pool.mem, f, i, w)
    requires t < |m.spaces| && t < |m'.spaces| && HostFrame(m', t, at) == HostFrame(m, t, at)
    ensures GuestReads(m', t, at, j) == if HostFrame(m, t, at) == Some(f) && j == i then Some(w) else GuestReads(m, t, at, j)
  {
    hide HostFrame;
  }

  /** Main result: after a guest's store, every guest reads the stored word wherever its translation
      leads to the stored place, and what it read before everywhere else; a store without a
      translation changes nothing. */
  lemma StoreIsRead(y: System, s: nat, gpa: PhysAddr, i: nat, w: Word, t: nat, at: PhysAddr, j: nat)
    requires Owned(y) && s < |y.m.spaces| && t < |y.m.spaces| && i < 512
    ensures var z := Next(y, Store(s, gpa, i, w));
      && t < |z.m.spaces|
      && (HostFrame(y.m, s, gpa).None? ==> z == y)
      && (HostFrame(y.m, s, gpa).Some? ==>
            GuestReads(z.m, t, at, j) ==
              if HostFrame(y.m, t, at) == HostFrame(y.m, s, gpa) && j == i then Some(w) else GuestReads(y.m, t, at, j))
  {
    StoreActs(y, s, gpa, i, w);
    hide Next, HostFrame, GuestReads, PageOf, AddrOf, Step, ViewStep, Mine, Write, Refines, MachineOk;
    if HostFrame(y.m, s, gpa).Some? {
      StoreStep(y, s, gpa, i, w);
      var z := Next(y, Store(s, gpa, i, w));
      HostFrameIs(y, t, at);
      HostFrameIs(z, t, at);
      ReadAfterWrite(y.m, z.m, HostFrame(y.m, s, gpa).value, i, w, t, at, j);
    }
  }

  /** A guest reads its own store at every address of the page. */
  lemma OwnStoreIsRead(y: System, s: nat, gpa: PhysAddr, i: nat, w: Word, at: PhysAddr)
    requires Owned(y) && s < |y.m.spaces| && i < 512 && GuestReads(y.m, s, gpa, i).Some? && PageOf(at) == PageOf(gpa)
    ensures var z := Next(y, Store(s, gpa, i, w)); s < |z.m.spaces| && GuestReads(z.m, s, at, i) == Some(w)
  {
    StoreIsRead(y, s, gpa, i, w, s, at, i);
    HostFrameIs(y, s, gpa);
    HostFrameIs(y, s, at);
    hide Refines, MachineOk, Mine, Next, HostFrame, PageOf, AddrOf, Sound;
  }

  // ----- installing a guest --------------------------------------------------------------------------

  const LOAD_GPA: PhysAddr := Address(0x1000)
  /** Read, write, execute, write-back. */
  const GUEST_FLAGS: Flags := 0x37

  /** Copying an image into a frame, word by word. */
  function Loads(s: nat, f: PhysAddr, words: seq<Word>, k: nat): seq<Act>
    requires k <= |words|
    decreases |words| - k
  {
    if k == |words| then [] else [Load(s, f, k, words[k])] + Loads(s, f, words, k + 1)
  }

  /** A load changes one word of its frame and nothing else. */
  lemma LoadStep(y: System, s: nat, f: PhysAddr, i: nat, w: Word)
    requires Owned(y) && f in y.owner && y.owner[f] == s && i < 512
    ensures Permitted(y, Load(s, f, i, w)) && Owned(Next(y, Load(s, f, i, w)))
    ensures var z := Next(y, Load(s, f, i, w));
      && f in y.m.pool.mem && |y.m.pool.mem[f]| == 512
      && z.owner == y.owner && z.views == y.views && z.m.spaces == y.m.spaces && z.m.pool.next == y.m.pool.next
      && z.m.pool.addrs == y.m.pool.addrs && f in z.m.pool.mem && z.m.pool.mem[f] == y.m.pool.mem[f][i := w]
  {
    FramesAreWhole(y, f);
    StaysOwned(y, Load(s, f, i, w));
    hide Refines, Mine, MachineOk, ViewStep, Owned;
    ScribbleIs(y.m, y.views, f, i, w);
  }

  lemma ScribbleIs(m: Machine, views: seq<View>, f: PhysAddr, i: nat, w: Word)
    requires MachineOk(m) && |views| == |m.spaces| && f in m.others && f in m.pool.mem && i < |m.pool.mem[f]|
    ensures Step(m, Scribble(f, i, w)) == m.(pool := m.pool.(mem := Write(m.pool.mem, f, i, w)))
    ensures ViewStep(m, views, Scribble(f, i, w)) == views
  {
    hide MachineOk;
  }

  ghost predicate Filled(y: System, f: PhysAddr, words: seq<Word>, k: nat)
    requires k <= |words|
  {
    f in y.m.pool.mem && |y.m.pool.mem[f]| == 512 && forall j :: 0 <= j < k ==> |words| <= 512 && y.m.pool.mem[f][j] == words[j]
  }

  lemma {:induction false} LoadsFill(y: System, s: nat, f: PhysAddr, words: seq<Word>, k: nat)
    requires Owned(y) && f in y.owner && y.owner[f] == s && k <= |words| <= 512 && Filled(y, f, words, k)
    ensures AllPermitted(y, Loads(s, f, words, k))
    ensures var z := Run(y, Loads(s, f, words, k));
      && z.owner == y.owner && z.views == y.views && z.m.spaces == y.m.spaces
      && z.m.pool.next == y.m.pool.next && z.m.pool.addrs == y.m.pool.addrs && Filled(z, f, words, |words|)
    decreases |words| - k
  {
    hide Sound, Mine, Next, Permitted;
    if k < |words| {
      var a := Load(s, f, k, words[k]);
      LoadStep(y, s, f, k, words[k]);
      var rest := Loads(s, f, words, k + 1);
      assert Loads(s, f, words, k)[1..] == rest && Loads(s, f, words, k)[0] == a;
      LoadsFill(Next(y, a), s, f, words, k + 1);
    }
  }

  /** A new guest with an empty space, and a frame taken for it. */
  lemma Prepared(y: System)
    requires Owned(y) && y.m.pool.next + 2 <= |y.m.pool.addrs|
    ensures var n, f := |y.m.spaces|, y.m.pool.addrs[y.m.pool.next + 1];
      var z := Next(y, Start);
      && Owned(z) && Permitted(z, Take(n))
      && var u := Next(z, Take(n));
      && Owned(u) && |u.m.spaces| == n + 1 && f in u.owner && u.owner[f] == n
      && u.m.pool.next == y.m.pool.next + 2 && u.m.pool.addrs == y.m.pool.addrs && Filled(u, f, [], 0)
  {
    hide Sound, Mine, Next, Permitted;
    StartStep(y);
    TakeStep(Next(y, Start), |y.m.spaces|);
    FramesAreWhole(Next(Next(y, Start), Take(|y.m.spaces|)), y.m.pool.addrs[y.m.pool.next + 1]);
  }

  lemma StartStep(y: System)
    requires Owned(y) && y.m.pool.next < |y.m.pool.addrs|
    ensures var z := Next(y, Start);
      Owned(z) && |z.m.spaces| == |y.m.spaces| + 1 && z.m.pool.next == y.m.pool.next + 1 && z.m.pool.addrs == y.m.pool.addrs
  {
    StaysOwned(y, Start);
    hide Refines, Mine, MachineOk, Owned, ViewStep;
  }

  lemma TakeStep(z: System, n: nat)
    requires Owned(z) && n < |z.m.spaces| && z.m.pool.next < |z.m.pool.addrs|
    ensures Permitted(z, Take(n))
    ensures var u, f := Next(z, Take(n)), z.m.pool.addrs[z.m.pool.next];
      && Owned(u) && |u.m.spaces| == |z.m.spaces| && u.m.pool.next == z.m.pool.next + 1 && u.m.pool.addrs == z.m.pool.addrs
      && f in u.owner && u.owner[f] == n
  {
    StaysOwned(z, Take(n));
    hide Refines, Mine, MachineOk, Owned, ViewStep;
  }

  lemma FramesAreWhole(u: System, f: PhysAddr)
    requires Owned(u) && f in u.owner
    ensures f in u.m.others && f in u.m.pool.mem && |u.m.pool.mem[f]| == 512 && Aligned(f)
  {
    hide Refines, Mine, SpaceOk, AllApart, Accounted, Aligned, Fits52, Zeroed;
    var k :| 0 <= k < |u.m.pool.addrs| && u.m.pool.addrs[k] == f;
  }

  lemma LoadPageIsGood(f: PhysAddr)
    requires Aligned(f)
    ensures CanMap(LOAD_GPA, f, GUEST_FLAGS)
  {}

  lemma MissingAtMostThree(tables: Tables, path: seq<nat>)
    requires |path| == 4
    ensures Missing(tables, path, 0) <= 3
  {
    assert Missing(tables, path, 3) == 0;
  }

  /** Mapping the loaded frame succeeds, and the guest reads its image at the load address. */
  lemma AttachShows(y: System, n: nat, f: PhysAddr, words: seq<Word>, k: nat)
    requires Owned(y) && n < |y.m.spaces| && f in y.owner && y.owner[f] == n && |words| <= 512 && Filled(y, f, words, |words|)
    requires y.m.pool.next + 3 <= |y.m.pool.addrs| && k < |words|
    ensures var a := Attach(n, LOAD_GPA, f, GUEST_FLAGS);
      Permitted(y, a) && n < |Next(y, a).m.spaces| && GuestReads(Next(y, a).m, n, LOAD_GPA, k) == Some(words[k])
  {
    var a, op := Attach(n, LOAD_GPA, f, GUEST_FLAGS), MapOne(n, LOAD_GPA, f, GUEST_FLAGS);
    hide Refines, MachineOk, Mine, HostFrame, AddrOf, LeafEntry, PageOf, PathOf, Step, Missing, CanMap, Aligned, Fits52;
    FramesAreWhole(y, f);
    AttachSucceeds(y, n, f);
    StaysSound(y, a);
    OthersKept(y.m, op);
    HostFrameIs(Next(y, a), n, LOAD_GPA);
  }

  lemma AttachSucceeds(y: System, n: nat, f: PhysAddr)
    requires Sound(y) && n < |y.m.spaces| && y.m.pool.next + 3 <= |y.m.pool.addrs| && Aligned(f)
    ensures Succeeds(y.m, MapOne(n, LOAD_GPA, f, GUEST_FLAGS)) && AddrOf(LeafEntry(f, GUEST_FLAGS)) == f
  {
    LoadPageIsGood(f);
    LeafEntryRoundTrip(f, GUEST_FLAGS);
    MissingAtMostThree(y.m.spaces[n].tables, PathOf(LOAD_GPA));
    hide PathOf, Missing, Refines, MachineOk, AddrOf, LeafEntry, CanMap, Aligned;
  }

  /** Main result: on any system with five frames left, installing a guest (space, frame, image,
      mapping) is all permitted, and the guest then reads its image at the load address. */
  lemma InstalledGuestReadsItsImage(y: System, words: seq<Word>, k: nat)
    requires Owned(y) && y.m.pool.next + 5 <= |y.m.pool.addrs| && k < |words| <= 512
    ensures var n, f := |y.m.spaces|, y.m.pool.addrs[y.m.pool.next + 1];
      && Owned(Next(y, Start)) && Permitted(Next(y, Start), Take(n))
      && var u := Next(Next(y, Start), Take(n));
      && Owned(u) && AllPermitted(u, Loads(n, f, words, 0))
      && var v := Run(u, Loads(n, f, words, 0));
      && Permitted(v, Attach(n, LOAD_GPA, f, GUEST_FLAGS))
      && var w := Next(v, Attach(n, LOAD_GPA, f, GUEST_FLAGS));
      && n < |w.m.spaces| && GuestReads(w.m, n, LOAD_GPA, k) == Some(words[k])
  {
    hide Sound, Mine, Next, Permitted, GuestReads;
    var n, f := |y.m.spaces|, y.m.pool.addrs[y.m.pool.next + 1];
    Prepared(y);
    var u := Next(Next(y, Start), Take(n));
    LoadsFill(u, n, f, words, 0);
    AttachShows(Run(u, Loads(n, f, words, 0)), n, f, words, k);
  }
}
