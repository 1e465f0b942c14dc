/** The whole gossip fabric: any number of nodes, a network that may lose, repeat and reorder
    frames, and nodes that restart with a higher epoch. */
module Gossip {
  import opened Wrappers
  import opened Membership
  import opened Federation
  import opened Mesh
  import FailureDetector

  /** The network holds every frame ever sent. published collects every row a node installed as
      its own; heard and told are, per running node, the VM rows and the membership rows it was handed
      since it started. */
  datatype System = System(nodes: map<NodeId, Node>, net: set<Frame>, published: set<RemoteVm>,
                           heard: map<NodeId, seq<RemoteVm>>, told: map<NodeId, seq<NodeInfo>>)

  datatype Action =
    | Start(id: NodeId, cluster: string, addr: string, epoch: nat, now: nat)
    | Publish(id: NodeId, rows: seq<RemoteVm>, now: nat)
    | Send(id: NodeId, frame: Frame)
    | Deliver(id: NodeId, frame: Frame, now: nat)
    | Detect(id: NodeId, limits: Timeouts, now: nat)
    | Look(id: NodeId, alive: set<NodeId>)

  const EMPTY: System := System(map[], {}, {}, map[], map[])

  /** A restart must use a higher epoch; only sent frames arrive. */
  ghost predicate Enabled(s: System, a: Action) {
    match a
    case Start(id, _, _, epoch, _) => id in s.nodes ==> epoch > s.nodes[id].epoch
    case Send(id, f) => id in s.nodes && NodeOk(s.nodes[id]) && Emits(TickHlc(s.nodes[id]), f)
    case Deliver(id, f, _) => id in s.nodes && f in s.net
    case Publish(id, _, _) => id in s.nodes
    case Detect(id, _, _) => id in s.nodes
    case Look(id, _) => id in s.nodes
  }

  function FrameVms(f: Frame, n: Node): seq<RemoteVm> {
    if f.cluster == n.cluster && f.payload.Sync? then f.payload.vms else []
  }

  function FrameNodes(f: Frame, n: Node): seq<NodeInfo> { if f.cluster == n.cluster then NodesIn(f) else [] }

  function Next(s: System, a: Action): System
    requires Enabled(s, a)
  {
    match a
    case Start(id, cluster, addr, epoch, now) =>
      s.(nodes := s.nodes[id := Started(cluster, id, addr, epoch, now)], heard := s.heard[id := []], told := s.told[id := []])
    case Publish(id, rows, now) =>
      var n := Published(s.nodes[id], rows, now);
      s.(nodes := s.nodes[id := n], published := s.published + Local(id, n.vms).Values)
    case Send(id, f) => s.(nodes := s.nodes[id := TickHlc(s.nodes[id])], net := s.net + {f})
    case Deliver(id, f, now) =>
      var n := s.nodes[id];
      s.(nodes := s.nodes[id := Received(n, f, now)],
         heard := s.heard[id := (if id in s.heard then s.heard[id] else []) + FrameVms(f, n)],
         told := s.told[id := (if id in s.told then s.told[id] else []) + FrameNodes(f, n)])
    case Detect(id, limits, now) =>
      var n := s.nodes[id];
      s.(nodes := s.nodes[id := n.(table := Ticked(n.table, now, limits))])
    case Look(id, alive) =>
      var n := s.nodes[id];
      s.(nodes := s.nodes[id := n.(vms := Refreshed(id, n.vms, alive))])
  }

  // ----- the invariant -----------------------------------------------------------------------

  /** The owner has already reached this stamp. */
  ghost predicate Reached(s: System, id: NodeId, epoch: nat, hlc: nat) {
    id in s.nodes && !Above(epoch, hlc, s.nodes[id].epoch, s.nodes[id].hlc)
  }

  ghost predicate InfoOk(s: System, r: NodeInfo) { Reached(s, r.id, r.epoch, r.hlc) }

  ghost predicate VmOk(s: System, v: RemoteVm) { Carried(v) in s.published && Reached(s, v.owner, v.epoch, v.hlc) }

  ghost predicate TableOk(s: System, t: Table) { forall id :: id in t.rows ==> InfoOk(s, t.rows[id]) }

  ghost predicate VmsOk(s: System, rows: Rows) { forall k :: k in rows ==> VmOk(s, rows[k]) }

  ghost predicate FrameOk(s: System, f: Frame) {
    match f.payload
    case Hello(row) => InfoOk(s, row)
    case Sync(nodes, vms) => (forall r :: r in nodes ==> InfoOk(s, r)) && (forall v :: v in vms ==> VmOk(s, v))
    case Goodbye => true
  }

  /** Foreign rows are what merging the heard rows from nothing gives, up to liveness. */
  ghost predicate SameForeign(self: NodeId, a: Rows, b: Rows) {
    && (forall k :: k in a && k.owner != self <==> k in b && k.owner != self)
    && (forall k :: k in a && k.owner != self ==> Carried(a[k]) == Carried(b[k]))
  }

  ghost predicate NodeInv(s: System, id: NodeId)
    requires id in s.nodes
  {
    var n := s.nodes[id];
    && n.id == id && NodeOk(n)
    && TableOk(s, n.table) && VmsOk(s, n.vms)
    && n.table.rows[id].epoch == n.epoch && n.table.rows[id].id == id
    && id in s.heard && (forall v :: v in s.heard[id] ==> VmOk(s, v))
    && SameForeign(id, n.vms, MergedVms(id, map[], s.heard[id]))
  }

  ghost predicate ActorOk(s: System, id: NodeId) { id in s.nodes && NodeInv(s, id) }

  ghost predicate PublishedOk(s: System) {
    && (forall v :: v in s.published ==> v.ownerAlive && Reached(s, v.owner, v.epoch, v.hlc))
    && OneContent(s.published)
  }

  ghost predicate Inv(s: System) {
    && (forall id :: id in s.nodes ==> NodeInv(s, id))
    && (forall f :: f in s.net ==> FrameOk(s, f))
    && PublishedOk(s)
  }

  // ----- growth: what was reached or published stays so ------------------------------------------

  ghost predicate Grew(s: System, t: System) {
    && s.published <= t.published
    && forall id :: id in s.nodes ==> id in t.nodes && !Above(s.nodes[id].epoch, s.nodes[id].hlc, t.nodes[id].epoch, t.nodes[id].hlc)
  }

  lemma GrewKeeps(s: System, t: System)
    requires Grew(s, t)
    ensures forall r :: InfoOk(s, r) ==> InfoOk(t, r)
    ensures forall v :: VmOk(s, v) ==> VmOk(t, v)
    ensures forall f :: FrameOk(s, f) ==> FrameOk(t, f)
    ensures forall u :: TableOk(s, u) ==> TableOk(t, u)
    ensures forall rows :: VmsOk(s, rows) ==> VmsOk(t, rows)
  {}

  lemma StepGrows(s: System, a: Action)
    requires Enabled(s, a)
    ensures Grew(s, Next(s, a))
  {}

  // ----- every step keeps the invariant ------------------------------------------------------------

  lemma BystanderKeeps(s: System, t: System, id: NodeId)
    requires Grew(s, t) && id in s.nodes && NodeInv(s, id)
    requires id in t.nodes && t.nodes[id] == s.nodes[id] && id in t.heard && t.heard[id] == s.heard[id]
    ensures NodeInv(t, id)
  {
    GrewKeeps(s, t);
    hide SameForeign, NodeOk, TableOk, VmsOk, VmOk, MergedVms;
  }

  /** Only one node and what it heard changed. */
  ghost predicate OnlyActed(s: System, t: System, id: NodeId) {
    && t.nodes.Keys == s.nodes.Keys + {id}
    && (forall j :: j in s.nodes && j != id ==> t.nodes[j] == s.nodes[j])
    && (forall j :: j in s.heard && j != id ==> j in t.heard && t.heard[j] == s.heard[j])
  }

  lemma StepActsAlone(s: System, a: Action)
    requires Enabled(s, a)
    ensures OnlyActed(s, Next(s, a), a.id)
  {}

  /** A step that leaves its actor in order, and adds at most frames that are. */
  lemma InvFromActor(s: System, t: System, id: NodeId)
    requires Inv(s) && Grew(s, t) && OnlyActed(s, t, id)
    requires id in t.nodes && NodeInv(t, id)
    requires forall f :: f in t.net && f !in s.net ==> FrameOk(t, f)
    requires PublishedOk(t)
    ensures Inv(t)
  {
    GrewKeeps(s, t);
    forall j | j in t.nodes
      ensures NodeInv(t, j)
    {
      if j != id {
        assert NodeInv(s, j);
        HeardThere(s, j);
        BystanderKeeps(s, t, j);
      }
    }
    hide NodeInv, FrameOk, PublishedOk;
  }

  lemma HeardThere(s: System, id: NodeId)
    requires id in s.nodes && NodeInv(s, id)
    ensures id in s.heard
  {}

  lemma PublishedKeeps(s: System, t: System)
    requires PublishedOk(s) && Grew(s, t) && t.published == s.published
    ensures PublishedOk(t)
  {}

  lemma StartedNode(s: System, a: Action)
    requires Enabled(s, a) && a.Start?
    ensures ActorOk(Next(s, a), a.id)
  {
    var t := Next(s, a);
    var n := t.nodes[a.id];
    assert n.table.rows.Keys == {a.id} && TableOk(t, n.table);
    assert MergedVms(a.id, map[], []) == map[];
    hide VmOk, MergedVm, InfoOk;
  }

  lemma MergedOk(s: System, t: Table, r: NodeInfo, now: nat)
    requires TableOk(s, t) && InfoOk(s, r) && WellKept(t)
    ensures TableOk(s, Merged(t, r, now)) && WellKept(Merged(t, r, now))
    ensures Merged(t, r, now).self == t.self && Merged(t, r, now).rows[t.self] == t.rows[t.self]
  {
    hide InfoOk;
  }

  lemma {:induction false} MergedAllOk(s: System, t: Table, rs: seq<NodeInfo>, now: nat)
    requires TableOk(s, t) && (forall r :: r in rs ==> InfoOk(s, r)) && WellKept(t)
    ensures var u := MergedAll(t, rs, now);
      TableOk(s, u) && WellKept(u) && u.self == t.self && u.rows[t.self] == t.rows[t.self]
    decreases rs
  {
    hide InfoOk, TableOk, Merged;
    if rs != [] {
      MergedOk(s, t, rs[0], now);
      MergedAllOk(s, Merged(t, rs[0], now), rs[1..], now);
    }
  }

  lemma {:induction false} MergedVmsOk(s: System, self: NodeId, rows: Rows, vs: seq<RemoteVm>)
    requires VmsOk(s, rows) && Keyed(rows) && forall v :: v in vs ==> VmOk(s, v)
    ensures VmsOk(s, MergedVms(self, rows, vs)) && Keyed(MergedVms(self, rows, vs))
    ensures Local(self, MergedVms(self, rows, vs)) == Local(self, rows)
    decreases vs
  {
    if vs != [] {
      CarriedOk(s, vs[0]);
      hide VmOk;
      MergedVmsOk(s, self, MergedVm(self, rows, vs[0]), vs[1..]);
      assert Local(self, MergedVm(self, rows, vs[0])) == Local(self, rows);
    }
  }

  lemma CarriedOk(s: System, v: RemoteVm)
    requires VmOk(s, v)
    ensures VmOk(s, Carried(v))
  {}

  lemma SameForeignStep(self: NodeId, a: Rows, b: Rows, v: RemoteVm)
    requires SameForeign(self, a, b)
    ensures SameForeign(self, MergedVm(self, a, v), MergedVm(self, b, v))
  {
    var k := KeyOf(v);
    if k.owner != self && k in a {
      assert Carried(a[k]) == Carried(b[k]);
    }
  }

  lemma {:induction false} SameForeignAll(self: NodeId, a: Rows, b: Rows, vs: seq<RemoteVm>)
    requires SameForeign(self, a, b)
    ensures SameForeign(self, MergedVms(self, a, vs), MergedVms(self, b, vs))
    decreases vs
  {
    hide SameForeign, MergedVm;
    if vs != [] {
      SameForeignStep(self, a, b, vs[0]);
      SameForeignAll(self, MergedVm(self, a, vs[0]), MergedVm(self, b, vs[0]), vs[1..]);
    }
  }

  lemma {:induction false} MergedVmsConcat(self: NodeId, rows: Rows, vs: seq<RemoteVm>, ws: seq<RemoteVm>)
    ensures MergedVms(self, rows, vs + ws) == MergedVms(self, MergedVms(self, rows, vs), ws)
    decreases vs
  {
    hide MergedVm;
    if vs == [] {
      assert vs + ws == ws;
    } else {
      assert (vs + ws)[1..] == vs[1..] + ws;
      MergedVmsConcat(self, MergedVm(self, rows, vs[0]), vs[1..], ws);
    }
  }

  /** What a received frame may do to a node. */
  ghost predicate Absorbed(s: System, n: Node, m: Node, vs: seq<RemoteVm>) {
    && NodeOk(n) && NodeOk(m) && TableOk(s, m.table) && VmsOk(s, m.vms)
    && m == n.(table := m.table, vms := m.vms)
    && m.table.rows[n.id] == n.table.rows[n.id]
    && m.vms == MergedVms(n.id, n.vms, vs) && Local(n.id, m.vms) == Local(n.id, n.vms)
    && (forall v :: v in vs ==> VmOk(s, v))
  }

  lemma ReceivedOk(s: System, n: Node, f: Frame, now: nat)
    requires NodeOk(n) && TableOk(s, n.table) && VmsOk(s, n.vms) && FrameOk(s, f)
    ensures Absorbed(s, n, Received(n, f, now), FrameVms(f, n))
  {
    hide InfoOk, VmOk, TableOk, VmsOk, Merged, MergedVm;
    assert MergedVms(n.id, n.vms, []) == n.vms;
    if f.cluster == n.cluster {
      match f.payload
      case Hello(row) => MergedOk(s, n.table, row, now);
      case Sync(nodes, vms) =>
        MergedAllOk(s, n.table, nodes, now);
        MergedVmsOk(s, n.id, n.vms, vms);
        hide MergedAll, MergedVms;
      case Goodbye => LeftOk(s, n.table, f.from);
    }
  }

  lemma LeftOk(s: System, t: Table, id: NodeId)
    requires TableOk(s, t) && WellKept(t)
    ensures TableOk(s, MarkedLeft(t, id)) && WellKept(MarkedLeft(t, id)) && MarkedLeft(t, id).self == t.self
    ensures MarkedLeft(t, id).rows[t.self] == t.rows[t.self]
  {}

  lemma DeliverEffect(s: System, a: Action)
    requires Enabled(s, a) && a.Deliver?
    ensures a.id in Next(s, a).nodes && Next(s, a).nodes[a.id] == Received(s.nodes[a.id], a.frame, a.now)
    ensures a.id in s.heard ==> a.id in Next(s, a).heard && Next(s, a).heard[a.id] == s.heard[a.id] + FrameVms(a.frame, s.nodes[a.id])
  {
    hide Received, FrameVms;
  }

  lemma DeliveredNode(s: System, a: Action)
    requires Enabled(s, a) && a.Deliver? && ActorOk(s, a.id) && FrameOk(s, a.frame)
    ensures ActorOk(Next(s, a), a.id)
  {
    var t := Next(s, a);
    var id := a.id;
    var n := s.nodes[id];
    StepGrows(s, a);
    DeliverEffect(s, a);
    var m, vs := t.nodes[id], FrameVms(a.frame, n);
    hide Next, Enabled, Received, FrameVms, VmOk, TableOk, VmsOk, InfoOk, FrameOk, SameForeign, MergedVms, Local, NodeOk, Grew;
    ReceivedOk(s, n, a.frame, a.now);
    GrewKeeps(s, t);
    SameForeignAll(id, n.vms, MergedVms(id, map[], s.heard[id]), vs);
    MergedVmsConcat(id, map[], s.heard[id], vs);
  }

  lemma QuietFacts(s: System, a: Action)
    requires Enabled(s, a) && !a.Publish? && !a.Send?
    ensures var t := Next(s, a); t.net == s.net && t.published == s.published && a.id in t.nodes
  {
    hide Received, Published;
  }

  /** Steps other than publishing and sending. */
  lemma QuietKeeps(s: System, a: Action)
    requires Inv(s) && Enabled(s, a) && !a.Publish? && !a.Send? && ActorOk(Next(s, a), a.id)
    ensures Inv(Next(s, a))
  {
    hide NodeInv, FrameOk, OnlyActed, Grew, Enabled, Next, PublishedOk;
    var t := Next(s, a);
    StepGrows(s, a);
    StepActsAlone(s, a);
    QuietFacts(s, a);
    PublishedKeeps(s, t);
    InvFromActor(s, t, a.id);
  }

  /** What the acting node became, where the step only changes that node. */
  lemma StepEffect(s: System, a: Action)
    requires Enabled(s, a) && !a.Start? && !a.Deliver?
    ensures var t := Next(s, a);
      var n := s.nodes[a.id];
      && a.id in t.nodes && t.heard == s.heard
      && t.net == (if a.Send? then s.net + {a.frame} else s.net)
      && t.published == (if a.Publish? then s.published + Local(a.id, t.nodes[a.id].vms).Values else s.published)
      && t.nodes[a.id] == match a
                          case Publish(_, rows, now) => Published(n, rows, now)
                          case Send(_, _) => TickHlc(n)
                          case Detect(_, limits, now) => n.(table := Ticked(n.table, now, limits))
                          case Look(_, alive) => n.(vms := Refreshed(a.id, n.vms, alive))
  {
    hide Published, Ticked, Refreshed, Local;
  }

  /** A node's invariant from its parts. */
  lemma NodeInvFrom(s: System, t: System, id: NodeId)
    requires id in s.nodes && NodeInv(s, id) && Grew(s, t)
    requires id in t.nodes && t.heard == s.heard
    requires var n, m := s.nodes[id], t.nodes[id];
      && m.id == n.id && m.epoch == n.epoch && NodeOk(m) && TableOk(t, m.table) && VmsOk(t, m.vms)
      && m.table.rows[id].epoch == n.table.rows[id].epoch
      && SameForeign(id, m.vms, MergedVms(id, map[], s.heard[id]))
    ensures NodeInv(t, id)
  {
    GrewKeeps(s, t);
    hide TableOk, VmsOk, VmOk, SameForeign, MergedVms, Grew, FrameOk, InfoOk;
  }

  lemma TickedOk(s: System, t: Table, now: nat, limits: Timeouts)
    requires WellKept(t) && TableOk(s, t)
    ensures var u := Ticked(t, now, limits);
      WellKept(u) && TableOk(s, u) && u.self == t.self && u.rows[t.self] == t.rows[t.self]
  {
    hide Classify;
  }

  lemma TickedNode(s: System, a: Action)
    requires Enabled(s, a) && a.Detect? && ActorOk(s, a.id)
    ensures ActorOk(Next(s, a), a.id)
  {
    var t := Next(s, a);
    var id := a.id;
    StepGrows(s, a);
    StepEffect(s, a);
    hide Next, Enabled, SameForeign, MergedVms, VmOk, InfoOk, Grew, Ticked, TableOk, VmsOk;
    TickedOk(s, s.nodes[id].table, a.now, a.limits);
    GrewKeeps(s, t);
    NodeInvFrom(s, t, id);
  }

  lemma RefreshedOk(s: System, id: NodeId, rows: Rows, alive: set<NodeId>, c: Rows)
    requires Keyed(rows) && VmsOk(s, rows) && SameForeign(id, rows, c)
    ensures var u := Refreshed(id, rows, alive);
      Keyed(u) && VmsOk(s, u) && SameForeign(id, u, c)
  {
    var u := Refreshed(id, rows, alive);
    assert forall k :: k in rows ==> k in u && Carried(u[k]) == Carried(rows[k]);
  }

  lemma LookedNode(s: System, a: Action)
    requires Enabled(s, a) && a.Look? && ActorOk(s, a.id)
    ensures ActorOk(Next(s, a), a.id)
  {
    var t := Next(s, a);
    var id := a.id;
    StepGrows(s, a);
    StepEffect(s, a);
    hide Next, Enabled, SameForeign, MergedVms, VmOk, InfoOk, Grew, Refreshed, TableOk, VmsOk;
    RefreshedOk(s, id, s.nodes[id].vms, a.alive, MergedVms(id, map[], s.heard[id]));
    GrewKeeps(s, t);
    NodeInvFrom(s, t, id);
  }

  // ----- sending -----------------------------------------------------------------------------------

  lemma SelfRowReached(s: System, id: NodeId)
    requires id in s.nodes && NodeInv(s, id)
    ensures InfoOk(s, SelfRow(s.nodes[id]))
  {}

  lemma EmittedOk(s: System, id: NodeId, f: Frame)
    requires id in s.nodes && NodeInv(s, id) && Emits(s.nodes[id], f)
    ensures FrameOk(s, f)
  {
    var n := s.nodes[id];
    SelfRowReached(s, id);
    hide VmOk, InfoOk, SameForeign;
    match f.payload
    case Hello(row) =>
    case Goodbye =>
    case Sync(nodes, vms) =>
      forall r | r in nodes
        ensures InfoOk(s, r)
      {
        var j :| j in Advertised(n) && Advertised(n)[j] == r;
      }
      forall v | v in vms
        ensures VmOk(s, v)
      {
        var k :| k in Local(id, n.vms) && Local(id, n.vms)[k] == v;
      }
  }

  lemma ClockedNode(s: System, a: Action)
    requires Enabled(s, a) && a.Send? && ActorOk(s, a.id)
    ensures ActorOk(Next(s, a), a.id)
  {
    var t := Next(s, a);
    StepGrows(s, a);
    StepEffect(s, a);
    hide Next, Enabled, SameForeign, MergedVms, VmOk, InfoOk, Grew, TableOk, VmsOk;
    GrewKeeps(s, t);
    NodeInvFrom(s, t, a.id);
  }

  lemma SendFacts(s: System, a: Action)
    requires Inv(s) && Enabled(s, a) && a.Send?
    ensures ActorOk(s, a.id) && a.id in Next(s, a).nodes && Next(s, a).nodes[a.id] == TickHlc(s.nodes[a.id])
    ensures Next(s, a).net == s.net + {a.frame} && Next(s, a).published == s.published
    ensures a.id in TickHlc(s.nodes[a.id]).table.rows && Emits(TickHlc(s.nodes[a.id]), a.frame)
  {
    StepEffect(s, a);
    hide Next, FrameOk;
  }

  lemma SendKeeps(s: System, a: Action)
    requires Inv(s) && Enabled(s, a) && a.Send?
    ensures Inv(Next(s, a))
  {
    hide FrameOk, OnlyActed, Grew, Enabled, Next, Emits, NodeInv, PublishedOk;
    var t := Next(s, a);
    StepGrows(s, a);
    StepActsAlone(s, a);
    SendFacts(s, a);
    ClockedNode(s, a);
    EmittedOk(t, a.id, a.frame);
    PublishedKeeps(s, t);
    InvFromActor(s, t, a.id);
  }

  // ----- publishing -----------------------------------------------------------------------------------

  lemma {:induction false} OwnRowsStamped(n: Node, vs: seq<RemoteVm>)
    ensures var own := OwnRows(n.id, StampAll(n, vs));
      forall k :: k in own ==>
        && KeyOf(own[k]) == k && k.owner == n.id && own[k].ownerAlive
        && own[k].epoch == n.epoch && own[k].hlc == n.hlc
    decreases |vs|
  {
    if vs != [] {
      var rest := vs[..|vs| - 1];
      OwnRowsStamped(n, rest);
      assert StampAll(n, vs)[..|vs| - 1] == StampAll(n, rest);
    }
  }

  lemma PublishedRows(n: Node, vs: seq<RemoteVm>, now: nat)
    requires NodeOk(n)
    ensures var m := Published(n, vs, now);
      && Local(n.id, m.vms) == OwnRows(n.id, StampAll(TickHlc(n), vs))
      && Foreign(n.id, m.vms) == Foreign(n.id, n.vms)
      && Keyed(m.vms)
  {
    OwnRowsStamped(TickHlc(n), vs);
    hide OwnRows, StampAll;
  }

  /** The newly published rows: the node's own, all under its new stamp, one per key. */
  ghost predicate UnderOneStamp(vs: set<RemoteVm>, id: NodeId, epoch: nat, hlc: nat) {
    && (forall v :: v in vs ==> v.owner == id && v.ownerAlive && v.epoch == epoch && v.hlc == hlc)
    && (forall v, w :: v in vs && w in vs && KeyOf(v) == KeyOf(w) ==> v == w)
  }

  lemma NewContent(s: System, t: System, id: NodeId, vs: set<RemoteVm>, epoch: nat, hlc: nat)
    requires PublishedOk(s) && Grew(s, t) && t.published == s.published + vs
    requires id in s.nodes && s.nodes[id].epoch == epoch && s.nodes[id].hlc < hlc && UnderOneStamp(vs, id, epoch, hlc)
    requires Reached(t, id, epoch, hlc)
    ensures PublishedOk(t)
  {
    assert forall v :: v in s.published && v.owner == id ==> v.epoch != epoch || v.hlc != hlc by {
      forall v | v in s.published && v.owner == id
        ensures v.epoch != epoch || v.hlc != hlc
      {
        assert Reached(s, v.owner, v.epoch, v.hlc);
      }
    }
    assert OneContent(s.published);
  }

  lemma OwnRowsUnderOneStamp(n: Node, vs: seq<RemoteVm>)
    ensures UnderOneStamp(OwnRows(n.id, StampAll(n, vs)).Values, n.id, n.epoch, n.hlc)
  {
    OwnRowsStamped(n, vs);
    hide OwnRows, StampAll;
  }

  lemma PublishContent(s: System, a: Action)
    requires PublishedOk(s) && Enabled(s, a) && a.Publish? && ActorOk(s, a.id)
    ensures PublishedOk(Next(s, a))
  {
    var t := Next(s, a);
    var id := a.id;
    var n := s.nodes[id];
    StepGrows(s, a);
    StepEffect(s, a);
    assert NodeOk(n) && n.id == id;
    assert t.nodes[id].epoch == n.epoch && t.nodes[id].hlc == n.hlc + 1;
    hide Next, Enabled, NodeInv, Grew, PublishedOk, UnderOneStamp;
    PublishedRows(n, a.rows, a.now);
    OwnRowsUnderOneStamp(TickHlc(n), a.rows);
    hide Published, OwnRows, StampAll, Local;
    NewContent(s, t, id, OwnRows(id, StampAll(TickHlc(n), a.rows)).Values, n.epoch, n.hlc + 1);
  }

  lemma BumpedOk(s: System, t: System, n: Node, now: nat)
    requires Grew(s, t) && TableOk(s, n.table) && WellKept(n.table) && n.table.self == n.id
    requires n.id in s.nodes && s.nodes[n.id] == n && n.table.rows[n.id].epoch == n.epoch
    requires Reached(t, n.id, n.epoch, n.hlc + 1)
    ensures var u := Bumped(n.table, n.hlc + 1, now);
      WellKept(u) && TableOk(t, u) && u.self == n.id && u.rows[n.id].epoch == n.epoch
  {
    assert InfoOk(s, n.table.rows[n.id]);
    GrewKeeps(s, t);
    hide Grew;
  }

  lemma PublishedVmsOk(s: System, t: System, id: NodeId, prior: Rows, rows: Rows)
    requires VmsOk(s, prior) && Grew(s, t) && Foreign(id, rows) == Foreign(id, prior)
    requires forall v :: v in Local(id, rows).Values ==> VmOk(t, v)
    ensures VmsOk(t, rows)
  {
    GrewKeeps(s, t);
    hide Grew, VmOk;
    ForeignAndLocal(id, rows);
    ForeignAndLocal(id, prior);
    forall k | k in rows
      ensures VmOk(t, rows[k])
    {
      if k.owner == id {
        assert Local(id, rows)[k] in Local(id, rows).Values;
      } else {
        assert k in Foreign(id, prior) && prior[k] == rows[k];
      }
    }
  }

  lemma PublishedNode(s: System, a: Action)
    requires Enabled(s, a) && a.Publish? && ActorOk(s, a.id) && PublishedOk(Next(s, a))
    ensures ActorOk(Next(s, a), a.id)
  {
    var t := Next(s, a);
    var id := a.id;
    var n := s.nodes[id];
    StepGrows(s, a);
    StepEffect(s, a);
    var m := t.nodes[id];
    assert m.table == Bumped(n.table, n.hlc + 1, a.now) && m.id == id && m.epoch == n.epoch && m.hlc == n.hlc + 1;
    assert forall v :: v in Local(id, m.vms).Values ==> v in t.published;
    assert forall v :: v in t.published ==> VmOk(t, v);
    hide Next, Enabled, SameForeign, MergedVms, VmOk, Grew, TableOk, VmsOk, PublishedOk;
    PublishedRows(n, a.rows, a.now);
    hide Published, OwnRows, StampAll, Local, Foreign;
    BumpedOk(s, t, n, a.now);
    hide Bumped, InfoOk;
    PublishedVmsOk(s, t, id, n.vms, m.vms);
    ForeignDecides(id, m.vms, n.vms, MergedVms(id, map[], s.heard[id]));
    NodeInvFrom(s, t, id);
  }

  lemma ForeignAndLocal(self: NodeId, rows: Rows)
    ensures forall k :: k in rows ==> if k.owner == self then k in Local(self, rows) && Local(self, rows)[k] == rows[k]
                                      else k in Foreign(self, rows) && Foreign(self, rows)[k] == rows[k]
  {}

  lemma ForeignDecides(self: NodeId, a: Rows, b: Rows, c: Rows)
    requires Foreign(self, a) == Foreign(self, b) && SameForeign(self, b, c)
    ensures SameForeign(self, a, c)
  {
    ForeignAndLocal(self, a);
    ForeignAndLocal(self, b);
    forall k: Key | k.owner != self
      ensures k in a <==> k in b
      ensures k in a ==> a[k] == b[k]
    {
      assert k in a <==> k in Foreign(self, a);
      assert k in b <==> k in Foreign(self, b);
    }
  }

  lemma PublishKeeps(s: System, a: Action)
    requires Inv(s) && Enabled(s, a) && a.Publish?
    ensures Inv(Next(s, a))
  {
    var t := Next(s, a);
    StepGrows(s, a);
    StepActsAlone(s, a);
    StepEffect(s, a);
    assert NodeInv(s, a.id);
    PublishContent(s, a);
    PublishedNode(s, a);
    hide FrameOk, OnlyActed, Grew, Enabled, Next, NodeInv, PublishedOk;
    InvFromActor(s, t, a.id);
  }

  lemma ActorThere(s: System, a: Action)
    requires Enabled(s, a) && !a.Start?
    ensures a.id in s.nodes && (a.Deliver? ==> a.frame in s.net)
  {}

  lemma FrameInvAt(s: System, f: Frame)
    requires Inv(s) && f in s.net
    ensures FrameOk(s, f)
  {}

  lemma StepKeepsInv(s: System, a: Action)
    requires Inv(s) && Enabled(s, a)
    ensures Inv(Next(s, a))
  {
    hide Enabled, NodeInv, Next, FrameOk, PublishedOk;
    if !a.Start? { ActorThere(s, a); }
    match a
    case Start(_, _, _, _, _) => StartedNode(s, a); QuietKeeps(s, a);
    case Publish(_, _, _) => PublishKeeps(s, a);
    case Send(_, _) => SendKeeps(s, a);
    case Deliver(_, f, _) => FrameInvAt(s, f); DeliveredNode(s, a); QuietKeeps(s, a);
    case Detect(_, _, _) => TickedNode(s, a); QuietKeeps(s, a);
    case Look(_, _) => LookedNode(s, a); QuietKeeps(s, a);
  }

  // ----- runs -------------------------------------------------------------------------------------

  ghost predicate Runs(s: System, acts: seq<Action>)
    decreases acts
  {
    acts == [] || (Enabled(s, acts[0]) && Runs(Next(s, acts[0]), acts[1..]))
  }

  ghost function After(s: System, acts: seq<Action>): System
    requires Runs(s, acts)
    decreases acts
  {
    if acts == [] then s else After(Next(s, acts[0]), acts[1..])
  }

  lemma {:induction false} RunKeepsInv(s: System, acts: seq<Action>)
    requires Inv(s) && Runs(s, acts)
    ensures Inv(After(s, acts)) && Grew(s, After(s, acts))
    decreases acts
  {
    hide Inv, Enabled, Next, Grew;
    if acts == [] {
      GrewRefl(s);
    } else {
      var t := Next(s, acts[0]);
      StepKeepsInv(s, acts[0]);
      StepGrows(s, acts[0]);
      RunKeepsInv(t, acts[1..]);
      GrewTrans(s, t, After(s, acts));
    }
  }

  lemma GrewRefl(s: System)
    ensures Grew(s, s)
  {}

  lemma GrewTrans(s: System, t: System, u: System)
    requires Grew(s, t) && Grew(t, u)
    ensures Grew(s, u)
  {}

  /** A system that started empty. */
  ghost predicate Reachable(s: System) {
    exists acts :: Runs(EMPTY, acts) && After(EMPTY, acts) == s
  }

  lemma ReachableInv(s: System)
    requires Reachable(s)
    ensures Inv(s)
  {
    var acts :| Runs(EMPTY, acts) && After(EMPTY, acts) == s;
    RunKeepsInv(EMPTY, acts);
  }

  /** Main result (safety): what a node believes of a peer was reached by that peer, and every VM
      row it lists for another owner was really published by that owner under that stamp. */
  lemma NothingInvented(s: System, id: NodeId)
    requires Reachable(s) && id in s.nodes
    ensures var n := s.nodes[id];
      && (forall p :: p in n.table.rows ==> n.table.rows[p].id == p && Reached(s, p, n.table.rows[p].epoch, n.table.rows[p].hlc))
      && (forall k :: k in n.vms ==> KeyOf(n.vms[k]) == k && Carried(n.vms[k]) in s.published)
      && OneContent(s.published)
  {
    ReachableInv(s);
    assert NodeInv(s, id);
    hide SameForeign, MergedVms;
  }

  /** What one step does to a node's table: nothing is lost or set back, short of a restart. */
  lemma StepNeverGoesBack(s: System, a: Action, id: NodeId)
    requires Inv(s) && Enabled(s, a) && id in s.nodes && !(a.Start? && a.id == id)
    ensures id in Next(s, a).nodes
    ensures FailureDetector.StampsGrew(s.nodes[id].table, Next(s, a).nodes[id].table)
  {
    hide Inv, FailureDetector.StampsGrew;
    var n, t := s.nodes[id], Next(s, a);
    assert WellKept(n.table) by { NodeInvAt(s, id); }
    FailureDetector.GrewRefl(n.table);
    if a.id != id {
      StepActsAlone(s, a);
    } else if a.Deliver? {
      DeliverEffect(s, a);
      ReceivedGrows(n, a.frame, a.now);
    } else {
      StepEffect(s, a);
      hide Next, Enabled;
      if a.Publish? {
        FailureDetector.ApplyGrows(n.table, FailureDetector.Bump(n.hlc + 1, a.now), Timeouts(0, 0));
      } else if a.Detect? {
        FailureDetector.ApplyGrows(n.table, FailureDetector.Tick(a.now), a.limits);
      }
    }
  }

  lemma NodeInvAt(s: System, id: NodeId)
    requires Inv(s) && id in s.nodes
    ensures NodeInv(s, id) && NodeOk(s.nodes[id])
  {}

  lemma {:induction false} MergedAllGrows(t: Table, rs: seq<NodeInfo>, now: nat)
    requires WellKept(t)
    ensures FailureDetector.StampsGrew(t, MergedAll(t, rs, now))
    decreases rs
  {
    hide FailureDetector.StampsGrew, Merged;
    if rs == [] {
      FailureDetector.GrewRefl(t);
    } else {
      var u := Merged(t, rs[0], now);
      FailureDetector.ApplyGrows(t, FailureDetector.Heard(rs[0], now), Timeouts(0, 0));
      MergedAllGrows(u, rs[1..], now);
      FailureDetector.StampsGrewTrans(t, u, MergedAll(t, rs, now));
    }
  }

  lemma ReceivedGrows(n: Node, f: Frame, now: nat)
    requires WellKept(n.table)
    ensures FailureDetector.StampsGrew(n.table, Received(n, f, now).table)
  {
    FailureDetector.GrewRefl(n.table);
    match f.payload
    case Hello(row) => FailureDetector.ApplyGrows(n.table, FailureDetector.Heard(row, now), Timeouts(0, 0));
    case Sync(nodes, _) => MergedAllGrows(n.table, nodes, now);
    case Goodbye => FailureDetector.ApplyGrows(n.table, FailureDetector.Departed(f.from), Timeouts(0, 0));
    hide FailureDetector.StampsGrew;
  }

  /** Main result: between its own restarts a node's stored stamps never go back. */
  lemma {:induction false} RunNeverGoesBack(s: System, acts: seq<Action>, id: NodeId)
    requires Inv(s) && Runs(s, acts) && id in s.nodes
    requires forall a :: a in acts ==> !(a.Start? && a.id == id)
    ensures id in After(s, acts).nodes
    ensures FailureDetector.StampsGrew(s.nodes[id].table, After(s, acts).nodes[id].table)
    decreases acts
  {
    hide Inv, Enabled, Next, FailureDetector.StampsGrew;
    if acts == [] {
      FailureDetector.GrewRefl(s.nodes[id].table);
    } else {
      var a, t := acts[0], Next(s, acts[0]);
      StepKeepsInv(s, a);
      StepNeverGoesBack(s, a, id);
      RunNeverGoesBack(t, acts[1..], id);
      FailureDetector.StampsGrewTrans(s.nodes[id].table, t.nodes[id].table, After(s, acts).nodes[id].table);
    }
  }

  /** The parts of a node that it alone decides. */
  ghost predicate SameOwn(n: Node, m: Node) {
    && m.id == n.id && m.epoch == n.epoch && m.hlc == n.hlc
    && Local(n.id, m.vms) == Local(n.id, n.vms)
    && n.id in n.table.rows && n.id in m.table.rows && m.table.rows[n.id] == n.table.rows[n.id]
  }

  /** No received frame touches what the node itself owns. */
  lemma FramesKeepOwnRows(s: System, a: Action)
    requires Inv(s) && Enabled(s, a) && a.Deliver?
    ensures a.id in Next(s, a).nodes && SameOwn(s.nodes[a.id], Next(s, a).nodes[a.id])
  {
    var n := s.nodes[a.id];
    DeliverEffect(s, a);
    assert FrameOk(s, a.frame);
    hide Inv, Next;
    NodeInvAt(s, a.id);
    ReceivedOk(s, n, a.frame, a.now);
    hide FrameOk, Received, MergedVms, SameForeign, Local;
  }

  lemma CarriedContent(vs: set<RemoteVm>, published: set<RemoteVm>)
    requires OneContent(published) && forall v :: v in vs ==> Carried(v) in published
    ensures OneContent(vs)
  {
    forall v, w | v in vs && w in vs && KeyOf(v) == KeyOf(w) && v.epoch == w.epoch && v.hlc == w.hlc
      ensures Carried(v) == Carried(w)
    {
      var x, y := Carried(v), Carried(w);
      assert x in published && y in published && Carried(x) == x && Carried(y) == y && KeyOf(x) == KeyOf(y);
    }
  }

  lemma HeardFacts(s: System, id: NodeId)
    requires id in s.nodes && NodeInv(s, id)
    ensures id in s.heard && (forall v :: v in s.heard[id] ==> Carried(v) in s.published)
    ensures SameForeign(id, s.nodes[id].vms, MergedVms(id, map[], s.heard[id]))
  {
    hide NodeOk, TableOk, VmsOk, SameForeign, MergedVms;
  }

  lemma PublishedContent(s: System)
    requires Inv(s)
    ensures OneContent(s.published)
  {}

  lemma SameForeignAt(self: NodeId, a: Rows, b: Rows, k: Key)
    requires SameForeign(self, a, b) && k.owner != self
    ensures (k in a <==> k in b) && (k in a ==> Carried(a[k]) == Carried(b[k]))
  {}

  lemma ViewsAgree(a: NodeId, b: NodeId, viewA: Rows, viewB: Rows, vs: seq<RemoteVm>, ws: seq<RemoteVm>, published: set<RemoteVm>, k: Key)
    requires k.owner != a && k.owner != b && (forall v :: v in vs <==> v in ws)
    requires OneContent(published) && forall v :: v in vs ==> Carried(v) in published
    requires SameForeign(a, viewA, MergedVms(a, map[], vs)) && SameForeign(b, viewB, MergedVms(b, map[], ws))
    ensures (k in viewA <==> k in viewB) && (k in viewA ==> Carried(viewA[k]) == Carried(viewB[k]))
  {
    hide OneContent, SameForeign, MergedVms;
    var none: Rows := map[];
    var heard := (set v | v in vs) + none.Values;
    CarriedContent(heard, published);
    VmsConverge(a, b, none, vs, ws, k);
    SameForeignAt(a, viewA, MergedVms(a, none, vs), k);
    SameForeignAt(b, viewB, MergedVms(b, none, ws), k);
  }

  /** Main result (convergence): two nodes that were handed the same rows, in whatever order and
      however often, list the same VMs for every third owner, up to their own view of liveness. */
  lemma SameRowsSameView(s: System, a: NodeId, b: NodeId, k: Key)
    requires Reachable(s) && a in s.nodes && b in s.nodes && a in s.heard && b in s.heard && k.owner != a && k.owner != b
    requires forall v :: v in s.heard[a] <==> v in s.heard[b]
    ensures k in s.nodes[a].vms <==> k in s.nodes[b].vms
    ensures k in s.nodes[a].vms ==> Carried(s.nodes[a].vms[k]) == Carried(s.nodes[b].vms[k])
  {
    hide *;
    ReachableInv(s);
    NodeInvAt(s, a);
    NodeInvAt(s, b);
    HeardFacts(s, a);
    HeardFacts(s, b);
    PublishedContent(s);
    ViewsAgree(a, b, s.nodes[a].vms, s.nodes[b].vms, s.heard[a], s.heard[b], s.published, k);
  }
}
