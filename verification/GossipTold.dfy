/** What nodes know of one another in every reachable system: exactly the peers they were told of, each
    under the highest stamp they were told. */
module GossipTold {
  import opened Wrappers
  import opened Membership
  import opened Federation
  import opened Mesh
  import opened Gossip

  /** Main result: a delivered frame is taken in by the receiver, row by row, and by nobody else. */
  lemma DeliveryIsTaken(s: System, a: Action)
    requires Reachable(s) && Enabled(s, a) && a.Deliver?
    ensures a.id in Next(s, a).nodes && TookIn(s.nodes[a.id], Next(s, a).nodes[a.id], a.frame, a.now)
    ensures forall j :: j in s.nodes && j != a.id ==> j in Next(s, a).nodes && Next(s, a).nodes[j] == s.nodes[j]
  {
    ReachableInv(s);
    hide Inv, Next, Enabled, TookIn, Reachable;
    TakenInOrder(s, a);
  }

  lemma TakenInOrder(s: System, a: Action)
    requires Inv(s) && Enabled(s, a) && a.Deliver?
    ensures a.id in Next(s, a).nodes && TookIn(s.nodes[a.id], Next(s, a).nodes[a.id], a.frame, a.now)
    ensures forall j :: j in s.nodes && j != a.id ==> j in Next(s, a).nodes && Next(s, a).nodes[j] == s.nodes[j]
  {
    hide Inv, Next, TookIn, Received;
    DeliverEffect(s, a);
    StepActsAlone(s, a);
    assert a.id in s.nodes by { ActorThere(s, a); }
    NodeInvAt(s, a.id);
    FrameTaken(s.nodes[a.id], a.frame, a.now);
  }

  // ----- a publication arrives ---------------------------------------------------------------------

  /** A row offered by its owner under a stamp the receiver cannot have is stored as it is. */
  lemma RowArrives(n: Node, vs: seq<RemoteVm>, now: nat, self: NodeId, a: Rows, b: Rows, sent: seq<RemoteVm>, k: Key, i: nat)
    requires NodeOk(n) && k.owner == n.id && n.id != self && LastFor(vs, i, k.vmId)
    requires forall v :: v in sent <==> v in Local(n.id, Published(n, vs, now).vms).Values
    requires VmsTaken(self, a, b, sent) && Keyed(b) && (k in a ==> !Above(a[k].epoch, a[k].hlc, n.epoch, n.hlc))
    ensures k in b && b[k] == RemoteVm(n.id, k.vmId, vs[i].spec, n.epoch, n.hlc + 1, true)
  {
    PublishedExactly(n, vs, now, k);
    var m := Published(n, vs, now);
    var row := RemoteVm(n.id, k.vmId, vs[i].spec, n.epoch, n.hlc + 1, true);
    assert m.vms[k] == row;
    PublishedRows(n, vs, now);
    hide Published, LastFor, NodeOk, OwnRows;
    LocalValues(n.id, m.vms);
    assert row in sent;
    assert row.owner != self;
    if !(k in a && b[k] == a[k]) {
      var v :| v in sent && b[k] == v.(ownerAlive := true);
      assert KeyOf(b[k]) == k;
    }
  }

  lemma DigestOf(m: Node, f: Frame)
    requires m.id in m.table.rows && Emits(TickHlc(m), f) && f.payload.Sync?
    ensures f.cluster == m.cluster && f.from == m.id && forall v :: v in f.payload.vms <==> v in Local(m.id, m.vms).Values
  {
    hide Local, Advertised;
  }

  lemma SamePlace(n: Node, rows: seq<RemoteVm>, now: nat)
    ensures Published(n, rows, now).id == n.id && Published(n, rows, now).cluster == n.cluster
  {
    hide Foreign, OwnRows, Bumped;
  }

  lemma OthersWait(s: System, a: Action, id: NodeId)
    requires Enabled(s, a) && id in s.nodes && id != a.id
    ensures id in Next(s, a).nodes && Next(s, a).nodes[id] == s.nodes[id]
  {
    StepActsAlone(s, a);
    hide Enabled, Next;
  }

  /** A node publishes, and sends its next digest. */
  lemma PublishAndSend(s: System, p: Action, q: Action, id: NodeId)
    requires Inv(s) && Enabled(s, p) && p.Publish? && Enabled(Next(s, p), q) && q.Send? && q.id == p.id && q.frame.payload.Sync?
    requires id in s.nodes && id != p.id
    ensures p.id in s.nodes
    ensures var n, t := s.nodes[p.id], Next(Next(s, p), q);
      && Inv(t) && NodeOk(n) && n.id == p.id && q.frame in t.net && q.frame.cluster == n.cluster && q.frame.from == p.id
      && (forall v :: v in q.frame.payload.vms <==> v in Local(n.id, Published(n, p.rows, p.now).vms).Values)
      && id in t.nodes && t.nodes[id] == s.nodes[id]
  {
    assert p.id in s.nodes by { ActorThere(s, p); }
    var n := s.nodes[p.id];
    NodeInvAt(s, p.id);
    StepEffect(s, p);
    hide Inv, Next, Enabled, Local, Emits, Published, NodeOk;
    StepKeepsInv(s, p);
    StepKeepsInv(Next(s, p), q);
    OthersWait(s, p, id);
    OthersWait(Next(s, p), q, id);
    SendFacts(Next(s, p), q);
    var m := Next(s, p).nodes[p.id];
    SamePlace(n, p.rows, p.now);
    DigestOf(m, q.frame);
  }

  /** Main result (propagation): when a node publishes and its next digest reaches another node of its
      cluster, that node lists every published VM, under the published content and stamp. */
  lemma PublicationArrives(s: System, p: Action, q: Action, d: Action, k: Key, i: nat)
    requires Reachable(s) && Enabled(s, p) && p.Publish? && Enabled(Next(s, p), q) && q.Send? && q.id == p.id && q.frame.payload.Sync?
    requires d.Deliver? && d.id in s.nodes && d.id != p.id && d.frame == q.frame && s.nodes[d.id].cluster == s.nodes[p.id].cluster
    requires k.owner == p.id && LastFor(p.rows, i, k.vmId)
    ensures var n, t := s.nodes[p.id], Next(Next(s, p), q);
      && Enabled(t, d) && d.id in Next(t, d).nodes
      && var m := Next(t, d).nodes[d.id];
      k in m.vms && m.vms[k] == RemoteVm(p.id, k.vmId, p.rows[i].spec, n.epoch, n.hlc + 1, true)
  {
    ReachableInv(s);
    PublishAndSend(s, p, q, d.id);
    var n, t := s.nodes[p.id], Next(Next(s, p), q);
    assert Enabled(t, d);
    VmsReached(s, d.id, p.id, k);
    hide Inv, Next, Enabled, TookIn, Reachable, LastFor, VmsTaken, NodeOk;
    TakenInOrder(t, d);
    StepKeepsInv(t, d);
    NodeInvAt(Next(t, d), d.id);
    var m := Next(t, d).nodes[d.id];
    RowsTakenIn(t.nodes[d.id], m, d.frame, d.now);
    RowArrives(n, p.rows, p.now, d.id, s.nodes[d.id].vms, m.vms, d.frame.payload.vms, k, i);
  }

  lemma RowsTakenIn(n: Node, m: Node, f: Frame, now: nat)
    requires TookIn(n, m, f, now) && f.cluster == n.cluster && f.payload.Sync? && NodeOk(m)
    ensures VmsTaken(n.id, n.vms, m.vms, f.payload.vms) && Keyed(m.vms)
  {
    hide VmsTaken, NodesTaken;
  }

  lemma VmsReached(s: System, id: NodeId, owner: NodeId, k: Key)
    requires Inv(s) && id in s.nodes && owner in s.nodes && k.owner == owner
    ensures s.nodes[id].id == id
    ensures k in s.nodes[id].vms ==>
      var v := s.nodes[id].vms[k]; !Above(v.epoch, v.hlc, s.nodes[owner].epoch, s.nodes[owner].hlc)
  {
    assert NodeInv(s, id);
    hide SameForeign, MergedVms;
  }

  // ----- the history of membership rows --------------------------------------------------------------

  ghost predicate SameStamp(r: NodeInfo, q: NodeInfo) { r.epoch == q.epoch && r.hlc == q.hlc }

  /** For one peer: known exactly when told of, under a stamp that was told and is the highest told. */
  ghost predicate KnownAsTold(t: Table, rs: seq<NodeInfo>, p: NodeId) {
    && (p in t.rows <==> exists r :: r in rs && r.id == p)
    && (p in t.rows ==>
          && (exists r :: r in rs && r.id == p && SameStamp(r, t.rows[p]))
          && forall r :: r in rs && r.id == p ==> AtLeast(t.rows[p].epoch, t.rows[p].hlc, r.epoch, r.hlc))
  }

  ghost predicate ToldOk(t: Table, rs: seq<NodeInfo>) { forall p :: p != t.self ==> KnownAsTold(t, rs, p) }

  /** The rows of others carry the same stamps. */
  ghost predicate SameStamps(t: Table, u: Table) {
    && u.self == t.self
    && forall p :: p != t.self ==> (p in u.rows <==> p in t.rows) && (p in t.rows ==> SameStamp(u.rows[p], t.rows[p]))
  }

  lemma SameStampsKeep(t: Table, u: Table, rs: seq<NodeInfo>)
    requires ToldOk(t, rs) && SameStamps(t, u)
    ensures ToldOk(u, rs)
  {
    forall p | p != t.self
      ensures KnownAsTold(u, rs, p)
    {
      assert KnownAsTold(t, rs, p);
    }
  }

  lemma TakenKeepsOne(t: Table, u: Table, rs: seq<NodeInfo>, ns: seq<NodeInfo>, now: nat, p: NodeId)
    requires WellKept(u) && KnownAsTold(t, rs, p) && NodesTaken(t, u, ns, now) && p != t.self
    ensures KnownAsTold(u, rs + ns, p)
  {
    assert forall r :: r in rs + ns <==> r in rs || r in ns;
    if p in u.rows {
      if p in t.rows && u.rows[p] == t.rows[p] {
        var r :| r in rs && r.id == p && SameStamp(r, t.rows[p]);
        assert r in rs + ns;
      } else {
        assert u.rows[p] in ns && u.rows[p].id == p;
      }
    }
    if r :| r in rs + ns && r.id == p {
      assert p in u.rows;
    }
  }

  lemma TakenKeeps(t: Table, u: Table, rs: seq<NodeInfo>, ns: seq<NodeInfo>, now: nat)
    requires WellKept(u) && ToldOk(t, rs) && NodesTaken(t, u, ns, now)
    ensures ToldOk(u, rs + ns)
  {
    hide KnownAsTold;
    forall p | p != t.self
      ensures KnownAsTold(u, rs + ns, p)
    {
      TakenKeepsOne(t, u, rs, ns, now, p);
    }
  }

  ghost predicate ToldAt(s: System, id: NodeId) {
    id in s.nodes && id in s.told && s.nodes[id].table.self == id && ToldOk(s.nodes[id].table, s.told[id])
  }

  ghost predicate AllTold(s: System) { forall id :: id in s.nodes ==> ToldAt(s, id) }

  lemma OthersTold(s: System, a: Action, id: NodeId)
    requires Enabled(s, a) && ToldAt(s, id) && id != a.id
    ensures ToldAt(Next(s, a), id)
  {
    hide ToldOk, Received, Published, Ticked, Refreshed;
  }

  lemma StartTold(s: System, a: Action)
    requires Enabled(s, a) && a.Start?
    ensures ToldAt(Next(s, a), a.id)
  {}

  lemma DeliverHistory(s: System, a: Action)
    requires Enabled(s, a) && a.Deliver? && a.id in s.told
    ensures a.id in Next(s, a).told && Next(s, a).told[a.id] == s.told[a.id] + FrameNodes(a.frame, s.nodes[a.id])
    ensures a.id in Next(s, a).nodes && Next(s, a).nodes[a.id] == Received(s.nodes[a.id], a.frame, a.now)
  {
    hide Received, FrameNodes, FrameVms;
  }

  lemma DeliverTold(s: System, a: Action)
    requires Enabled(s, a) && a.Deliver? && a.id in s.nodes && ToldAt(s, a.id)
    requires NodeOk(s.nodes[a.id]) && NodeOk(Received(s.nodes[a.id], a.frame, a.now))
    ensures ToldAt(Next(s, a), a.id)
  {
    hide Next, Enabled, Received, ToldOk, TookIn, FrameNodes;
    DeliverHistory(s, a);
    FrameTaken(s.nodes[a.id], a.frame, a.now);
    TookInKeeps(s.nodes[a.id], Received(s.nodes[a.id], a.frame, a.now), a.frame, a.now, s.told[a.id]);
  }

  lemma TookInKeeps(n: Node, m: Node, f: Frame, now: nat, rs: seq<NodeInfo>)
    requires NodeOk(n) && NodeOk(m) && TookIn(n, m, f, now) && ToldOk(n.table, rs)
    ensures ToldOk(m.table, rs + FrameNodes(f, n)) && m.table.self == n.table.self
  {
    hide ToldOk, Introduced, FromEither, Forward, OthersUnseen, VmsTaken;
    if f.cluster != n.cluster {
      assert rs + [] == rs;
    } else if f.payload.Goodbye? {
      assert rs + [] == rs;
      DepartedStamps(n.table, m.table, f.from);
      SameStampsKeep(n.table, m.table, rs);
    } else {
      TakenKeeps(n.table, m.table, rs, NodesIn(f), now);
    }
  }

  lemma DepartedStamps(t: Table, u: Table, from: NodeId)
    requires Departed(t, u, from)
    ensures SameStamps(t, u)
  {}

  lemma BumpedStamps(t: Table, hlc: nat, now: nat)
    ensures SameStamps(t, Bumped(t, hlc, now))
  {}

  lemma TickedStamps(t: Table, now: nat, limits: Timeouts)
    ensures SameStamps(t, Ticked(t, now, limits))
  {
    hide NextStatus;
  }

  lemma QuietTold(s: System, a: Action)
    requires Enabled(s, a) && !a.Start? && !a.Deliver? && a.id in s.nodes && ToldAt(s, a.id)
    ensures ToldAt(Next(s, a), a.id)
  {
    StepEffect(s, a);
    SameHistory(s, a);
    var n, m := s.nodes[a.id], Next(s, a).nodes[a.id];
    hide Next, Enabled, ToldOk, SameStamps, Ticked, Bumped, Refreshed;
    match a {
      case Publish(_, rows, now) => BumpedStamps(n.table, n.hlc + 1, now);
      case Detect(_, limits, now) => TickedStamps(n.table, now, limits);
      case _ => Unchanged(n.table);
    }
    SameStampsKeep(n.table, m.table, s.told[a.id]);
    SameSelf(n.table, m.table);
  }

  lemma SameSelf(t: Table, u: Table)
    requires SameStamps(t, u)
    ensures u.self == t.self
  {}

  lemma Unchanged(t: Table)
    ensures SameStamps(t, t)
  {}

  lemma SameHistory(s: System, a: Action)
    requires Enabled(s, a) && !a.Start? && !a.Deliver?
    ensures Next(s, a).told == s.told
  {
    hide Published, Ticked, Refreshed;
  }

  lemma StepTold(s: System, a: Action)
    requires Enabled(s, a) && AllTold(s) && Inv(s)
    ensures AllTold(Next(s, a))
  {
    hide Inv, Next, Enabled, ToldAt, NodeOk, Received;
    if a.Start? {
      StartTold(s, a);
    } else {
      ActorThere(s, a);
      if a.Deliver? {
        NodeInvAt(s, a.id);
        StepKeepsInv(s, a);
        DeliverEffect(s, a);
        NodeInvAt(Next(s, a), a.id);
        DeliverTold(s, a);
      } else {
        QuietTold(s, a);
      }
    }
    StepActsAlone(s, a);
    forall id | id in Next(s, a).nodes
      ensures ToldAt(Next(s, a), id)
    {
      if id != a.id { OthersTold(s, a, id); }
    }
  }

  lemma {:induction false} RunTold(s: System, acts: seq<Action>)
    requires AllTold(s) && Inv(s) && Runs(s, acts)
    ensures AllTold(After(s, acts))
    decreases acts
  {
    hide AllTold, Inv, Enabled, Next;
    if acts != [] {
      StepTold(s, acts[0]);
      StepKeepsInv(s, acts[0]);
      RunTold(Next(s, acts[0]), acts[1..]);
    }
  }

  /** Main result (membership): in every reachable system a running node knows exactly the peers it was
      told of since it started, each under the highest stamp it was told. */
  lemma KnowsWhatItWasTold(s: System, id: NodeId, p: NodeId)
    requires Reachable(s) && id in s.nodes && p != id
    ensures id in s.told && KnownAsTold(s.nodes[id].table, s.told[id], p)
  {
    var acts :| Runs(EMPTY, acts) && After(EMPTY, acts) == s;
    assert Inv(EMPTY) && AllTold(EMPTY);
    hide Inv, KnownAsTold, Next, Enabled;
    RunTold(EMPTY, acts);
    assert ToldAt(s, id);
  }

  /** Main result (convergence of membership): two nodes that were told the same rows, in whatever
      order, however often and at whatever times, know the same third nodes under the same stamps. */
  lemma SameToldSameStamps(s: System, a: NodeId, b: NodeId, p: NodeId)
    requires Reachable(s) && a in s.nodes && b in s.nodes && a in s.told && b in s.told && p != a && p != b
    requires forall r :: r in s.told[a] <==> r in s.told[b]
    ensures p in s.nodes[a].table.rows <==> p in s.nodes[b].table.rows
    ensures p in s.nodes[a].table.rows ==> SameStamp(s.nodes[a].table.rows[p], s.nodes[b].table.rows[p])
  {
    hide Reachable;
    KnowsWhatItWasTold(s, a, p);
    KnowsWhatItWasTold(s, b, p);
  }
}
