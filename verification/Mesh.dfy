/** One mesh node: the state behind its lock, and what publishing, sending and receiving do to it. */
module Mesh {
  import opened Wrappers
  import opened Membership
  import opened Federation

  datatype Payload = Hello(node: NodeInfo) | Sync(nodes: seq<NodeInfo>, vms: seq<RemoteVm>) | Goodbye

  datatype Frame = Frame(from: NodeId, cluster: string, payload: Payload)

  /** A node as a value. */
  datatype Node = Node(cluster: string, id: NodeId, epoch: nat, hlc: nat, table: Table, vms: Rows)

  ghost predicate NodeOk(n: Node) {
    && WellKept(n.table) && n.table.self == n.id
    && Keyed(n.vms)
  }

  function Started(cluster: string, id: NodeId, addr: string, epoch: nat, now: nat): Node {
    Node(cluster, id, epoch, 0, Fresh(NodeInfo(id, addr, epoch, 0, Alive), now), map[])
  }

  function TickHlc(n: Node): Node { n.(hlc := n.hlc + 1) }

  function Stamp(n: Node, v: RemoteVm): RemoteVm { v.(owner := n.id, epoch := n.epoch, hlc := n.hlc, ownerAlive := true) }

  function StampAll(n: Node, vs: seq<RemoteVm>): seq<RemoteVm> { seq(|vs|, i requires 0 <= i < |vs| => Stamp(n, vs[i])) }

  /** The own rows are replaced, all under one new stamp. */
  function Published(n: Node, vs: seq<RemoteVm>, now: nat): Node {
    var m := TickHlc(n);
    m.(vms := Foreign(n.id, n.vms) + OwnRows(n.id, StampAll(m, vs)), table := Bumped(n.table, m.hlc, now))
  }

  function SelfRow(n: Node): NodeInfo
    requires n.id in n.table.rows
  {
    n.table.rows[n.id].(hlc := n.hlc)
  }

  /** The rows a sync frame lists: all known rows, the own one with the new clock. */
  function Advertised(n: Node): map<NodeId, NodeInfo>
    requires n.id in n.table.rows
  {
    n.table.rows[n.id := SelfRow(n)]
  }

  ghost predicate Lists<K(!new), V(!new)>(vs: seq<V>, m: map<K, V>) {
    |vs| == |m| && forall v :: v in vs <==> v in m.Values
  }

  /** Whether a frame is one that the node sends when its clock has just ticked. */
  ghost predicate Emits(n: Node, f: Frame)
    requires n.id in n.table.rows
  {
    && f.from == n.id && f.cluster == n.cluster
    && match f.payload
       case Hello(row) => row == SelfRow(n)
       case Sync(nodes, vms) => Lists(nodes, Advertised(n)) && Lists(vms, Local(n.id, n.vms))
       case Goodbye => true
  }

  function Received(n: Node, f: Frame, now: nat): Node {
    if f.cluster != n.cluster then n
    else
      match f.payload
      case Hello(row) => n.(table := Merged(n.table, row, now))
      case Sync(nodes, vms) => n.(table := MergedAll(n.table, nodes, now), vms := MergedVms(n.id, n.vms, vms))
      case Goodbye => n.(table := MarkedLeft(n.table, f.from))
  }

  // ----- what a received frame must do, row by row ------------------------------------------------

  /** The membership rows and the VM rows a frame carries. */
  function NodesIn(f: Frame): seq<NodeInfo> {
    match f.payload case Hello(row) => [row] case Sync(nodes, _) => nodes case Goodbye => []
  }

  function VmsIn(f: Frame): seq<RemoteVm> {
    match f.payload case Sync(_, vms) => vms case _ => []
  }

  /** Stamp (e1, h1) is at least stamp (e2, h2): a later start of the node, or the same one and a clock
      that is no earlier. */
  predicate AtLeast(e1: nat, h1: nat, e2: nat, h2: nat) { e1 > e2 || (e1 == e2 && h1 >= h2) }

  /** Every peer named in the rows is known afterwards, under a stamp at least as high, and was seen now. */
  ghost predicate Introduced(self: NodeId, u: Table, rs: seq<NodeInfo>, now: nat) {
    forall r :: r in rs && r.id != self ==>
      && r.id in u.rows && AtLeast(u.rows[r.id].epoch, u.rows[r.id].hlc, r.epoch, r.hlc)
      && r.id in u.seen && u.seen[r.id] == now
  }

  /** What is stored is the old row or one of these. */
  ghost predicate FromEither(t: Table, u: Table, rs: seq<NodeInfo>) {
    forall p :: p in u.rows ==> (p in t.rows && u.rows[p] == t.rows[p]) || (p != t.self && u.rows[p] in rs)
  }

  /** No row is lost, and a row is replaced only by one with a higher stamp. */
  ghost predicate Forward(t: Table, u: Table) {
    forall p :: p in t.rows ==>
      && p in u.rows && AtLeast(u.rows[p].epoch, u.rows[p].hlc, t.rows[p].epoch, t.rows[p].hlc)
      && (u.rows[p] != t.rows[p] ==> !AtLeast(t.rows[p].epoch, t.rows[p].hlc, u.rows[p].epoch, u.rows[p].hlc))
  }

  /** Peers not named were last seen when they were before. */
  ghost predicate OthersUnseen(t: Table, u: Table, rs: seq<NodeInfo>) {
    forall p :: p in t.seen && (p == t.self || forall r :: r in rs ==> r.id != p) ==> p in u.seen && u.seen[p] == t.seen[p]
  }

  ghost predicate NodesTaken(t: Table, u: Table, rs: seq<NodeInfo>, now: nat) {
    u.self == t.self && Introduced(t.self, u, rs, now) && FromEither(t, u, rs) && Forward(t, u) && OthersUnseen(t, u, rs)
  }

  /** The same for VM rows: foreign ones are taken in, with their owner presumed alive, and the own ones
      stay as they were. */
  ghost predicate VmsTaken(self: NodeId, a: Rows, b: Rows, vs: seq<RemoteVm>) {
    VmsIntroduced(self, b, vs) && VmsFromEither(self, a, b, vs) && VmsForward(a, b)
  }

  ghost predicate VmsIntroduced(self: NodeId, b: Rows, vs: seq<RemoteVm>) {
    forall v :: v in vs && v.owner != self ==>
      var k := Key(v.owner, v.vmId); k in b && AtLeast(b[k].epoch, b[k].hlc, v.epoch, v.hlc)
  }

  ghost predicate VmsFromEither(self: NodeId, a: Rows, b: Rows, vs: seq<RemoteVm>) {
    forall k :: k in b ==> (k in a && b[k] == a[k]) || (k.owner != self && exists v :: v in vs && b[k] == v.(ownerAlive := true))
  }

  ghost predicate VmsForward(a: Rows, b: Rows) {
    forall k :: k in a ==>
      && k in b && AtLeast(b[k].epoch, b[k].hlc, a[k].epoch, a[k].hlc)
      && (b[k] != a[k] ==> !AtLeast(a[k].epoch, a[k].hlc, b[k].epoch, b[k].hlc))
  }

  /** A departure: the sender's row, if it is a known peer's, is marked, and nothing else changes. */
  ghost predicate Departed(t: Table, u: Table, from: NodeId) {
    && u.self == t.self && u.seen == t.seen && u.rows.Keys == t.rows.Keys
    && (forall p :: p in t.rows && (p != from || p == t.self) ==> u.rows[p] == t.rows[p])
    && (from in t.rows && from != t.self ==>
          var r := t.rows[from]; u.rows[from] == NodeInfo(r.id, r.addr, r.epoch, r.hlc, Left))
  }

  /** A frame of another cluster changes nothing. A greeting or a digest is taken in row by row, a
      departure marks its sender. */
  ghost predicate TookIn(n: Node, m: Node, f: Frame, now: nat) {
    if f.cluster != n.cluster then m == n
    else
      && m.cluster == n.cluster && m.id == n.id && m.epoch == n.epoch && m.hlc == n.hlc
      && VmsTaken(n.id, n.vms, m.vms, VmsIn(f))
      && if f.payload.Goodbye? then Departed(n.table, m.table, f.from) else NodesTaken(n.table, m.table, NodesIn(f), now)
  }

  lemma AtLeastIs(e1: nat, h1: nat, e2: nat, h2: nat)
    ensures AtLeast(e1, h1, e2, h2) <==> !Above(e2, h2, e1, h1)
  {}

  lemma OneIntroduced(t: Table, r: NodeInfo, now: nat)
    requires WellKept(t)
    ensures Introduced(t.self, Merged(t, r, now), [r], now)
  {}

  lemma OneFromEither(t: Table, r: NodeInfo, now: nat)
    ensures FromEither(t, Merged(t, r, now), [r])
  {
    assert r in [r];
    hide Supersedes;
  }

  lemma OneForward(t: Table, r: NodeInfo, now: nat)
    ensures Forward(t, Merged(t, r, now))
  {}

  lemma OneUnseen(t: Table, r: NodeInfo, now: nat)
    ensures OthersUnseen(t, Merged(t, r, now), [r])
  {
    assert r in [r];
    hide Supersedes;
  }

  lemma OneNodeTaken(t: Table, r: NodeInfo, now: nat)
    requires WellKept(t)
    ensures NodesTaken(t, Merged(t, r, now), [r], now) && WellKept(Merged(t, r, now))
  {
    OneIntroduced(t, r, now);
    OneFromEither(t, r, now);
    OneForward(t, r, now);
    OneUnseen(t, r, now);
    hide Introduced, FromEither, Forward, OthersUnseen, Supersedes;
  }

  lemma NoNodesTaken(t: Table, now: nat)
    ensures NodesTaken(t, t, [], now)
  {}

  lemma FromEitherTrans(t: Table, u: Table, w: Table, r: NodeInfo, rs: seq<NodeInfo>)
    requires u.self == t.self && FromEither(t, u, [r]) && FromEither(u, w, rs)
    ensures FromEither(t, w, [r] + rs)
  {
    assert forall x :: x in [r] + rs <==> x == r || x in rs;
  }

  lemma ForwardTrans(t: Table, u: Table, w: Table)
    requires Forward(t, u) && Forward(u, w)
    ensures Forward(t, w)
  {}

  lemma IntroducedTrans(t: Table, u: Table, w: Table, r: NodeInfo, rs: seq<NodeInfo>, now: nat)
    requires WellKept(u) && Introduced(t.self, u, [r], now) && Introduced(t.self, w, rs, now) && Forward(u, w) && OthersUnseen(u, w, rs)
    requires u.self == t.self
    ensures Introduced(t.self, w, [r] + rs, now)
  {
    assert r in [r];
    forall x | x in [r] + rs && x.id != t.self
      ensures x.id in w.rows && AtLeast(w.rows[x.id].epoch, w.rows[x.id].hlc, x.epoch, x.hlc) && x.id in w.seen && w.seen[x.id] == now
    {
      if x !in rs {
        assert x == r && x.id in u.rows;
        if y :| y in rs && y.id == x.id {
          assert w.seen[y.id] == now;
        }
      }
    }
  }

  lemma OthersUnseenTrans(t: Table, u: Table, w: Table, r: NodeInfo, rs: seq<NodeInfo>)
    requires u.self == t.self && OthersUnseen(t, u, [r]) && OthersUnseen(u, w, rs)
    ensures OthersUnseen(t, w, [r] + rs)
  {
    assert forall x :: x in [r] + rs <==> x == r || x in rs;
  }

  lemma NodesTakenTrans(t: Table, u: Table, w: Table, r: NodeInfo, rs: seq<NodeInfo>, now: nat)
    requires WellKept(t) && WellKept(u) && NodesTaken(t, u, [r], now) && NodesTaken(u, w, rs, now)
    ensures NodesTaken(t, w, [r] + rs, now)
  {
    hide Introduced, FromEither, Forward, OthersUnseen;
    FromEitherTrans(t, u, w, r, rs);
    ForwardTrans(t, u, w);
    IntroducedTrans(t, u, w, r, rs, now);
    OthersUnseenTrans(t, u, w, r, rs);
  }

  lemma {:induction false} NodesAllTaken(t: Table, rs: seq<NodeInfo>, now: nat)
    requires WellKept(t)
    ensures NodesTaken(t, MergedAll(t, rs, now), rs, now)
    decreases rs
  {
    hide NodesTaken, Merged;
    if rs == [] {
      NoNodesTaken(t, now);
    } else {
      var u := Merged(t, rs[0], now);
      OneNodeTaken(t, rs[0], now);
      NodesAllTaken(u, rs[1..], now);
      NodesTakenTrans(t, u, MergedAll(t, rs, now), rs[0], rs[1..], now);
      assert [rs[0]] + rs[1..] == rs;
    }
  }

  lemma OneVmTaken(self: NodeId, rows: Rows, v: RemoteVm)
    requires Keyed(rows)
    ensures VmsTaken(self, rows, MergedVm(self, rows, v), [v]) && Keyed(MergedVm(self, rows, v))
  {
    assert v in [v];
  }

  lemma NoVmsTaken(self: NodeId, rows: Rows)
    ensures VmsTaken(self, rows, rows, [])
  {}

  lemma VmsIntroducedTrans(self: NodeId, b: Rows, c: Rows, v: RemoteVm, vs: seq<RemoteVm>)
    requires VmsIntroduced(self, b, [v]) && VmsIntroduced(self, c, vs) && VmsForward(b, c)
    ensures VmsIntroduced(self, c, [v] + vs)
  {
    assert v in [v];
    assert forall x :: x in [v] + vs <==> x == v || x in vs;
  }

  lemma VmsFromEitherTrans(self: NodeId, a: Rows, b: Rows, c: Rows, v: RemoteVm, vs: seq<RemoteVm>)
    requires VmsFromEither(self, a, b, [v]) && VmsFromEither(self, b, c, vs)
    ensures VmsFromEither(self, a, c, [v] + vs)
  {
    assert forall x :: x in [v] + vs <==> x == v || x in vs;
  }

  lemma VmsForwardTrans(a: Rows, b: Rows, c: Rows)
    requires VmsForward(a, b) && VmsForward(b, c)
    ensures VmsForward(a, c)
  {}

  lemma VmsTakenTrans(self: NodeId, a: Rows, b: Rows, c: Rows, v: RemoteVm, vs: seq<RemoteVm>)
    requires VmsTaken(self, a, b, [v]) && VmsTaken(self, b, c, vs)
    ensures VmsTaken(self, a, c, [v] + vs)
  {
    hide VmsIntroduced, VmsFromEither, VmsForward;
    VmsIntroducedTrans(self, b, c, v, vs);
    VmsFromEitherTrans(self, a, b, c, v, vs);
    VmsForwardTrans(a, b, c);
  }

  lemma {:induction false} VmsAllTaken(self: NodeId, rows: Rows, vs: seq<RemoteVm>)
    requires Keyed(rows)
    ensures VmsTaken(self, rows, MergedVms(self, rows, vs), vs)
    decreases vs
  {
    hide VmsTaken, MergedVm, Keyed;
    if vs == [] {
      NoVmsTaken(self, rows);
    } else {
      var b := MergedVm(self, rows, vs[0]);
      OneVmTaken(self, rows, vs[0]);
      VmsAllTaken(self, b, vs[1..]);
      VmsTakenTrans(self, rows, b, MergedVms(self, rows, vs), vs[0], vs[1..]);
      assert [vs[0]] + vs[1..] == vs;
    }
  }

  lemma LeftTaken(t: Table, from: NodeId)
    requires WellKept(t)
    ensures Departed(t, MarkedLeft(t, from), from)
  {}

  /** Main result: every received frame is taken in. */
  lemma FrameTaken(n: Node, f: Frame, now: nat)
    requires NodeOk(n)
    ensures TookIn(n, Received(n, f, now), f, now)
  {
    hide NodesTaken, VmsTaken, Departed, MergedAll, MergedVms, Merged, MarkedLeft;
    NoVmsTaken(n.id, n.vms);
    match f.payload
    case Hello(row) => OneNodeTaken(n.table, row, now);
    case Sync(nodes, vms) =>
      NodesAllTaken(n.table, nodes, now);
      VmsAllTaken(n.id, n.vms, vms);
    case Goodbye => LeftTaken(n.table, f.from);
  }

  lemma LocalValues(self: NodeId, rows: Rows)
    requires Keyed(rows)
    ensures forall v :: v in Local(self, rows).Values <==> v.owner == self && KeyOf(v) in rows && rows[KeyOf(v)] == v
  {
    var own := Local(self, rows);
    forall v
      ensures v in own.Values <==> v.owner == self && KeyOf(v) in rows && rows[KeyOf(v)] == v
    {
      if v.owner == self && KeyOf(v) in rows && rows[KeyOf(v)] == v {
        assert own[KeyOf(v)] == v;
      }
    }
  }

  lemma ListedNodes(rows: map<NodeId, NodeInfo>, id: NodeId, row: NodeInfo)
    requires id in rows
    ensures var m := rows[id := row];
      |m| == |rows| && row in m.Values && forall p :: p in rows && p != id ==> rows[p] in m.Values
  {
    var m := rows[id := row];
    assert m.Keys == rows.Keys;
    assert |m| == |m.Keys| && |rows| == |rows.Keys|;
    assert m[id] == row;
    forall p | p in rows && p != id
      ensures rows[p] in m.Values
    {
      assert m[p] == rows[p];
    }
  }

  /** The last entry for a VM number in a list of local rows. */
  ghost predicate LastFor(vs: seq<RemoteVm>, i: nat, id: nat) {
    i < |vs| && vs[i].vmId == id && forall j :: i < j < |vs| ==> vs[j].vmId != id
  }

  lemma {:induction false} OwnRowsAre(self: NodeId, vs: seq<RemoteVm>, k: Key)
    ensures var own := OwnRows(self, vs);
      && (k in own ==> k.owner == self && exists i: nat :: LastFor(vs, i, k.vmId))
      && (forall i: nat :: LastFor(vs, i, k.vmId) && k.owner == self ==> k in own && own[k] == vs[i].(owner := self, ownerAlive := true))
    decreases |vs|
  {
    if vs != [] {
      var n := |vs| - 1;
      var rest := vs[..n];
      OwnRowsAre(self, rest, k);
      if k.vmId == vs[n].vmId {
        assert LastFor(vs, n, k.vmId);
        assert forall i: nat :: LastFor(vs, i, k.vmId) ==> i == n;
      } else {
        forall i: nat
          ensures LastFor(rest, i, k.vmId) <==> LastFor(vs, i, k.vmId)
        {
          if LastFor(vs, i, k.vmId) { assert i < n; }
        }
      }
    }
  }

  /** Main result (publishing): exactly the listed VMs are the node's own rows afterwards, each as its
      last entry has it, with the node as owner, its epoch, and its clock moved on by one; rows of
      others stay; and the node's own membership row is alive, seen now, and not behind that clock. */
  lemma PublishedExactly(n: Node, vs: seq<RemoteVm>, now: nat, k: Key)
    requires NodeOk(n)
    ensures var m := Published(n, vs, now);
      && m.hlc == n.hlc + 1 && m.epoch == n.epoch && m.id == n.id && m.cluster == n.cluster
      && (k.owner != n.id ==> (k in m.vms <==> k in n.vms) && (k in n.vms ==> m.vms[k] == n.vms[k]))
      && (k.owner == n.id ==> (k in m.vms <==> exists i: nat :: LastFor(vs, i, k.vmId)))
      && (forall i: nat :: k.owner == n.id && LastFor(vs, i, k.vmId) ==>
            k in m.vms && m.vms[k] == RemoteVm(n.id, k.vmId, vs[i].spec, n.epoch, n.hlc + 1, true))
      && (forall p :: p in n.table.rows && p != n.id ==> p in m.table.rows && m.table.rows[p] == n.table.rows[p])
      && var r, q := n.table.rows[n.id], m.table.rows[n.id];
      && q == NodeInfo(r.id, r.addr, r.epoch, q.hlc, Alive) && q.hlc >= n.hlc + 1 && q.hlc >= r.hlc
      && (q.hlc == n.hlc + 1 || q.hlc == r.hlc) && m.table.seen[n.id] == now
  {
    PublishedRow(n, vs, now, k);
    hide OwnRows, StampAll, Foreign, LastFor;
  }

  lemma StampedLast(n: Node, vs: seq<RemoteVm>, i: nat, id: nat)
    ensures |StampAll(n, vs)| == |vs| && (LastFor(StampAll(n, vs), i, id) <==> LastFor(vs, i, id))
    ensures LastFor(vs, i, id) ==>
      StampAll(n, vs)[i].(owner := n.id, ownerAlive := true) == RemoteVm(n.id, id, vs[i].spec, n.epoch, n.hlc, true)
  {
    var ws := StampAll(n, vs);
    assert forall j :: 0 <= j < |vs| ==> ws[j] == Stamp(n, vs[j]);
  }

  lemma PublishedRow(n: Node, vs: seq<RemoteVm>, now: nat, k: Key)
    ensures var m := Published(n, vs, now);
      && (k.owner != n.id ==> (k in m.vms <==> k in n.vms) && (k in n.vms ==> m.vms[k] == n.vms[k]))
      && (k.owner == n.id ==> (k in m.vms <==> exists i: nat :: LastFor(vs, i, k.vmId)))
      && (forall i: nat :: k.owner == n.id && LastFor(vs, i, k.vmId) ==>
            k in m.vms && m.vms[k] == RemoteVm(n.id, k.vmId, vs[i].spec, n.epoch, n.hlc + 1, true))
  {
    var c := TickHlc(n);
    var ws := StampAll(c, vs);
    OwnRowsAre(n.id, ws, k);
    OwnRowsOwned(n.id, ws);
    hide OwnRows, LastFor, StampAll;
    forall i: nat
      ensures LastFor(ws, i, k.vmId) <==> LastFor(vs, i, k.vmId)
      ensures LastFor(vs, i, k.vmId) ==> i < |ws| && i < |vs| && ws[i].(owner := n.id, ownerAlive := true) == RemoteVm(n.id, k.vmId, vs[i].spec, n.epoch, n.hlc + 1, true)
    {
      StampedLast(c, vs, i, k.vmId);
      if LastFor(vs, i, k.vmId) { LastIn(vs, i, k.vmId); }
    }
  }

  lemma LastIn(vs: seq<RemoteVm>, i: nat, id: nat)
    requires LastFor(vs, i, id)
    ensures i < |vs|
  {}

  lemma {:induction false} OwnRowsOwned(self: NodeId, vs: seq<RemoteVm>)
    ensures forall k :: k in OwnRows(self, vs) ==> k.owner == self
    decreases |vs|
  {
    if vs != [] { OwnRowsOwned(self, vs[..|vs| - 1]); }
  }

  class Inner {
    const cluster: string
    const id: NodeId
    const epoch: nat
    const membership: MembershipTable
    const federation: NamespaceFederation
    var hlc: nat

    constructor (cluster: string, id: NodeId, addr: string, epoch: nat, limits: Timeouts, now: nat)
      ensures Valid() && View() == Started(cluster, id, addr, epoch, now)
      ensures fresh(membership) && fresh(federation)
    {
      this.cluster, this.id, this.epoch := cluster, id, epoch;
      this.membership := new MembershipTable(NodeInfo(id, addr, epoch, 0, Alive), limits, now);
      this.federation := new NamespaceFederation(id);
      this.hlc := 0;
    }

    ghost predicate Valid()
      reads this, membership, federation
    {
      membership.Valid() && federation.Valid() && membership.selfId == id && federation.selfId == id
    }

    function View(): Node
      reads this, membership, federation
    {
      Node(cluster, id, epoch, hlc, membership.View(), federation.rows)
    }

    method PublishLocalVms(rows: seq<RemoteVm>, now: nat)
      requires Valid()
      modifies this, membership, federation
      ensures Valid() && View() == Published(old(View()), rows, now)
    {
      hlc := hlc + 1;
      ghost var m := View();
      var clock := hlc;
      var stamped := seq(|rows|, i requires 0 <= i < |rows| => rows[i].(owner := id, epoch := epoch, hlc := clock, ownerAlive := true));
      assert stamped == StampAll(m, rows);
      federation.SetLocal(stamped);
      SplitRows(id, federation.rows);
      membership.BumpSelf(hlc, now);
    }

    method SendHello() returns (f: Frame)
      requires Valid()
      modifies `hlc
      ensures Valid() && View() == TickHlc(old(View()))
      ensures f.payload.Hello? && Emits(View(), f)
      ensures f.from == id && f.cluster == cluster && hlc == old(hlc) + 1
      ensures f.payload.node.id == id && f.payload.node.hlc == hlc
      ensures f.payload.node == membership.rows[id].(hlc := hlc)
    {
      hlc := hlc + 1;
      f := Frame(id, cluster, Hello(membership.rows[id].(hlc := hlc)));
    }

    method SendSync() returns (f: Frame)
      requires Valid()
      modifies `hlc
      ensures Valid() && View() == TickHlc(old(View()))
      ensures f.payload.Sync? && Emits(View(), f)
      ensures f.from == id && f.cluster == cluster && hlc == old(hlc) + 1
      ensures |f.payload.nodes| == |membership.rows| && membership.rows[id].(hlc := hlc) in f.payload.nodes
      ensures forall p :: p in membership.rows && p != id ==> membership.rows[p] in f.payload.nodes
      ensures forall v :: v in f.payload.vms <==> v.owner == id && KeyOf(v) in federation.rows && federation.rows[KeyOf(v)] == v
    {
      hlc := hlc + 1;
      var row := membership.rows[id].(hlc := hlc);
      var nodes := ListNodes(membership.rows[id := row]);
      var vms := federation.LocalRows();
      ListedNodes(membership.rows, id, row);
      LocalValues(id, federation.rows);
      f := Frame(id, cluster, Sync(nodes, vms));
    }

    method HandleEnvelope(f: Frame, now: nat)
      requires Valid()
      modifies membership, federation
      ensures Valid() && View() == Received(old(View()), f, now)
      ensures TookIn(old(View()), View(), f, now)
    {
      FrameTaken(View(), f, now);
      hide TookIn;
      if f.cluster != cluster {
        return;
      }
      match f.payload {
        case Hello(row) => var touched := membership.Merge(row, now);
        case Sync(nodes, vms) =>
          membership.MergeAll(nodes, now);
          federation.MergeAll(vms);
        case Goodbye => membership.MarkLeft(f.from);
      }
    }
  }

  lemma SplitRows(self: NodeId, rows: Rows)
    ensures rows == Foreign(self, rows) + Local(self, rows)
  {}

  /** Every row of a table, each once. */
  method ListNodes(rows: map<NodeId, NodeInfo>) returns (vs: seq<NodeInfo>)
    ensures Lists(vs, rows)
  {
    var pending := rows.Keys;
    vs := [];
    while pending != {}
      invariant pending <= rows.Keys
      invariant forall v :: v in vs <==> exists k :: k in rows.Keys - pending && rows[k] == v
      invariant |vs| + |pending| == |rows.Keys|
      decreases pending
    {
      var k :| k in pending;
      pending := pending - {k};
      vs := vs + [rows[k]];
    }
  }
}
