/** The federated VM namespace of one node. */
module Federation {
  import opened Wrappers
  import opened Membership

  datatype RestartPolicy = Never | Always

  /** What the owner says about a VM. */
  datatype VmSpec = VmSpec(name: string, state: string, lastExit: Option<nat>, restartPolicy: RestartPolicy, volumes: seq<string>,
                           imagePath: Option<string>, cpuCount: Option<nat>, memoryMib: Option<nat>, bootCrc: Option<nat>)

  datatype RemoteVm = RemoteVm(owner: NodeId, vmId: nat, spec: VmSpec, epoch: nat, hlc: nat, ownerAlive: bool)

  datatype Key = Key(owner: NodeId, vmId: nat)

  type Rows = map<Key, RemoteVm>

  function KeyOf(v: RemoteVm): Key { Key(v.owner, v.vmId) }

  /** A row as far as it travels: liveness is the receiver's business. */
  function Carried(v: RemoteVm): RemoteVm { v.(ownerAlive := true) }

  predicate Newer(a: RemoteVm, b: RemoteVm) { Above(a.epoch, a.hlc, b.epoch, b.hlc) }

  ghost predicate Keyed(rows: Rows) { forall k :: k in rows ==> KeyOf(rows[k]) == k }

  function MergedVm(self: NodeId, rows: Rows, v: RemoteVm): Rows {
    if v.owner == self || (KeyOf(v) in rows && !Newer(v, rows[KeyOf(v)])) then rows else rows[KeyOf(v) := Carried(v)]
  }

  function MergedVms(self: NodeId, rows: Rows, vs: seq<RemoteVm>): Rows
    decreases vs
  {
    if vs == [] then rows else MergedVms(self, MergedVm(self, rows, vs[0]), vs[1..])
  }

  function Foreign(self: NodeId, rows: Rows): Rows { map k | k in rows && k.owner != self :: rows[k] }

  function Local(self: NodeId, rows: Rows): Rows { map k | k in rows && k.owner == self :: rows[k] }

  function Own(self: NodeId, v: RemoteVm): RemoteVm { v.(owner := self, ownerAlive := true) }

  /** The local rows after a wholesale replacement; the last entry for an id wins. */
  function OwnRows(self: NodeId, vs: seq<RemoteVm>): Rows {
    if vs == [] then map[]
    else
      var v := Own(self, vs[|vs| - 1]);
      OwnRows(self, vs[..|vs| - 1])[KeyOf(v) := v]
  }

  function Refreshed(self: NodeId, rows: Rows, alive: set<NodeId>): Rows {
    map k | k in rows :: rows[k].(ownerAlive := rows[k].owner == self || rows[k].owner in alive)
  }

  /** The same rows but for liveness. */
  ghost predicate SameRows(a: Rows, b: Rows) {
    a.Keys == b.Keys && forall k :: k in a ==> Carried(a[k]) == Carried(b[k])
  }

  /** What a refresh leaves is determined by the rows up to liveness and by who is alive; in
      particular a later refresh overrides an earlier one. */
  lemma RefreshedOnly(self: NodeId, rows: Rows, u: Rows, alive: set<NodeId>)
    requires Keyed(rows)
    ensures u == Refreshed(self, rows, alive)
        <==> SameRows(u, rows) && forall k :: k in u ==> (u[k].ownerAlive <==> k.owner == self || k.owner in alive)
  {
    if SameRows(u, rows) && forall k :: k in u ==> (u[k].ownerAlive <==> k.owner == self || k.owner in alive) {
      var w := Refreshed(self, rows, alive);
      assert u.Keys == w.Keys;
      forall k | k in u
        ensures u[k] == w[k]
      {
        assert Carried(u[k]) == Carried(w[k]);
      }
    }
  }

  /** Liveness never decides a merge: refreshing before merging changes no row but in its liveness. */
  lemma {:induction false} MergesIgnoreLiveness(self: NodeId, a: Rows, b: Rows, vs: seq<RemoteVm>)
    requires SameRows(a, b)
    ensures SameRows(MergedVms(self, a, vs), MergedVms(self, b, vs))
    decreases vs
  {
    if vs != [] {
      var k := KeyOf(vs[0]);
      if k in a {
        assert Carried(a[k]) == Carried(b[k]);
      }
      MergesIgnoreLiveness(self, MergedVm(self, a, vs[0]), MergedVm(self, b, vs[0]), vs[1..]);
    }
  }

  class NamespaceFederation {
    const selfId: NodeId
    var rows: Rows

    constructor (selfId: NodeId)
      ensures this.selfId == selfId && rows == map[]
    {
      this.selfId := selfId;
      rows := map[];
    }

    ghost predicate Valid()
      reads this
    {
      Keyed(rows)
    }

    /** Replaces the own rows and nothing else. */
    method SetLocal(local: seq<RemoteVm>)
      requires Valid()
      modifies this
      ensures Valid()
      ensures Local(selfId, rows) == OwnRows(selfId, local)
      ensures Foreign(selfId, rows) == Foreign(selfId, old(rows))
    {
      rows := map k | k in rows && k.owner != selfId :: rows[k];
      for i := 0 to |local|
        invariant Keyed(rows) && Local(selfId, rows) == OwnRows(selfId, local[..i])
        invariant Foreign(selfId, rows) == Foreign(selfId, old(rows))
      {
        var row := local[i].(owner := selfId, ownerAlive := true);
        SetOne(selfId, rows, row);
        rows := rows[KeyOf(row) := row];
        assert local[..i + 1][..i] == local[..i];
      }
      assert local[..|local|] == local;
    }

    method Merge(incoming: RemoteVm) returns (changed: bool)
      requires Valid()
      modifies this
      ensures Valid() && rows == MergedVm(selfId, old(rows), incoming)
      ensures changed <==> rows != old(rows)
    {
      if incoming.owner == selfId {
        return false;
      }
      var row := incoming.(ownerAlive := true);
      var key := KeyOf(row);
      if key in rows && !Above(row.epoch, row.hlc, rows[key].epoch, rows[key].hlc) {
        return false;
      }
      assert rows[key := row][key] == row && (key in rows ==> rows[key] != row);
      rows := rows[key := row];
      changed := true;
    }

    method MergeAll(incoming: seq<RemoteVm>)
      requires Valid()
      modifies this
      ensures Valid() && rows == MergedVms(selfId, old(rows), incoming)
    {
      for k := 0 to |incoming|
        invariant Valid() && MergedVms(selfId, rows, incoming[k..]) == MergedVms(selfId, old(rows), incoming)
      {
        assert incoming[k..][1..] == incoming[k + 1..];
        var changed := Merge(incoming[k]);
      }
    }

    /** Sets the liveness of every row and leaves everything else of every row alone. */
    method RefreshAlive(alive: set<NodeId>)
      requires Valid()
      modifies this
      ensures Valid() && SameRows(rows, old(rows))
      ensures forall k :: k in rows ==> (rows[k].ownerAlive <==> k.owner == selfId || k.owner in alive)
    {
      var pending := rows.Keys;
      while pending != {}
        invariant Valid() && SameRows(rows, old(rows)) && pending <= rows.Keys
        invariant forall k :: k in rows && k !in pending ==> (rows[k].ownerAlive <==> k.owner == selfId || k.owner in alive)
        decreases pending
      {
        var k :| k in pending;
        pending := pending - {k};
        rows := rows[k := rows[k].(ownerAlive := rows[k].owner == selfId || rows[k].owner in alive)];
      }
    }

    /** The own rows, each once. */
    method LocalRows() returns (vs: seq<RemoteVm>)
      requires Valid()
      ensures forall v :: v in vs <==> v in Local(selfId, rows).Values
      ensures |vs| == |Local(selfId, rows)|
    {
      ghost var local := Local(selfId, rows);
      var pending := set k | k in rows && k.owner == selfId;
      vs := [];
      assert pending == local.Keys;
      while pending != {}
        invariant pending <= local.Keys
        invariant forall v :: v in vs <==> exists k :: k in local.Keys - pending && local[k] == v
        invariant |vs| + |pending| == |local.Keys|
        decreases pending
      {
        var k :| k in pending;
        pending := pending - {k};
        vs := vs + [rows[k]];
      }
    }
  }

  lemma SetOne(self: NodeId, rows: Rows, v: RemoteVm)
    requires v.owner == self
    ensures Local(self, rows[KeyOf(v) := v]) == Local(self, rows)[KeyOf(v) := v]
    ensures Foreign(self, rows[KeyOf(v) := v]) == Foreign(self, rows)
  {}

  // ----- convergence -------------------------------------------------------------------------

  /** Merging keeps, for every foreign VM, a row that nothing offered outdates; own rows stay. */
  lemma {:induction false} MergedIsNewest(self: NodeId, rows: Rows, vs: seq<RemoteVm>, k: Key)
    requires Keyed(rows)
    ensures var u := MergedVms(self, rows, vs);
      && Keyed(u)
      && (k.owner == self ==> (k in u <==> k in rows) && (k in rows ==> u[k] == rows[k]))
      && (k.owner != self ==> (k in u <==> k in rows || exists v :: v in vs && KeyOf(v) == k))
      && (k.owner != self && k in u ==>
           && ((k in rows && u[k] == rows[k]) || exists v :: v in vs && Carried(v) == u[k])
           && (k in rows ==> !Newer(rows[k], u[k]))
           && forall v :: v in vs && KeyOf(v) == k ==> !Newer(v, u[k]))
    decreases vs
  {
    if vs != [] {
      assert vs == [vs[0]] + vs[1..];
      MergedIsNewest(self, MergedVm(self, rows, vs[0]), vs[1..], k);
    }
  }

  /** One (owner, VM, epoch, hlc) names one content. */
  ghost predicate OneContent(vs: set<RemoteVm>) {
    forall v, w :: v in vs && w in vs && KeyOf(v) == KeyOf(w) && v.epoch == w.epoch && v.hlc == w.hlc ==> Carried(v) == Carried(w)
  }

  /** Main result: under one content per stamp, the foreign rows depend only on which rows were
      offered, whatever their order and however often. Different nodes agree too. */
  lemma VmsConverge(a: NodeId, b: NodeId, start: Rows, vs: seq<RemoteVm>, ws: seq<RemoteVm>, k: Key)
    requires Keyed(start) && k.owner != a && k.owner != b
    requires forall v :: v in vs <==> v in ws
    requires OneContent((set v | v in vs) + start.Values)
    ensures var u, w := MergedVms(a, start, vs), MergedVms(b, start, ws);
      (k in u <==> k in w) && (k in u ==> Carried(u[k]) == Carried(w[k]))
  {
    MergedIsNewest(a, start, vs, k);
    MergedIsNewest(b, start, ws, k);
    var u, w := MergedVms(a, start, vs), MergedVms(b, start, ws);
    if k in u {
      var x := Origin(a, start, vs, k);
      var y := Origin(b, start, ws, k);
    }
  }

  /** The offered row, or the row held before, that the table ended with. */
  lemma Origin(self: NodeId, start: Rows, vs: seq<RemoteVm>, k: Key) returns (x: RemoteVm)
    requires Keyed(start) && k.owner != self && k in MergedVms(self, start, vs)
    ensures x in (set v | v in vs) + start.Values && KeyOf(x) == k && Carried(x) == Carried(MergedVms(self, start, vs)[k])
  {
    MergedIsNewest(self, start, vs, k);
    var u := MergedVms(self, start, vs);
    if k in start && u[k] == start[k] {
      x := start[k];
    } else {
      x :| x in vs && Carried(x) == u[k];
    }
  }
}
