/** The orphan supervisor: who runs it, what counts as an orphan, what one pass creates, and which
    orphans are never recreated. */
module Supervisor {
  import opened Wrappers
  import opened Membership
  import opened Federation
  import opened Mesh

  // ----- the order on node ids -------------------------------------------------------------

  /** Byte-wise lexicographic order. */
  predicate Less(a: string, b: string) {
    b != "" && (a == "" || a[0] < b[0] || (a[0] == b[0] && Less(a[1..], b[1..])))
  }

  /** The order of texts: one is the front of the other, or the first byte in which they differ is
      lower. */
  lemma {:induction false} LessIsLexicographic(a: string, b: string)
    ensures Less(a, b) <==>
      (|a| < |b| && b[..|a|] == a)
      || exists k :: 0 <= k < |a| && k < |b| && a[..k] == b[..k] && a[k] < b[k]
  {
    if a != "" && b != "" && a[0] == b[0] {
      var x, y := a[1..], b[1..];
      LessIsLexicographic(x, y);
      assert a == [a[0]] + x && b == [b[0]] + y;
      if |a| < |b| {
        assert b[..|a|] == [b[0]] + y[..|x|];
        assert b[..|a|][1..] == y[..|x|];
      }
      forall k | 0 <= k < |x| && k < |y|
        ensures x[..k] == y[..k] <==> a[..k + 1] == b[..k + 1]
      {
        assert a[..k + 1] == [a[0]] + x[..k] && b[..k + 1] == [b[0]] + y[..k];
        assert a[..k + 1][1..] == x[..k] && b[..k + 1][1..] == y[..k];
      }
      if k :| 0 <= k < |x| && k < |y| && x[..k] == y[..k] && x[k] < y[k] {
        assert a[..k + 1] == b[..k + 1] && a[k + 1] < b[k + 1];
      }
      if k :| 0 <= k < |a| && k < |b| && a[..k] == b[..k] && a[k] < b[k] {
        assert k > 0;
        assert a[..(k - 1) + 1] == b[..(k - 1) + 1] && x[k - 1] < y[k - 1];
      }
    } else if a != "" && b != "" {
      assert a[..0] == b[..0];
      if |a| < |b| {
        assert a[..|a|] == a;
        SameFront(a, b, |a|);
      }
      if k :| 0 <= k < |a| && k < |b| && a[..k] == b[..k] && a[k] < b[k] {
        SameFront(a, b, k);
      }
    } else if a == "" && b != "" {
      assert b[..0] == "";
    }
  }

  lemma SameFront(a: string, b: string, k: nat)
    requires k <= |a| && k <= |b|
    ensures k > 0 && a[..k] == b[..k] ==> a[0] == b[0]
  {
    if k > 0 && a[..k] == b[..k] {
      assert a[..k][0] == a[0] && b[..k][0] == b[0];
    }
  }

  lemma {:induction false} LessTotal(a: string, b: string)
    ensures a == b || Less(a, b) || Less(b, a)
    ensures !(Less(a, b) && Less(b, a)) && !Less(a, a)
  {
    if a != "" && b != "" {
      LessTotal(a[1..], b[1..]);
      assert a == [a[0]] + a[1..] && b == [b[0]] + b[1..];
    }
    if a != "" {
      LessTotal(a[1..], a[1..]);
    }
  }

  lemma {:induction false} LessTrans(a: string, b: string, c: string)
    requires Less(a, b) && Less(b, c)
    ensures Less(a, c)
  {
    if a != "" && a[0] == b[0] && b[0] == c[0] {
      LessTrans(a[1..], b[1..], c[1..]);
    }
  }

  // ----- election ------------------------------------------------------------------------------

  predicate SeesAlive(t: Table, id: NodeId) { id in t.rows && t.rows[id].status == Alive }

  /** The node's own row is alive and no alive row has a lower id. */
  ghost predicate Leads(t: Table) {
    SeesAlive(t, t.self) && forall id :: SeesAlive(t, id) ==> id == t.self || Less(t.self, id)
  }

  method IsSupervisor(m: MembershipTable) returns (yes: bool)
    requires m.Valid()
    ensures yes <==> Leads(m.View())
  {
    var t := m.View();
    var pending := t.rows.Keys;
    var lowest: Option<NodeId> := None;
    while pending != {}
      invariant pending <= t.rows.Keys
      invariant lowest.None? ==> forall id :: SeesAlive(t, id) ==> id in pending
      invariant lowest.Some? ==> SeesAlive(t, lowest.value) && lowest.value !in pending
      invariant lowest.Some? ==> forall id :: SeesAlive(t, id) ==> id in pending || id == lowest.value || Less(lowest.value, id)
      decreases pending
    {
      var id :| id in pending;
      pending := pending - {id};
      if t.rows[id].status == Alive {
        if lowest.Some? {
          LessTotal(id, lowest.value);
          BelowAll(t, pending, id, lowest.value);
        }
        if lowest.None? || Less(id, lowest.value) {
          lowest := Some(id);
        }
      }
    }
    if lowest.Some? {
      LessTotal(lowest.value, t.self);
    }
    yes := lowest == Some(m.selfId);
  }

  lemma BelowAll(t: Table, pending: set<NodeId>, id: NodeId, lowest: NodeId)
    requires forall j :: SeesAlive(t, j) ==> j in pending || j == id || j == lowest || Less(lowest, j)
    ensures Less(id, lowest) ==> forall j :: SeesAlive(t, j) ==> j in pending || j == id || Less(id, j)
  {
    forall j | SeesAlive(t, j) && j !in pending && j != id && Less(id, lowest)
      ensures Less(id, j)
    {
      if j != lowest { LessTrans(id, lowest, j); }
    }
  }

  /** Main result (exclusivity): two nodes that see each other alive never both supervise. */
  lemma OneSupervisor(a: Table, b: Table)
    requires a.self != b.self && SeesAlive(a, b.self) && SeesAlive(b, a.self)
    ensures !(Leads(a) && Leads(b))
  {
    LessTotal(a.self, b.self);
  }

  lemma {:induction false} LowestExists(ids: set<NodeId>) returns (low: NodeId)
    requires ids != {}
    ensures low in ids && forall id :: id in ids ==> id == low || Less(low, id)
    decreases ids
  {
    var x :| x in ids;
    low := x;
    var rest := ids - {x};
    assert forall id :: id in ids <==> id == x || id in rest;
    if rest != {} {
      var y := LowestExists(rest);
      LessTotal(x, y);
      if Less(y, x) {
        low := y;
      } else {
        forall id | id in rest && id != y
          ensures Less(x, id)
        {
          LessTrans(x, y, id);
        }
      }
    }
  }

  /** Nodes that agree on who is alive, themselves among them, elect exactly one supervisor. */
  lemma AgreedViewElects(t: Table) returns (low: NodeId)
    requires AliveIds(t) != {}
    ensures low in AliveIds(t)
    ensures forall u: Table :: AliveIds(u) == AliveIds(t) && u.self in AliveIds(t) ==> (Leads(u) <==> u.self == low)
  {
    low := LowestExists(AliveIds(t));
    forall u: Table | AliveIds(u) == AliveIds(t) && u.self in AliveIds(t)
      ensures Leads(u) <==> u.self == low
    {
      assert forall id :: SeesAlive(u, id) <==> id in AliveIds(u);
      LessTotal(low, u.self);
    }
  }

  // ----- orphans -----------------------------------------------------------------------------------

  function AliveIds(t: Table): set<NodeId> { set id | id in t.rows && t.rows[id].status == Alive }

  predicate IsOrphan(v: RemoteVm) { !v.ownerAlive && v.spec.restartPolicy == Always }

  /** The orphans among the rows as refreshed from the membership table. */
  function Orphans(self: NodeId, rows: Rows, t: Table): Rows {
    var seen := Refreshed(self, rows, AliveIds(t));
    map k | k in seen && IsOrphan(seen[k]) :: seen[k]
  }

  /** A row is an orphan exactly when its policy asks for a restart and its owner is another
      node that is not known to be alive. */
  lemma OrphansExactly(self: NodeId, rows: Rows, t: Table, k: Key)
    requires Keyed(rows)
    ensures k in Orphans(self, rows, t) <==>
      k in rows && rows[k].spec.restartPolicy == Always && k.owner != self && !SeesAlive(t, k.owner)
    ensures k in Orphans(self, rows, t) ==> Carried(Orphans(self, rows, t)[k]) == Carried(rows[k])
  {}

  // ----- listing in key order ------------------------------------------------------------------------

  /** The order of the namespace's keys: by owner, then by number. */
  predicate KeyLess(a: Key, b: Key) { Less(a.owner, b.owner) || (a.owner == b.owner && a.vmId < b.vmId) }

  lemma KeyOrder(a: Key, b: Key, c: Key)
    ensures a == b || KeyLess(a, b) || KeyLess(b, a)
    ensures KeyLess(a, b) && KeyLess(b, c) ==> KeyLess(a, c)
    ensures !KeyLess(a, a)
  {
    LessTotal(a.owner, b.owner);
    LessTotal(a.owner, a.owner);
    if Less(a.owner, b.owner) && Less(b.owner, c.owner) { LessTrans(a.owner, b.owner, c.owner); }
  }

  ghost predicate Lowest(keys: set<Key>, low: Key) { low in keys && forall k :: k in keys ==> k == low || KeyLess(low, k) }

  lemma {:induction false} LowestKey(keys: set<Key>)
    requires keys != {}
    ensures exists low :: Lowest(keys, low)
    decreases keys
  {
    var x :| x in keys;
    var rest := keys - {x};
    assert forall k :: k in keys <==> k == x || k in rest;
    if rest == {} {
      assert Lowest(keys, x);
    } else {
      LowestKey(rest);
      var y :| Lowest(rest, y);
      KeyOrder(x, y, y);
      forall k
        ensures KeyLess(x, y) && KeyLess(y, k) ==> KeyLess(x, k)
      {
        KeyOrder(x, y, k);
      }
      assert Lowest(keys, if KeyLess(x, y) then x else y);
    }
  }

  /** All rows of the map, in key order. */
  ghost predicate InOrder(vs: seq<RemoteVm>, rows: Rows) {
    && (forall v :: v in vs <==> v in rows.Values)
    && forall i, j :: 0 <= i < j < |vs| ==> KeyLess(KeyOf(vs[i]), KeyOf(vs[j]))
  }

  /** The orphans, after the liveness of every row has been refreshed from the membership table. */
  method OrphanedVms(m: Inner) returns (vs: seq<RemoteVm>)
    requires m.Valid()
    modifies m.federation
    ensures m.Valid() && m.View() == old(m.View()).(vms := Refreshed(m.id, old(m.View()).vms, AliveIds(m.membership.View())))
    ensures InOrder(vs, Orphans(m.id, old(m.View()).vms, m.membership.View()))
    ensures forall i, j :: 0 <= i < j < |vs| ==>
      Less(vs[i].owner, vs[j].owner) || (vs[i].owner == vs[j].owner && vs[i].vmId < vs[j].vmId)
  {
    var alive := AliveIds(m.membership.View());
    ghost var before := m.federation.rows;
    m.federation.RefreshAlive(alive);
    RefreshedOnly(m.id, before, m.federation.rows, alive);
    vs := ListOrphans(m.federation.rows);
  }

  method ListOrphans(rows: Rows) returns (vs: seq<RemoteVm>)
    requires Keyed(rows)
    ensures InOrder(vs, map k | k in rows && IsOrphan(rows[k]) :: rows[k])
  {
    var pending := set k | k in rows && IsOrphan(rows[k]);
    ghost var all := pending;
    vs := [];
    while pending != {}
      invariant pending <= all
      invariant forall v :: v in vs <==> exists k :: k in all - pending && rows[k] == v
      invariant forall i, j :: 0 <= i < j < |vs| ==> KeyLess(KeyOf(vs[i]), KeyOf(vs[j]))
      invariant forall i, k :: 0 <= i < |vs| && k in pending ==> KeyLess(KeyOf(vs[i]), k)
      decreases pending
    {
      hide KeyLess;
      LowestKey(pending);
      var k :| k in pending && forall j :: j in pending ==> j == k || KeyLess(k, j);
      pending := pending - {k};
      vs := vs + [rows[k]];
    }
  }

  // ----- the host --------------------------------------------------------------------------------------

  const LABEL_CAP: nat := 32

  /** The in-memory host: a fixed number of slots, and whether its capabilities allow a create. */
  class MemHost {
    const mayCreate: bool
    var slots: seq<Option<VmSpec>>

    constructor (size: nat, mayCreate: bool)
      ensures this.mayCreate == mayCreate
      ensures |slots| == size && forall k :: 0 <= k < size ==> slots[k] == None
    {
      this.mayCreate := mayCreate;
      slots := seq(size, _ => None);
    }

    /** Puts the VM in the first free slot. */
    method Create(spec: VmSpec) returns (r: Result<nat, HyperError>)
      modifies this
      ensures |slots| == |old(slots)|
      ensures r.Ok? <==> mayCreate && |spec.name| <= LABEL_CAP && None in old(slots)
      ensures r.Err? ==> slots == old(slots)
      ensures r.Ok? ==> r.value < |slots| && old(slots)[r.value] == None && None !in old(slots)[..r.value]
      ensures r.Ok? ==> slots == old(slots)[r.value := Some(spec)]
    {
      if !mayCreate {
        return Err(Denied);
      }
      if |spec.name| > LABEL_CAP {
        return Err(Invalid);
      }
      for i := 0 to |slots|
        invariant slots == old(slots) && None !in slots[..i]
      {
        if slots[i] == None {
          slots := slots[i := Some(spec)];
          return Ok(i);
        }
      }
      assert slots[..|slots|] == slots;
      r := Err(Exhausted);
    }

    /** Replaces the volumes of a VM. */
    method AttachPreserved(id: nat, volumes: seq<string>) returns (r: Result<(), HyperError>)
      modifies this
      ensures r.Ok? <==> id < |old(slots)| && old(slots)[id].Some?
      ensures slots == if r.Ok? then old(slots)[id := Some(old(slots)[id].value.(volumes := volumes))] else old(slots)
    {
      if id >= |slots| || slots[id].None? {
        return Err(Invalid);
      }
      slots := slots[id := Some(slots[id].value.(volumes := volumes))];
      r := Ok(());
    }

    /** The labels of the VMs on this host. */
    function Names(): set<string>
      reads this
    {
      NamesOf(slots)
    }
  }

  function NamesOf(slots: seq<Option<VmSpec>>): set<string> {
    set k | 0 <= k < |slots| && slots[k].Some? :: slots[k].value.name
  }

  /** The rows a host reports, by slot. */
  function HostRows(self: NodeId, slots: seq<Option<VmSpec>>): seq<RemoteVm> {
    if slots == [] then []
    else
      var k := |slots| - 1;
      HostRows(self, slots[..k]) + (if slots[k].None? then [] else [RemoteVm(self, k, slots[k].value, 0, 0, true)])
  }

  // ----- new labels ----------------------------------------------------------------------------------------

  function FullName(v: RemoteVm): string { v.spec.name + "@" + v.owner }

  /** The recreated VM's label records where it came from, cut to the cap by bytes. */
  function NewName(v: RemoteVm): (s: string)
    ensures |s| <= LABEL_CAP
  {
    var full := FullName(v);
    if |full| > LABEL_CAP then full[..LABEL_CAP] else full
  }

  /** The cut falls inside a multi-byte character: the byte behind it is a continuation byte of
      UTF-8 (RFC 3629 section 3). Cutting such a name is a panic. */
  predicate Splits(v: RemoteVm) {
    |FullName(v)| > LABEL_CAP && 0x80 <= FullName(v)[LABEL_CAP] as int <= 0xBF
  }

  function NewLabel(v: RemoteVm): Option<string> { if Splits(v) then None else Some(NewName(v)) }

  /** Two orphans get the same new label exactly when both names can be cut and the full names are
      equal, or both are at least as long as the cap and agree up to it. */
  lemma NewNamesEqual(v: RemoteVm, w: RemoteVm)
    ensures var x, y := FullName(v), FullName(w);
      NewLabel(v).Some? && NewLabel(v) == NewLabel(w)
      <==> !Splits(v) && !Splits(w) && (x == y || (|x| >= LABEL_CAP && |y| >= LABEL_CAP && x[..LABEL_CAP] == y[..LABEL_CAP]))
  {
    CutsEqual(v, w);
    hide NewName, Splits;
  }

  lemma CutsEqual(v: RemoteVm, w: RemoteVm)
    ensures var x, y := FullName(v), FullName(w);
      NewName(v) == NewName(w) <==> x == y || (|x| >= LABEL_CAP && |y| >= LABEL_CAP && x[..LABEL_CAP] == y[..LABEL_CAP])
  {
    var x, y := FullName(v), FullName(w);
    assert |x| == LABEL_CAP ==> x[..LABEL_CAP] == x;
    assert |y| == LABEL_CAP ==> y[..LABEL_CAP] == y;
  }

  /** v's label is w's label with an at sign and the front of w's owner id behind it. */
  ghost predicate Runs(v: RemoteVm, w: RemoteVm) {
    exists x :: v.spec.name == w.spec.name + "@" + x && w.owner == x + "@" + v.owner
  }

  lemma SplitLonger(v: RemoteVm, w: RemoteVm)
    requires FullName(v) == FullName(w) && |v.spec.name| > |w.spec.name|
    ensures Runs(v, w)
  {
    var all, n, m := FullName(v), |v.spec.name|, |w.spec.name|;
    assert all[..n] == v.spec.name && all[n] == '@' && all[n + 1..] == v.owner;
    assert all[..m] == w.spec.name && all[m] == '@' && all[m + 1..] == w.owner;
    var x := all[m + 1..n];
    assert v.spec.name == w.spec.name + "@" + x && w.owner == x + "@" + v.owner;
  }

  /** Full names are equal exactly when label and owner are, or an at sign in them can be read
      either way. */
  lemma FullNamesEqual(v: RemoteVm, w: RemoteVm)
    ensures FullName(v) == FullName(w)
        <==> (v.spec.name == w.spec.name && v.owner == w.owner) || Runs(v, w) || Runs(w, v)
  {
    if FullName(v) == FullName(w) {
      var n := |v.spec.name|;
      if n == |w.spec.name| {
        assert v.spec.name == FullName(v)[..n] == FullName(w)[..n] == w.spec.name;
        assert v.owner == FullName(v)[n + 1..] == FullName(w)[n + 1..] == w.owner;
      } else if n > |w.spec.name| {
        SplitLonger(v, w);
      } else {
        SplitLonger(w, v);
      }
    }
    RunsJoin(v, w);
    RunsJoin(w, v);
  }

  lemma RunsJoin(v: RemoteVm, w: RemoteVm)
    ensures Runs(v, w) ==> FullName(v) == FullName(w)
  {
    if Runs(v, w) {
      var x :| v.spec.name == w.spec.name + "@" + x && w.owner == x + "@" + v.owner;
      assert (w.spec.name + "@" + x) + "@" + v.owner == w.spec.name + "@" + (x + "@" + v.owner);
    }
  }

  /** What can be checked of the orphans beforehand: the full names fit the cap, no label holds an
      at sign, or no owner id does. */
  predicate Tellable(vs: set<RemoteVm>) {
    && (forall v :: v in vs ==> |v.spec.name| + 1 + |v.owner| <= LABEL_CAP)
    && ((forall v :: v in vs ==> '@' !in v.spec.name) || (forall v :: v in vs ==> '@' !in v.owner))
  }

  /** Then all names can be cut, and new labels tell orphans apart exactly as label and owner do. */
  lemma TellableNames(vs: set<RemoteVm>, v: RemoteVm, w: RemoteVm)
    requires Tellable(vs) && v in vs && w in vs
    ensures !Splits(v) && !Splits(w)
    ensures NewName(v) == NewName(w) <==> v.spec.name == w.spec.name && v.owner == w.owner
  {
    CutsEqual(v, w);
    FullNamesEqual(v, w);
    NoRun(v, w);
    NoRun(w, v);
    assert |FullName(v)| == LABEL_CAP ==> FullName(v)[..LABEL_CAP] == FullName(v);
    assert |FullName(w)| == LABEL_CAP ==> FullName(w)[..LABEL_CAP] == FullName(w);
  }

  lemma NoRun(v: RemoteVm, w: RemoteVm)
    requires '@' !in v.spec.name || '@' !in w.owner
    ensures !Runs(v, w)
  {
    forall x
      ensures '@' in w.spec.name + "@" + x && '@' in x + "@" + v.owner
    {
      assert (w.spec.name + "@" + x)[|w.spec.name|] == '@' && (x + "@" + v.owner)[|x|] == '@';
    }
  }

  // ----- one pass ------------------------------------------------------------------------------------------

  function NewSpec(v: RemoteVm): VmSpec {
    VmSpec(NewName(v), "created", None, Never, v.spec.volumes, v.spec.imagePath, v.spec.cpuCount, v.spec.memoryMib, v.spec.bootCrc)
  }

  /** The orphans a pass recreates: those whose new label the host did not have when it began. */
  function Wanted(orphans: seq<RemoteVm>, existing: set<string>): seq<RemoteVm> {
    if orphans == [] then []
    else
      var rest := Wanted(orphans[..|orphans| - 1], existing);
      var v := orphans[|orphans| - 1];
      if NewName(v) in existing then rest else rest + [v]
  }

  /** How many orphans a pass gets to: it ends at the first whose name cannot be cut. */
  function Reach(orphans: seq<RemoteVm>): (n: nat)
    ensures n <= |orphans| && forall k :: 0 <= k < n ==> !Splits(orphans[k])
    ensures n < |orphans| ==> Splits(orphans[n])
  {
    if orphans == [] || Splits(orphans[0]) then 0 else 1 + Reach(orphans[1..])
  }

  lemma {:induction false} ReachIs(orphans: seq<RemoteVm>, n: nat)
    requires n <= |orphans| && (forall k :: 0 <= k < n ==> !Splits(orphans[k])) && (n < |orphans| ==> Splits(orphans[n]))
    ensures Reach(orphans) == n
  {
    hide Splits;
    var k := Reach(orphans);
    assert n < |orphans| ==> Splits(orphans[n]);
    assert k < |orphans| ==> Splits(orphans[k]);
  }

  /** What a pass has to recreate before it ends or panics. */
  function Due(orphans: seq<RemoteVm>, existing: set<string>): seq<RemoteVm> { Wanted(orphans[..Reach(orphans)], existing) }

  function Free(slots: seq<Option<VmSpec>>): nat {
    if slots == [] then 0 else Free(slots[..|slots| - 1]) + (if slots[|slots| - 1] == None then 1 else 0)
  }

  lemma {:induction false} FreeSlot(slots: seq<Option<VmSpec>>)
    ensures Free(slots) == 0 <==> None !in slots
  {
    if slots != [] {
      FreeSlot(slots[..|slots| - 1]);
      assert slots == slots[..|slots| - 1] + [slots[|slots| - 1]];
    }
  }

  lemma {:induction false} FreeTaken(slots: seq<Option<VmSpec>>, id: nat, spec: VmSpec)
    requires id < |slots| && slots[id] == None
    ensures Free(slots) == Free(slots[id := Some(spec)]) + 1
  {
    var k := |slots| - 1;
    var after := slots[id := Some(spec)];
    if id < k {
      FreeTaken(slots[..k], id, spec);
      assert after[..k] == slots[..k][id := Some(spec)];
    } else {
      assert after[..k] == slots[..k];
    }
  }

  /** The host can take all that is due. */
  predicate Fits(due: seq<RemoteVm>, slots: seq<Option<VmSpec>>, mayCreate: bool) {
    due == [] || (mayCreate && |due| <= Free(slots))
  }

  /** How many VMs a pass makes. */
  function Makes(due: seq<RemoteVm>, slots: seq<Option<VmSpec>>, mayCreate: bool): nat {
    if !mayCreate then 0 else if |due| <= Free(slots) then |due| else Free(slots)
  }

  /** The slots after VMs were put into the first free slots one by one. */
  ghost predicate Filled(before: seq<Option<VmSpec>>, after: seq<Option<VmSpec>>, vs: seq<RemoteVm>, ids: seq<nat>) {
    && |after| == |before| && |ids| == |vs|
    && (forall i :: 0 <= i < |ids| ==> ids[i] < |before| && before[ids[i]] == None && after[ids[i]] == Some(NewSpec(vs[i])))
    && (forall i, j :: 0 <= i < j < |ids| ==> ids[i] != ids[j])
    && (forall k :: 0 <= k < |before| && k !in ids ==> after[k] == before[k])
  }

  lemma FilledOneMore(before: seq<Option<VmSpec>>, mid: seq<Option<VmSpec>>, vs: seq<RemoteVm>, ids: seq<nat>, v: RemoteVm, id: nat)
    requires Filled(before, mid, vs, ids) && id < |mid| && mid[id] == None
    ensures Filled(before, mid[id := Some(NewSpec(v))], vs + [v], ids + [id])
  {
    assert id !in ids;
    hide NewSpec;
    var after := mid[id := Some(NewSpec(v))];
    assert forall k :: 0 <= k < |before| && k !in ids + [id] ==> k !in ids && k != id;
  }

  lemma {:induction false} WantedPrefix(orphans: seq<RemoteVm>, existing: set<string>, i: nat)
    requires i <= |orphans|
    ensures Wanted(orphans[..i], existing) <= Wanted(orphans, existing)
    decreases |orphans| - i
  {
    hide NewName;
    if i == |orphans| {
      assert orphans[..i] == orphans;
    } else {
      WantedPrefix(orphans, existing, i + 1);
      assert orphans[..i + 1][..i] == orphans[..i];
    }
  }

  datatype PassEnd = Done(restarted: seq<RestartedVm>) | Gave(error: HyperError) | Panicked

  datatype RestartedVm = RestartedVm(originalOwner: NodeId, originalVmId: nat, newVmId: nat, name: string)

  function Report(v: RemoteVm, id: nat): RestartedVm { RestartedVm(v.owner, v.vmId, id, NewName(v)) }

  function Reports(vs: seq<RemoteVm>, ids: seq<nat>): seq<RestartedVm>
    requires |vs| == |ids|
  {
    seq(|vs|, i requires 0 <= i < |vs| => Report(vs[i], ids[i]))
  }

  lemma ReportsMore(vs: seq<RemoteVm>, ids: seq<nat>, v: RemoteVm, id: nat)
    requires |vs| == |ids|
    ensures Reports(vs + [v], ids + [id]) == Reports(vs, ids) + [RestartedVm(v.owner, v.vmId, id, NewName(v))]
  {
    hide NewName;
  }

  /** A VM for one orphan, with the orphan's volumes. */
  method Recreate(v: RemoteVm, host: MemHost) returns (r: Result<nat, HyperError>)
    modifies host
    ensures r.Ok? <==> host.mayCreate && None in old(host.slots)
    ensures r.Err? ==> host.slots == old(host.slots)
    ensures r.Ok? ==>
      r.value < |old(host.slots)| && old(host.slots)[r.value] == None && host.slots == old(host.slots)[r.value := Some(NewSpec(v))]
  {
    hide NewName;
    r := host.Create(NewSpec(v).(volumes := []));
    if r.Ok? && v.spec.volumes != [] {
      var attached := host.AttachPreserved(r.value, v.spec.volumes);
    }
  }

  /** Main result: one pass over the orphans. It panics exactly when the name of some orphan cannot be
      cut and the host can take all that is due before it; it gives up exactly when the host cannot;
      in either case it keeps the VMs made so far. Existing VMs are never touched. */
  method RunPass(orphans: seq<RemoteVm>, host: MemHost) returns (r: PassEnd, ghost made: seq<nat>)
    modifies host
    ensures var before, due := old(host.slots), Due(orphans, NamesOf(old(host.slots)));
      && |made| == Makes(due, before, host.mayCreate) <= |due| && Filled(before, host.slots, due[..|made|], made)
      && (r.Done? <==> Fits(due, before, host.mayCreate) && Reach(orphans) == |orphans|)
      && (r.Panicked? <==> Fits(due, before, host.mayCreate) && Reach(orphans) < |orphans|)
      && (r.Done? ==> |made| == |due| && r.restarted == Reports(due, made))
  {
    hide NewName, NamesOf, Filled, Splits, Free;
    var existing := host.Names();
    ghost var before, due := host.slots, Due(orphans, existing);
    made := [];
    var out: seq<RestartedVm> := [];
    assert Filled(before, before, [], []) by { FilledNothing(before); }
    for i := 0 to |orphans|
      invariant forall k :: 0 <= k < i ==> !Splits(orphans[k])
      invariant |made| == |Wanted(orphans[..i], existing)|
      invariant Filled(before, host.slots, Wanted(orphans[..i], existing), made)
      invariant |made| + Free(host.slots) == Free(before) && (made != [] ==> host.mayCreate)
      invariant out == Reports(Wanted(orphans[..i], existing), made)
    {
      var v := orphans[i];
      if Splits(v) {
        ReachIs(orphans, i);
        assert due[..|made|] == due;
        return Panicked, made;
      }
      ghost var done := Wanted(orphans[..i], existing);
      NextWanted(orphans, existing, i);
      if NewName(v) in existing {
        continue;
      }
      ghost var mid := host.slots;
      FreeSlot(mid);
      var id := Recreate(v, host);
      if id.Err? {
        assert due[..|made|] == done;
        return Gave(id.error), made;
      }
      FreeTaken(mid, id.value, NewSpec(v));
      FilledOneMore(before, mid, done, made, v, id.value);
      ReportsMore(done, made, v, id.value);
      made := made + [id.value];
      out := out + [RestartedVm(v.owner, v.vmId, id.value, NewName(v))];
    }
    ReachIs(orphans, |orphans|);
    assert orphans[..|orphans|] == orphans;
    assert due[..|made|] == due;
    r := Done(out);
  }

  /** What is due grows by the next orphan when its new label is not there yet. */
  lemma NextWanted(orphans: seq<RemoteVm>, existing: set<string>, i: nat)
    requires i < |orphans| && forall k :: 0 <= k <= i ==> !Splits(orphans[k])
    ensures Wanted(orphans[..i + 1], existing)
         == if NewName(orphans[i]) in existing then Wanted(orphans[..i], existing) else Wanted(orphans[..i], existing) + [orphans[i]]
    ensures Wanted(orphans[..i + 1], existing) <= Due(orphans, existing)
  {
    hide NewName, Splits;
    assert orphans[..i + 1][..i] == orphans[..i];
    var n := Reach(orphans);
    assert i < n;
    assert orphans[..n][..i + 1] == orphans[..i + 1];
    WantedPrefix(orphans[..n], existing, i + 1);
  }

  lemma FilledNothing(slots: seq<Option<VmSpec>>)
    ensures Filled(slots, slots, [], [])
  {}

  lemma {:induction false} WantedExactly(orphans: seq<RemoteVm>, existing: set<string>)
    ensures forall v :: v in Wanted(orphans, existing) <==> v in orphans && NewName(v) !in existing
  {
    hide NewName;
    if orphans != [] {
      WantedExactly(orphans[..|orphans| - 1], existing);
      assert orphans == orphans[..|orphans| - 1] + [orphans[|orphans| - 1]];
    }
  }

  // ----- the step as a node runs it --------------------------------------------------------------------------

  /** What a step leaves of a node: the liveness of the rows is refreshed, and if any VM was
      recreated the host's VMs are published. */
  function AfterStep(n: Node, slots: seq<Option<VmSpec>>, restarted: bool, now: nat): Node {
    var seen := n.(vms := Refreshed(n.id, n.vms, AliveIds(n.table)));
    if restarted then Published(seen, HostRows(n.id, slots), now) else seen
  }

  method Snapshot(self: NodeId, host: MemHost) returns (rows: seq<RemoteVm>)
    ensures rows == HostRows(self, host.slots)
  {
    rows := [];
    for k := 0 to |host.slots|
      invariant rows == HostRows(self, host.slots[..k])
    {
      assert host.slots[..k + 1][..k] == host.slots[..k];
      if host.slots[k].Some? {
        rows := rows + [RemoteVm(self, k, host.slots[k].value, 0, 0, true)];
      }
    }
    assert host.slots[..|host.slots|] == host.slots;
  }

  /** One supervision step. A node that does not lead, or has no host, does nothing. Otherwise one
      pass runs over the orphans in key order, and only a pass that came to its end and recreated
      something is followed by a publication of the host's VMs. */
  method RunSupervisorStep(m: Inner, host: Option<MemHost>, now: nat)
    returns (r: PassEnd, ghost orphans: seq<RemoteVm>, ghost made: seq<nat>)
    requires m.Valid()
    modifies m, m.membership, m.federation, if host.Some? then {host.value} else {}
    ensures m.Valid()
    ensures !Leads(old(m.membership.View())) ==> r == Done([])
    ensures Leads(old(m.membership.View())) && host.None? ==> r == Gave(Invalid)
    ensures !Leads(old(m.membership.View())) || host.None? ==> m.View() == old(m.View())
    ensures !Leads(old(m.membership.View())) && host.Some? ==> host.value.slots == old(host.value.slots)
    ensures Leads(old(m.membership.View())) && host.Some? ==>
      var before, after := old(host.value.slots), host.value.slots;
      var due := Due(orphans, NamesOf(before));
      && InOrder(orphans, Orphans(m.id, old(m.View()).vms, old(m.View()).table))
      && |made| == Makes(due, before, host.value.mayCreate) <= |due| && Filled(before, after, due[..|made|], made)
      && (r.Done? <==> Fits(due, before, host.value.mayCreate) && Reach(orphans) == |orphans|)
      && (r.Panicked? <==> Fits(due, before, host.value.mayCreate) && Reach(orphans) < |orphans|)
      && (r.Done? ==> |made| == |due| && r.restarted == Reports(due, made))
      && m.View() == AfterStep(old(m.View()), after, r.Done? && made != [], now)
  {
    hide Filled, Due, Reach, Makes, Fits, NamesOf, InOrder, Refreshed, Published, Orphans;
    orphans, made := [], [];
    var leads := IsSupervisor(m.membership);
    if !leads {
      return Done([]), orphans, made;
    }
    if host.None? {
      return Gave(Invalid), orphans, made;
    }
    var vs := OrphanedVms(m);
    orphans := vs;
    if vs == [] {
      NoOrphans(host.value.slots, host.value.mayCreate);
      return Done([]), orphans, made;
    }
    r, made := RunPass(vs, host.value);
    if r.Done? && r.restarted != [] {
      var rows := Snapshot(m.id, host.value);
      m.PublishLocalVms(rows, now);
    }
  }

  lemma NoOrphans(slots: seq<Option<VmSpec>>, mayCreate: bool)
    ensures Due([], NamesOf(slots)) == [] && Reach([]) == 0 && Filled(slots, slots, [], [])
    ensures Makes([], slots, mayCreate) == 0 && Fits([], slots, mayCreate)
  {}

  /** A publication shows every node the host's VMs exactly as they are. */
  lemma PublishedHost(n: Node, slots: seq<Option<VmSpec>>, now: nat, k: nat)
    ensures var rows := Published(n, HostRows(n.id, slots), now).vms;
      && (Key(n.id, k) in rows <==> k < |slots| && slots[k].Some?)
      && (Key(n.id, k) in rows ==> rows[Key(n.id, k)].spec == slots[k].value)
  {
    HostRowsOwn(TickHlc(n), slots, k);
  }

  lemma {:induction false} HostRowsOwn(n: Node, slots: seq<Option<VmSpec>>, k: nat)
    ensures var rows := OwnRows(n.id, StampAll(n, HostRows(n.id, slots)));
      && (Key(n.id, k) in rows <==> k < |slots| && slots[k].Some?)
      && (Key(n.id, k) in rows ==> rows[Key(n.id, k)].spec == slots[k].value)
  {
    if slots != [] {
      var j := |slots| - 1;
      HostRowsOwn(n, slots[..j], k);
      var rest := HostRows(n.id, slots[..j]);
      if slots[j].Some? {
        var v := RemoteVm(n.id, j, slots[j].value, 0, 0, true);
        var all := StampAll(n, rest + [v]);
        assert all[..|all| - 1] == StampAll(n, rest) && all[|all| - 1] == Stamp(n, v);
      } else {
        assert rest + [] == rest;
      }
    }
  }

  // ----- which orphans are recreated -----------------------------------------------------------------------

  function NewNames(vs: seq<RemoteVm>): set<string> { set v | v in vs :: NewName(v) }

  /** A pass made this VM for the orphan. */
  ghost predicate MadeFor(w: RemoteVm, before: seq<Option<VmSpec>>, after: seq<Option<VmSpec>>, vs: seq<RemoteVm>, ids: seq<nat>) {
    exists i :: 0 <= i < |vs| == |ids| && vs[i] == w && ids[i] < |before| == |after| && before[ids[i]] == None
             && after[ids[i]] == Some(NewSpec(w))
  }

  /** A pass that may have stopped: ids are the VMs it made. */
  ghost predicate Ran(orphans: seq<RemoteVm>, before: seq<Option<VmSpec>>, after: seq<Option<VmSpec>>, ids: seq<nat>) {
    var due := Due(orphans, NamesOf(before));
    |ids| <= |due| && Filled(before, after, due[..|ids|], ids)
  }

  /** A pass that came to its end. */
  ghost predicate Ended(orphans: seq<RemoteVm>, before: seq<Option<VmSpec>>, ids: seq<nat>) {
    Reach(orphans) == |orphans| && |ids| == |Due(orphans, NamesOf(before))|
  }

  /** The orphans a pass made VMs for. */
  function Served(orphans: seq<RemoteVm>, before: seq<Option<VmSpec>>, ids: seq<nat>): seq<RemoteVm> {
    var due := Due(orphans, NamesOf(before));
    if |ids| <= |due| then due[..|ids|] else due
  }

  lemma DueExactly(orphans: seq<RemoteVm>, existing: set<string>)
    ensures forall v :: v in Due(orphans, existing) <==> v in orphans[..Reach(orphans)] && NewName(v) !in existing
    ensures forall v :: v in Due(orphans, existing) ==> v in orphans && !Splits(v)
  {
    hide NewName, Splits;
    WantedExactly(orphans[..Reach(orphans)], existing);
  }

  /** Main result: whether it comes to its end or stops half-way, a pass makes a VM for each orphan it
      serves and adds exactly their labels. A pass that comes to its end serves exactly the orphans
      whose new label no VM of the host had before. */
  lemma PlacedExactly(orphans: seq<RemoteVm>, before: seq<Option<VmSpec>>, after: seq<Option<VmSpec>>, ids: seq<nat>)
    requires Ran(orphans, before, after, ids)
    ensures forall w :: w in Served(orphans, before, ids) <==> MadeFor(w, before, after, Served(orphans, before, ids), ids)
    ensures forall w :: w in Served(orphans, before, ids) ==> w in orphans && NewName(w) !in NamesOf(before)
    ensures NamesOf(after) == NamesOf(before) + NewNames(Served(orphans, before, ids))
    ensures Ended(orphans, before, ids) ==>
      && (forall w :: w in orphans ==> (w in Served(orphans, before, ids) <==> NewName(w) !in NamesOf(before)))
      && NamesOf(after) == NamesOf(before) + NewNames(orphans)
  {
    hide NewName, NamesOf, Due, Reach, NewSpec, Splits;
    var served := Served(orphans, before, ids);
    AllMade(before, after, served, ids);
    NamesAdded(before, after, served, ids);
    hide Filled, MadeFor;
    DueExactly(orphans, NamesOf(before));
    if Ended(orphans, before, ids) {
      assert orphans[..Reach(orphans)] == orphans && served == Due(orphans, NamesOf(before));
      NamesCover(NamesOf(before), served, orphans);
    }
  }

  lemma AllMade(before: seq<Option<VmSpec>>, after: seq<Option<VmSpec>>, vs: seq<RemoteVm>, ids: seq<nat>)
    requires Filled(before, after, vs, ids)
    ensures forall w :: w in vs <==> MadeFor(w, before, after, vs, ids)
  {
    hide NewSpec;
    forall w | w in vs
      ensures MadeFor(w, before, after, vs, ids)
    {
      var i :| 0 <= i < |vs| && vs[i] == w;
    }
  }

  lemma NamesCover(names: set<string>, some: seq<RemoteVm>, all: seq<RemoteVm>)
    requires forall v :: v in some <==> v in all && NewName(v) !in names
    ensures names + NewNames(some) == names + NewNames(all)
  {
    hide NewName;
  }

  lemma NamesAdded(before: seq<Option<VmSpec>>, after: seq<Option<VmSpec>>, vs: seq<RemoteVm>, ids: seq<nat>)
    requires Filled(before, after, vs, ids)
    ensures NamesOf(after) == NamesOf(before) + NewNames(vs)
  {
    hide NewName;
    forall s
      ensures s in NamesOf(after) <==> s in NamesOf(before) + NewNames(vs)
    {
      if s in NamesOf(before) {
        var k :| 0 <= k < |before| && before[k].Some? && before[k].value.name == s;
        assert k !in ids && after[k] == before[k];
      }
      if s in NewNames(vs) {
        var v :| v in vs && NewName(v) == s;
        var i :| 0 <= i < |vs| && vs[i] == v;
        assert after[ids[i]].value.name == s;
      }
      if s in NamesOf(after) {
        var k :| 0 <= k < |after| && after[k].Some? && after[k].value.name == s;
        if k in ids {
          var i :| 0 <= i < |ids| && ids[i] == k;
          assert vs[i] in vs && NewName(vs[i]) == s;
        }
      }
    }
  }

  /** A recreated VM is created anew, never restarts by itself, and has the orphan's volumes, image,
      processors, memory and digest; its label is the front of the orphan's label, an at sign and the
      owner, of at most 32 bytes. */
  lemma CarriedOver(orphans: seq<RemoteVm>, before: seq<Option<VmSpec>>, after: seq<Option<VmSpec>>, ids: seq<nat>, i: nat)
    requires Ran(orphans, before, after, ids) && i < |ids|
    ensures i < |Served(orphans, before, ids)| && ids[i] < |after| && after[ids[i]].Some?
    ensures var v, vm := Served(orphans, before, ids)[i].spec, after[ids[i]].value;
      var full := v.name + "@" + Served(orphans, before, ids)[i].owner;
      && vm.state == "created" && vm.lastExit == None && vm.restartPolicy == Never
      && vm.volumes == v.volumes && vm.imagePath == v.imagePath && vm.cpuCount == v.cpuCount && vm.memoryMib == v.memoryMib
      && vm.bootCrc == v.bootCrc && vm.name == if |full| <= 32 then full else full[..32]
  {
    hide Due;
    assert Served(orphans, before, ids)[i] in Served(orphans, before, ids);
  }

  /** An orphan is still missing after a pass exactly when no VM had its new label and no served
      orphan got it; then it was due and not served, or stood behind a name that cannot be cut. */
  lemma StillMissing(orphans: seq<RemoteVm>, before: seq<Option<VmSpec>>, after: seq<Option<VmSpec>>, ids: seq<nat>, w: RemoteVm)
    requires Ran(orphans, before, after, ids) && w in orphans
    ensures NewName(w) !in NamesOf(after)
      <==> NewName(w) !in NamesOf(before) && forall v :: v in Served(orphans, before, ids) ==> NewName(v) != NewName(w)
    ensures NewName(w) !in NamesOf(after) ==>
      w in Due(orphans, NamesOf(before))[|ids|..] || w in orphans[Reach(orphans)..]
  {
    DueExactly(orphans, NamesOf(before));
    assert |ids| <= |Due(orphans, NamesOf(before))|;
    var due, n := Due(orphans, NamesOf(before)), Reach(orphans);
    hide NewName, Due, Reach, NamesOf, NewNames, Ran, Splits;
    MissingName(orphans, before, after, ids, w);
    Halves(orphans, n, w);
    Halves(due, |ids|, w);
  }

  lemma MissingName(orphans: seq<RemoteVm>, before: seq<Option<VmSpec>>, after: seq<Option<VmSpec>>, ids: seq<nat>, w: RemoteVm)
    requires Ran(orphans, before, after, ids)
    ensures NewName(w) !in NamesOf(after)
      <==> NewName(w) !in NamesOf(before) && forall v :: v in Served(orphans, before, ids) ==> NewName(v) != NewName(w)
  {
    hide NewName, NamesOf, Served, Ran, Ended;
    PlacedExactly(orphans, before, after, ids);
    hide MadeFor;
    var served := Served(orphans, before, ids);
    assert NewName(w) in NewNames(served) <==> exists v :: v in served && NewName(v) == NewName(w);
  }

  lemma Halves(vs: seq<RemoteVm>, n: nat, w: RemoteVm)
    requires n <= |vs|
    ensures w in vs <==> w in vs[..n] || w in vs[n..]
  {
    assert vs == vs[..n] + vs[n..];
  }

  /** Nothing behind a name that cannot be cut is ever served. */
  lemma NothingBehindSplit(orphans: seq<RemoteVm>, rows: Rows, before: seq<Option<VmSpec>>, ids: seq<nat>, s: RemoteVm, w: RemoteVm)
    requires InOrder(orphans, rows) && s in orphans && Splits(s) && w in Served(orphans, before, ids)
    ensures KeyLess(KeyOf(w), KeyOf(s))
  {
    DueExactly(orphans, NamesOf(before));
    hide Splits, Due, NamesOf, NewName, KeyLess;
    var n := Reach(orphans);
    var i :| 0 <= i < |orphans[..n]| && orphans[..n][i] == w;
    var j :| 0 <= j < |orphans| && orphans[j] == s;
    assert n <= j;
  }

  /** Passes one after the other, each coming to its end or stopping anywhere; hosts holds the slots
      before and after each. */
  datatype Passes = Passes(orphans: seq<seq<RemoteVm>>, hosts: seq<seq<Option<VmSpec>>>, ids: seq<seq<nat>>)

  ghost predicate AllRan(p: Passes) {
    && |p.hosts| == |p.orphans| + 1 && |p.ids| == |p.orphans|
    && forall i :: 0 <= i < |p.orphans| ==> Ran(p.orphans[i], p.hosts[i], p.hosts[i + 1], p.ids[i])
  }

  function ServedIn(p: Passes, i: nat): seq<RemoteVm>
    requires i < |p.orphans| && |p.hosts| == |p.orphans| + 1 && |p.ids| == |p.orphans|
  {
    Served(p.orphans[i], p.hosts[i], p.ids[i])
  }

  /** An orphan of an earlier pass that was served took this label. */
  ghost predicate Taken(p: Passes, n: nat, s: string)
    requires AllRan(p) && n <= |p.orphans|
  {
    exists i, v :: 0 <= i < n && v in ServedIn(p, i) && NewName(v) == s
  }

  lemma {:induction false} NamesOverPasses(p: Passes, n: nat)
    requires AllRan(p) && n <= |p.orphans|
    ensures forall s :: (s in NamesOf(p.hosts[n]) <==> s in NamesOf(p.hosts[0]) || Taken(p, n, s))
  {
    hide NewName, NamesOf, Served, Ran;
    if n > 0 {
      NamesOverPasses(p, n - 1);
      assert Ran(p.orphans[n - 1], p.hosts[n - 1], p.hosts[n], p.ids[n - 1]);
      PlacedExactly(p.orphans[n - 1], p.hosts[n - 1], p.hosts[n], p.ids[n - 1]);
      var served := ServedIn(p, n - 1);
      forall s
        ensures Taken(p, n, s) <==> Taken(p, n - 1, s) || exists v :: v in served && NewName(v) == s
      {}
    }
  }

  /** Main result: over any number of passes, each of which may stop anywhere, an orphan is due in a
      pass exactly when the pass gets to it, and no VM of the first host and no orphan served in an
      earlier pass had its new label; and what is due is served, in order, as far as the pass goes. */
  lemma RecreatedExactly(p: Passes, n: nat, w: RemoteVm)
    requires AllRan(p) && n < |p.orphans|
    ensures w in Due(p.orphans[n], NamesOf(p.hosts[n]))
      <==> w in p.orphans[n][..Reach(p.orphans[n])] && NewName(w) !in NamesOf(p.hosts[0]) && !Taken(p, n, NewName(w))
    ensures ServedIn(p, n) <= Due(p.orphans[n], NamesOf(p.hosts[n]))
    ensures Ended(p.orphans[n], p.hosts[n], p.ids[n]) && w in p.orphans[n] ==>
      (w in ServedIn(p, n) <==> NewName(w) !in NamesOf(p.hosts[0]) && !Taken(p, n, NewName(w)))
  {
    NamesOverPasses(p, n);
    DueExactly(p.orphans[n], NamesOf(p.hosts[n]));
    hide NewName, NamesOf, Due, Filled, MadeFor, Taken;
    assert Ran(p.orphans[n], p.hosts[n], p.hosts[n + 1], p.ids[n]);
    PlacedExactly(p.orphans[n], p.hosts[n], p.hosts[n + 1], p.ids[n]);
  }

  /** No orphan is served twice, wherever the passes stopped. */
  lemma ServedOnce(p: Passes, i: nat, j: nat, w: RemoteVm)
    requires AllRan(p) && i < j < |p.orphans| && w in ServedIn(p, i)
    ensures w !in ServedIn(p, j)
  {
    RecreatedExactly(p, j, w);
    hide NewName, NamesOf, Due, Served, Ran;
    assert Taken(p, j, NewName(w));
  }

  /** Starvation: while an orphan whose name cannot be cut is around, no orphan behind it in key order
      is served in any pass. */
  lemma Starved(p: Passes, rows: seq<Rows>, s: RemoteVm, w: RemoteVm)
    requires AllRan(p) && |rows| == |p.orphans| && forall i :: 0 <= i < |rows| ==> InOrder(p.orphans[i], rows[i]) && s in p.orphans[i]
    requires Splits(s) && KeyLess(KeyOf(s), KeyOf(w))
    ensures forall i :: 0 <= i < |rows| ==> w !in ServedIn(p, i)
  {
    hide Splits, KeyLess, Served, Ran, InOrder;
    forall i | 0 <= i < |rows|
      ensures w !in ServedIn(p, i)
    {
      if w in ServedIn(p, i) {
        assert InOrder(p.orphans[i], rows[i]);
        NothingBehindSplit(p.orphans[i], rows[i], p.hosts[i], p.ids[i], s, w);
        KeyOrder(KeyOf(s), KeyOf(w), KeyOf(s));
      }
    }
  }

  /** Between passes the host may change in any way: an orphan is served again only after the label
      it was given has gone from the host. */
  lemma ServedAgain(orphans: seq<RemoteVm>, before: seq<Option<VmSpec>>, after: seq<Option<VmSpec>>, ids: seq<nat>,
                    again: seq<RemoteVm>, before': seq<Option<VmSpec>>, after': seq<Option<VmSpec>>, ids': seq<nat>, w: RemoteVm)
    requires Ran(orphans, before, after, ids) && Ran(again, before', after', ids')
    requires w in Served(orphans, before, ids) && w in Served(again, before', ids')
    ensures NewName(w) in NamesOf(after) && NewName(w) !in NamesOf(before')
  {
    PlacedExactly(orphans, before, after, ids);
    PlacedExactly(again, before', after', ids');
    hide NewName, NamesOf, Served, Ran;
  }

  /** With tellable orphans, of which no two share label and owner, on a host without their labels:
      each orphan is made its own VM in the first pass it appears in that comes to its end. */
  lemma TellableAreRecreated(p: Passes, n: nat, w: RemoteVm, all: set<RemoteVm>)
    requires AllRan(p) && n < |p.orphans| && w in p.orphans[n] && |p.ids[n]| == |Due(p.orphans[n], NamesOf(p.hosts[n]))|
    requires Tellable(all) && forall i, v :: 0 <= i < |p.orphans| && v in p.orphans[i] ==> v in all
    requires forall u, v :: u in all && v in all && u.spec.name == v.spec.name && u.owner == v.owner ==> u == v
    requires NewName(w) !in NamesOf(p.hosts[0]) && forall i :: 0 <= i < n ==> w !in ServedIn(p, i)
    ensures MadeFor(w, p.hosts[n], p.hosts[n + 1], ServedIn(p, n), p.ids[n])
  {
    NoneSplits(p.orphans[n], all);
    hide NewName, NamesOf, Due, MadeFor, Tellable, Splits;
    RecreatedExactly(p, n, w);
    forall i, v | 0 <= i < n && v in ServedIn(p, i)
      ensures NewName(v) != NewName(w)
    {
      DueExactly(p.orphans[i], NamesOf(p.hosts[i]));
      TellableNames(all, v, w);
    }
    assert Ran(p.orphans[n], p.hosts[n], p.hosts[n + 1], p.ids[n]);
    PlacedExactly(p.orphans[n], p.hosts[n], p.hosts[n + 1], p.ids[n]);
  }

  lemma NoneSplits(orphans: seq<RemoteVm>, all: set<RemoteVm>)
    requires Tellable(all) && forall v :: v in orphans ==> v in all
    ensures Reach(orphans) == |orphans|
  {
    hide Splits, Tellable;
    forall v | v in orphans
      ensures !Splits(v)
    {
      TellableNames(all, v, v);
    }
    ReachIs(orphans, |orphans|);
  }

  /** Main result (idempotence): a pass after one that came to its end, over orphans of the first,
      wants and hence creates nothing. */
  lemma SecondPassIsIdle(orphans: seq<RemoteVm>, again: seq<RemoteVm>, before: seq<Option<VmSpec>>, after: seq<Option<VmSpec>>, ids: seq<nat>)
    requires Ran(orphans, before, after, ids) && Ended(orphans, before, ids)
    requires forall v :: v in again ==> v in orphans
    ensures Due(again, NamesOf(after)) == []
  {
    hide NewName, NamesOf, Ran, Ended, Splits, Served;
    PlacedExactly(orphans, before, after, ids);
    forall v | v in again[..Reach(again)]
      ensures NewName(v) in NamesOf(after)
    {
      assert v in again;
    }
    NothingWanted(again[..Reach(again)], NamesOf(after));
  }

  lemma {:induction false} NothingWanted(orphans: seq<RemoteVm>, existing: set<string>)
    requires forall v :: v in orphans ==> NewName(v) in existing
    ensures Wanted(orphans, existing) == []
  {
    hide NewName;
    if orphans != [] {
      NothingWanted(orphans[..|orphans| - 1], existing);
    }
  }

  function Orphan(owner: NodeId, id: nat, name: string): RemoteVm {
    RemoteVm(owner, id, VmSpec(name, "running", None, Always, [], None, None, None, None), 1, 1, false)
  }

  /** Lost orphans: after a complete pass for the first of each pair on an empty host, the second is
      never wanted. The at sign can be read two ways; a label of 31 bytes leaves no room for the
      owner; label and owner do not name the VM. */
  lemma LostOrphans(v: RemoteVm, w: RemoteVm, size: nat, after: seq<Option<VmSpec>>, ids: seq<nat>)
    requires (v, w) in [(Orphan("c", 0, "a@b"), Orphan("b@c", 0, "a")),
                        (Orphan("n1", 0, "worker-of-the-batch-queue-00001"), Orphan("n2", 0, "worker-of-the-batch-queue-00001")),
                        (Orphan("n1", 0, "web"), Orphan("n1", 1, "web"))]
    requires Ran([v], seq(size, _ => None), after, ids) && Ended([v], seq(size, _ => None), ids)
    ensures KeyOf(v) != KeyOf(w) && IsOrphan(v) && IsOrphan(w) && Due([w], NamesOf(after)) == []
  {
    LostNames(v, w);
    hide Orphan, NewName, NamesOf, Ran, Ended, Served;
    PlacedExactly([v], seq(size, _ => None), after, ids);
    assert v in [v];
    NothingWanted([w], NamesOf(after));
    NothingWanted([], NamesOf(after));
    assert [w][..Reach([w])] == [w] || [w][..Reach([w])] == [];
  }

  lemma LostNames(v: RemoteVm, w: RemoteVm)
    requires (v, w) in [(Orphan("c", 0, "a@b"), Orphan("b@c", 0, "a")),
                        (Orphan("n1", 0, "worker-of-the-batch-queue-00001"), Orphan("n2", 0, "worker-of-the-batch-queue-00001")),
                        (Orphan("n1", 0, "web"), Orphan("n1", 1, "web"))]
    ensures NewName(v) == NewName(w)
  {
    CutsEqual(v, w);
    hide NewName;
    if v.spec.name == "a@b" {
      assert FullName(v) == "a@b@c" == FullName(w);
    } else if v.spec.name == "web" {
    } else {
      var name := "worker-of-the-batch-queue-00001";
      assert |name| == 31;
      assert FullName(v)[..32] == name + "@" == FullName(w)[..32];
    }
  }

  /** A label of 30 bytes on a node named with a two-byte character. */
  const ACCENTED: RemoteVm := Orphan("\U{00C3}\U{00A9}", 0, "aaaaaaaaaabbbbbbbbbbcccccccccc")

  /** A pass that gets to this orphan panics, whatever else there is to do, on any host that can take
      what is due before it; and a pass over it alone makes nothing. */
  lemma AccentedPanics(orphans: seq<RemoteVm>, existing: set<string>)
    requires ACCENTED in orphans
    ensures Splits(ACCENTED) && IsOrphan(ACCENTED)
    ensures Reach(orphans) < |orphans| && Due([ACCENTED], existing) == []
  {
    var full := FullName(ACCENTED);
    assert |ACCENTED.spec.name| == 30 && full[32] == ACCENTED.owner[1];
    assert Splits(ACCENTED);
    hide Splits;
    ReachIs([ACCENTED], 0);
    var k :| 0 <= k < |orphans| && orphans[k] == ACCENTED;
    assert Splits(orphans[k]);
  }
}
