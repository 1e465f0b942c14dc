/** One node's membership table: last-writer-wins merge, failure detector, departures. */
module Membership {
  import opened Wrappers

  type NodeId = string

  datatype NodeStatus = Alive | Suspect | Dead | Left

  datatype NodeInfo = NodeInfo(id: NodeId, addr: string, epoch: nat, hlc: nat, status: NodeStatus)

  /** (epoch, hlc) of the first strictly above that of the second. */
  predicate Above(e1: nat, h1: nat, e2: nat, h2: nat) { e1 > e2 || (e1 == e2 && h1 > h2) }

  predicate Supersedes(a: NodeInfo, b: NodeInfo) { Above(a.epoch, a.hlc, b.epoch, b.hlc) }

  /** The table as a value. Times are in milliseconds. */
  datatype Table = Table(self: NodeId, rows: map<NodeId, NodeInfo>, seen: map<NodeId, nat>)

  ghost predicate WellKept(t: Table) {
    && t.self in t.rows
    && t.rows.Keys == t.seen.Keys
    && forall id :: id in t.rows ==> t.rows[id].id == id
  }

  function Fresh(info: NodeInfo, now: nat): Table {
    Table(info.id, map[info.id := info], map[info.id := now])
  }

  function Merged(t: Table, r: NodeInfo, now: nat): Table {
    if r.id == t.self then t
    else if r.id !in t.rows || Supersedes(r, t.rows[r.id]) then t.(rows := t.rows[r.id := r], seen := t.seen[r.id := now])
    else if r.id in t.seen then t.(seen := t.seen[r.id := now])
    else t
  }

  function MergedAll(t: Table, rs: seq<NodeInfo>, now: nat): Table
    decreases rs
  {
    if rs == [] then t else MergedAll(Merged(t, rs[0], now), rs[1..], now)
  }

  function MarkedLeft(t: Table, id: NodeId): Table {
    if id == t.self || id !in t.rows then t else t.(rows := t.rows[id := t.rows[id].(status := Left)])
  }

  function Bumped(t: Table, hlc: nat, now: nat): Table {
    if t.self !in t.rows then t
    else
      var row := t.rows[t.self];
      t.(rows := t.rows[t.self := row.(hlc := if row.hlc >= hlc then row.hlc else hlc, status := Alive)],
         seen := t.seen[t.self := now])
  }

  // ----- the failure detector -----------------------------------------------------------

  datatype Timeouts = Timeouts(suspect: nat, dead: nat)

  function Classify(age: nat, limits: Timeouts): NodeStatus {
    if age >= limits.dead then Dead else if age >= limits.suspect then Suspect else Alive
  }

  /** Time since last, or zero when last lies in the future. */
  function Age(last: nat, now: nat): nat { if now >= last then now - last else 0 }

  function NextFor(status: NodeStatus, own: bool, last: nat, now: nat, limits: Timeouts): NodeStatus {
    if own || status == Left || status == Dead then status else Classify(Age(last, now), limits)
  }

  function NextStatus(t: Table, id: NodeId, now: nat, limits: Timeouts): NodeStatus
    requires id in t.rows
  {
    NextFor(t.rows[id].status, id == t.self, if id in t.seen then t.seen[id] else now, now, limits)
  }

  function Ticked(t: Table, now: nat, limits: Timeouts): Table {
    t.(rows := map id | id in t.rows :: t.rows[id].(status := NextStatus(t, id, now, limits)))
  }

  datatype TickDelta = TickDelta(changes: nat, suspectPromotions: nat, deadPromotions: nat)

  function Changed(t: Table, now: nat, limits: Timeouts): set<NodeId> {
    set id | id in t.rows && NextStatus(t, id, now, limits) != t.rows[id].status
  }

  function NewlySuspect(t: Table, now: nat, limits: Timeouts): set<NodeId> {
    set id | id in t.rows && t.rows[id].status == Alive && NextStatus(t, id, now, limits) == Suspect
  }

  function NewlyDead(t: Table, now: nat, limits: Timeouts): set<NodeId> {
    set id | id in t.rows && t.rows[id].status != Dead && NextStatus(t, id, now, limits) == Dead
  }

  /** The counters after one row. */
  function Counted(delta: TickDelta, was: NodeStatus, next: NodeStatus): TickDelta {
    if next == was then delta
    else TickDelta(delta.changes + 1,
                   if was == Alive && next == Suspect then delta.suspectPromotions + 1 else delta.suspectPromotions,
                   if next == Dead then delta.deadPromotions + 1 else delta.deadPromotions)
  }

  // ----- the table object -------------------------------------------------------------------

  class MembershipTable {
    const selfId: NodeId
    const limits: Timeouts
    var rows: map<NodeId, NodeInfo>
    var lastSeen: map<NodeId, nat>

    constructor (info: NodeInfo, limits: Timeouts, now: nat)
      ensures Valid() && View() == Fresh(info, now) && this.limits == limits
    {
      this.selfId := info.id;
      this.limits := limits;
      rows := map[info.id := info];
      lastSeen := map[info.id := now];
    }

    ghost predicate Valid()
      reads this
    {
      WellKept(View())
    }

    function View(): Table
      reads this
    {
      Table(selfId, rows, lastSeen)
    }

    method Merge(incoming: NodeInfo, now: nat) returns (touch: bool)
      requires Valid()
      modifies this
      ensures Valid() && View() == Merged(old(View()), incoming, now)
      ensures touch <==> rows != old(rows)
    {
      if incoming.id == selfId {
        return false;
      }
      touch := incoming.id !in rows || Supersedes(incoming, rows[incoming.id]);
      if touch {
        assert incoming.id in rows ==> rows[incoming.id] != incoming;
        assert rows[incoming.id := incoming][incoming.id] == incoming;
        lastSeen := lastSeen[incoming.id := now];
        rows := rows[incoming.id := incoming];
      } else if incoming.id in rows {
        if incoming.id in lastSeen {
          lastSeen := lastSeen[incoming.id := now];
        }
      }
    }

    method MergeAll(incoming: seq<NodeInfo>, now: nat)
      requires Valid()
      modifies this
      ensures Valid() && View() == MergedAll(old(View()), incoming, now)
    {
      for k := 0 to |incoming|
        invariant Valid() && MergedAll(View(), incoming[k..], now) == MergedAll(old(View()), incoming, now)
      {
        assert incoming[k..][1..] == incoming[k + 1..];
        var touched := Merge(incoming[k], now);
      }
    }

    method MarkLeft(id: NodeId)
      requires Valid()
      modifies this
      ensures Valid() && View() == MarkedLeft(old(View()), id)
    {
      if id == selfId {
        return;
      }
      if id in rows {
        rows := rows[id := rows[id].(status := Left)];
      }
    }

    method BumpSelf(hlc: nat, now: nat)
      requires Valid()
      modifies this
      ensures Valid() && View() == Bumped(old(View()), hlc, now)
    {
      var row := rows[selfId];
      rows := rows[selfId := row.(hlc := if row.hlc >= hlc then row.hlc else hlc, status := Alive)];
      lastSeen := lastSeen[selfId := now];
    }

    /** One pass of the detector; the counts are the sizes of the sets of rows that moved. */
    method Tick(now: nat) returns (delta: TickDelta)
      requires Valid()
      modifies this
      ensures Valid() && View() == Ticked(old(View()), now, limits)
      ensures rows.Keys == old(rows).Keys && lastSeen == old(lastSeen)
      ensures delta.changes == |set id | id in old(rows) && rows[id].status != old(rows)[id].status|
      ensures delta.suspectPromotions == |set id | id in old(rows) && old(rows)[id].status == Alive && rows[id].status == Suspect|
      ensures delta.deadPromotions == |set id | id in old(rows) && old(rows)[id].status != Dead && rows[id].status == Dead|
    {
      ghost var t := View();
      rows, delta := TickRows(View(), now, limits);
      TickedIsWellKept(t, now, limits);
      MovedSets(t, now, limits);
    }
  }

  /** The sets counted are the rows whose status moved. */
  lemma MovedSets(t: Table, now: nat, limits: Timeouts)
    ensures var u := Ticked(t, now, limits);
      && Changed(t, now, limits) == (set id | id in t.rows && u.rows[id].status != t.rows[id].status)
      && NewlySuspect(t, now, limits) == (set id | id in t.rows && t.rows[id].status == Alive && u.rows[id].status == Suspect)
      && NewlyDead(t, now, limits) == (set id | id in t.rows && t.rows[id].status != Dead && u.rows[id].status == Dead)
  {
    hide NextStatus;
  }

  /** The detector on one row, with the counters so far. */
  method TickRow(row: NodeInfo, own: bool, last: nat, now: nat, limits: Timeouts, delta: TickDelta)
    returns (ticked: NodeInfo, d: TickDelta)
    ensures var next := NextFor(row.status, own, last, now, limits);
      ticked == row.(status := next) && d == Counted(delta, row.status, next)
    ensures own || row.status == Left || row.status == Dead ==> ticked == row && d == delta
    ensures !own && row.status != Left && row.status != Dead ==>
      && (ticked.status == Dead <==> last + limits.dead <= now || limits.dead == 0)
      && (ticked.status == Suspect <==> ticked.status != Dead && (last + limits.suspect <= now || limits.suspect == 0))
      && (ticked.status == Alive <==> ticked.status != Dead && ticked.status != Suspect)
  {
    ticked, d := row, delta;
    if own || row.status == Left || row.status == Dead {
      return;
    }
    var next := Classify(Age(last, now), limits);
    if next != row.status {
      d := d.(changes := d.changes + 1);
      if row.status == Alive && next == Suspect {
        d := d.(suspectPromotions := d.suspectPromotions + 1);
      }
      if next == Dead {
        d := d.(deadPromotions := d.deadPromotions + 1);
      }
      ticked := row.(status := next);
    }
  }

  /** The loop over all rows. */
  method TickRows(t: Table, now: nat, limits: Timeouts) returns (moved: map<NodeId, NodeInfo>, delta: TickDelta)
    ensures moved == Ticked(t, now, limits).rows
    ensures delta == TickDelta(|Changed(t, now, limits)|, |NewlySuspect(t, now, limits)|, |NewlyDead(t, now, limits)|)
  {
    var pending := t.rows.Keys;
    moved, delta := t.rows, TickDelta(0, 0, 0);
    NothingYet(t, now, limits);
    PartStart(t, now, limits);
    hide Counts, Counted, Changed, NewlySuspect, NewlyDead, NextStatus, NextFor, Ticked, PartTicked;
    while pending != {}
      invariant PartTicked(t, moved, now, limits, pending)
      invariant delta == Counts(t, now, limits, pending)
      decreases pending
    {
      var id :| id in pending;
      PartAt(t, moved, now, limits, pending, id);
      CountOne(t, now, limits, pending, id);
      var row;
      row, delta := TickRow(moved[id], id == t.self, if id in t.seen then t.seen[id] else now, now, limits, delta);
      PartStep(t, moved, now, limits, pending, id, row);
      moved := moved[id := row];
      pending := pending - {id};
    }
    AllTicked(t, moved, now, limits);
    AllCounted(t, now, limits);
  }

  lemma TickedIsWellKept(t: Table, now: nat, limits: Timeouts)
    requires WellKept(t)
    ensures WellKept(Ticked(t, now, limits)) && Ticked(t, now, limits) == Table(t.self, Ticked(t, now, limits).rows, t.seen)
  {
    hide NextStatus;
  }

  /** The rows outside pending were ticked, the others not. */
  ghost predicate PartTicked(t: Table, rows: map<NodeId, NodeInfo>, now: nat, limits: Timeouts, pending: set<NodeId>) {
    && rows.Keys == t.rows.Keys
    && (forall id :: id in pending ==> id in t.rows)
    && forall id :: id in t.rows ==>
         rows[id] == if id in pending then t.rows[id] else t.rows[id].(status := NextStatus(t, id, now, limits))
  }

  lemma PartStart(t: Table, now: nat, limits: Timeouts)
    ensures PartTicked(t, t.rows, now, limits, t.rows.Keys)
  {}

  lemma PartAt(t: Table, rows: map<NodeId, NodeInfo>, now: nat, limits: Timeouts, pending: set<NodeId>, id: NodeId)
    requires PartTicked(t, rows, now, limits, pending) && id in pending
    ensures id in t.rows && id in rows && rows[id] == t.rows[id]
    ensures NextStatus(t, id, now, limits)
         == NextFor(rows[id].status, id == t.self, if id in t.seen then t.seen[id] else now, now, limits)
  {}

  lemma PartStep(t: Table, rows: map<NodeId, NodeInfo>, now: nat, limits: Timeouts, pending: set<NodeId>, id: NodeId, row: NodeInfo)
    requires PartTicked(t, rows, now, limits, pending) && id in t.rows && row == t.rows[id].(status := NextStatus(t, id, now, limits))
    ensures PartTicked(t, rows[id := row], now, limits, pending - {id})
  {}

  lemma AllTicked(t: Table, rows: map<NodeId, NodeInfo>, now: nat, limits: Timeouts)
    requires PartTicked(t, rows, now, limits, {})
    ensures rows == Ticked(t, now, limits).rows
  {
    hide NextStatus;
  }

  /** How many rows outside a set of pending ones a pass moves. */
  function Counts(t: Table, now: nat, limits: Timeouts, pending: set<NodeId>): TickDelta {
    TickDelta(|Changed(t, now, limits) - pending|, |NewlySuspect(t, now, limits) - pending|, |NewlyDead(t, now, limits) - pending|)
  }

  lemma AllCounted(t: Table, now: nat, limits: Timeouts)
    ensures Counts(t, now, limits, {})
         == TickDelta(|Changed(t, now, limits)|, |NewlySuspect(t, now, limits)|, |NewlyDead(t, now, limits)|)
  {
    assert Changed(t, now, limits) - {} == Changed(t, now, limits);
    assert NewlySuspect(t, now, limits) - {} == NewlySuspect(t, now, limits);
    assert NewlyDead(t, now, limits) - {} == NewlyDead(t, now, limits);
  }

  lemma NothingYet(t: Table, now: nat, limits: Timeouts)
    ensures Counts(t, now, limits, t.rows.Keys) == TickDelta(0, 0, 0)
  {
    assert Changed(t, now, limits) - t.rows.Keys == {};
    assert NewlySuspect(t, now, limits) - t.rows.Keys == {};
    assert NewlyDead(t, now, limits) - t.rows.Keys == {};
  }

  lemma CountIn(s: set<NodeId>, pending: set<NodeId>, id: NodeId)
    requires id in pending
    ensures |s - (pending - {id})| == |s - pending| + if id in s then 1 else 0
  {
    assert s - (pending - {id}) == if id in s then (s - pending) + {id} else s - pending;
  }

  lemma CountOne(t: Table, now: nat, limits: Timeouts, pending: set<NodeId>, id: NodeId)
    requires id in pending && id in t.rows
    ensures Counts(t, now, limits, pending - {id})
         == Counted(Counts(t, now, limits, pending), t.rows[id].status, NextStatus(t, id, now, limits))
  {
    CountIn(Changed(t, now, limits), pending, id);
    CountIn(NewlySuspect(t, now, limits), pending, id);
    CountIn(NewlyDead(t, now, limits), pending, id);
  }
}
