/** The failure detector over whole runs of one membership table. */
module FailureDetector {
  import opened Wrappers
  import opened Membership

  datatype Event =
    | Heard(row: NodeInfo, at: nat)
    | Departed(id: NodeId)
    | Bump(hlc: nat, at: nat)
    | Tick(at: nat)

  function Apply(t: Table, e: Event, limits: Timeouts): Table {
    match e
    case Heard(row, at) => Merged(t, row, at)
    case Departed(id) => MarkedLeft(t, id)
    case Bump(hlc, at) => Bumped(t, hlc, at)
    case Tick(at) => Ticked(t, at, limits)
  }

  function Run(t: Table, es: seq<Event>, limits: Timeouts): Table {
    if es == [] then t else Apply(Run(t, es[..|es| - 1], limits), es[|es| - 1], limits)
  }

  /** When a row naming the peer was last received, from whomever it came. */
  function LastNamed(es: seq<Event>, id: NodeId): Option<nat> {
    if es == [] then None
    else
      var e := es[|es| - 1];
      if e.Heard? && e.row.id == id then Some(e.at) else LastNamed(es[..|es| - 1], id)
  }

  /** A peer is known exactly when it was named, and was last seen when it was last named. */
  lemma {:induction false} SeenIsLastNamed(info: NodeInfo, start: nat, es: seq<Event>, limits: Timeouts, id: NodeId)
    requires id != info.id
    ensures var t := Run(Fresh(info, start), es, limits);
      && t.self == info.id
      && WellKept(t)
      && (id in t.rows <==> LastNamed(es, id).Some?)
      && (id in t.rows ==> t.seen[id] == LastNamed(es, id).value)
  {
    hide NextStatus;
    if es != [] {
      SeenIsLastNamed(info, start, es[..|es| - 1], limits, id);
    }
  }

  /** Main result: with d the time since a peer was last named (zero when that lies ahead), a tick makes
      a peer that is neither gone nor dead: dead when d has reached the dead limit; else suspect when d
      has reached the suspect limit; else alive. It leaves everything else of every row alone. */
  lemma TickIsExact(info: NodeInfo, start: nat, es: seq<Event>, limits: Timeouts, now: nat, id: NodeId)
    requires id != info.id && id in Run(Fresh(info, start), es, limits).rows
    ensures var before := Run(Fresh(info, start), es, limits).rows[id];
      var t := Run(Fresh(info, start), es + [Tick(now)], limits);
      && LastNamed(es, id).Some? && id in t.rows
      && var last := LastNamed(es, id).value;
      var d := if now >= last then now - last else 0;
      var row := t.rows[id];
      && row == before.(status := row.status)
      && (before.status == Left || before.status == Dead ==> row.status == before.status)
      && (before.status != Left && before.status != Dead ==>
            && (row.status == Dead <==> d >= limits.dead)
            && (row.status == Suspect <==> limits.suspect <= d < limits.dead)
            && (row.status == Alive <==> d < limits.suspect && d < limits.dead))
  {
    SeenIsLastNamed(info, start, es, limits, id);
    assert (es + [Tick(now)])[..|es|] == es;
    hide Run, LastNamed;
  }

  /** A row whose owner is dead or gone changes only when a strictly newer row arrives or the
      peer departs: hearing the old row again refreshes the clock but revives nobody. */
  lemma {:induction false} DeadStaysDead(t: Table, es: seq<Event>, limits: Timeouts, id: NodeId)
    requires WellKept(t) && id in t.rows && id != t.self
    requires t.rows[id].status == Dead || t.rows[id].status == Left
    requires forall e :: e in es ==>
      (e.Heard? && e.row.id == id ==> !Supersedes(e.row, t.rows[id])) && (e.Departed? ==> e.id != id)
    ensures var u := Run(t, es, limits);
      WellKept(u) && u.self == t.self && id in u.rows && u.rows[id] == t.rows[id]
  {
    if es != [] {
      DeadStaysDead(t, es[..|es| - 1], limits, id);
    }
  }

  // ----- stamps ---------------------------------------------------------------------------------

  /** Rows are never lost and their stamps never go back. */
  ghost predicate StampsGrew(t: Table, u: Table) {
    && u.self == t.self
    && forall id :: id in t.rows ==> id in u.rows && !Supersedes(t.rows[id], u.rows[id])
  }

  lemma StampsGrewTrans(t: Table, u: Table, v: Table)
    requires StampsGrew(t, u) && StampsGrew(u, v)
    ensures StampsGrew(t, v)
  {}

  lemma ApplyGrows(t: Table, e: Event, limits: Timeouts)
    requires WellKept(t)
    ensures StampsGrew(t, Apply(t, e, limits)) && WellKept(Apply(t, e, limits))
  {
    hide NextStatus;
  }

  lemma {:induction false} RunGrows(t: Table, es: seq<Event>, limits: Timeouts)
    requires WellKept(t)
    ensures StampsGrew(t, Run(t, es, limits)) && WellKept(Run(t, es, limits))
  {
    hide StampsGrew, Apply;
    if es == [] {
      assert StampsGrew(t, t) by { GrewRefl(t); }
    } else {
      RunGrows(t, es[..|es| - 1], limits);
      ApplyGrows(Run(t, es[..|es| - 1], limits), es[|es| - 1], limits);
      StampsGrewTrans(t, Run(t, es[..|es| - 1], limits), Run(t, es, limits));
    }
  }

  lemma GrewRefl(t: Table)
    ensures StampsGrew(t, t)
  {}

  /** Merging keeps, for every peer, a row that nothing offered supersedes. */
  lemma {:induction false} MergedIsNewest(t: Table, rs: seq<NodeInfo>, now: nat, id: NodeId)
    requires WellKept(t) && id != t.self
    ensures var u := MergedAll(t, rs, now);
      && WellKept(u) && u.self == t.self
      && (id in u.rows <==> id in t.rows || exists r :: r in rs && r.id == id)
      && (id in u.rows ==> (id in t.rows && u.rows[id] == t.rows[id]) || u.rows[id] in rs)
      && (id in u.rows && id in t.rows ==> !Supersedes(t.rows[id], u.rows[id]))
      && (id in u.rows ==> forall r :: r in rs && r.id == id ==> !Supersedes(r, u.rows[id]))
    decreases rs
  {
    if rs != [] {
      assert rs == [rs[0]] + rs[1..];
      MergedIsNewest(Merged(t, rs[0], now), rs[1..], now, id);
    }
  }

  /** Main result: the stamps of the table depend only on which rows were heard, not on their
      order or repetition. (The statuses do depend on it: see StatusDependsOnOrder.) */
  lemma StampsConverge(t: Table, rs: seq<NodeInfo>, qs: seq<NodeInfo>, now: nat, later: nat, id: NodeId)
    requires WellKept(t) && id != t.self
    requires forall r :: r in rs <==> r in qs
    ensures var u, v := MergedAll(t, rs, now), MergedAll(t, qs, later);
      && (id in u.rows <==> id in v.rows)
      && (id in u.rows ==> u.rows[id].epoch == v.rows[id].epoch && u.rows[id].hlc == v.rows[id].hlc)
  {
    MergedIsNewest(t, rs, now, id);
    MergedIsNewest(t, qs, later, id);
    hide MergedAll;
  }

  function RowOf(t: Table, id: NodeId): Option<NodeInfo> { if id in t.rows then Some(t.rows[id]) else None }

  ghost predicate SameHeard(rs: seq<NodeInfo>, qs: seq<NodeInfo>) { forall r :: r in rs <==> r in qs }

  /** A row for the peer that nothing else offered supersedes. */
  ghost predicate Topmost(rs: seq<NodeInfo>, id: NodeId, r: NodeInfo) {
    r in rs && r.id == id && forall q :: q in rs && q.id == id ==> !Supersedes(q, r)
  }

  /** The table holds a row for the peer that nothing offered supersedes. */
  ghost predicate Keeps(t: Table, rs: seq<NodeInfo>, id: NodeId) {
    id in t.rows && forall r :: r in rs && r.id == id ==> !Supersedes(r, t.rows[id])
  }

  /** Order cannot matter: the table keeps its row, or only one row is topmost. */
  ghost predicate Settled(t: Table, rs: seq<NodeInfo>, id: NodeId) {
    Keeps(t, rs, id) || forall r, q :: Topmost(rs, id, r) && Topmost(rs, id, q) ==> r == q
  }

  lemma {:induction false} KeptRow(t: Table, rs: seq<NodeInfo>, now: nat, id: NodeId)
    requires id != t.self && Keeps(t, rs, id)
    ensures RowOf(MergedAll(t, rs, now), id) == Some(t.rows[id])
    decreases rs
  {
    if rs != [] {
      assert rs == [rs[0]] + rs[1..];
      KeptRow(Merged(t, rs[0], now), rs[1..], now, id);
    }
  }

  /** Otherwise the table ends with a topmost row, or with none when none was offered. */
  lemma EndsTopmost(t: Table, rs: seq<NodeInfo>, now: nat, id: NodeId)
    requires WellKept(t) && id != t.self && !Keeps(t, rs, id)
    ensures var u := MergedAll(t, rs, now);
      (id in u.rows <==> exists r :: Topmost(rs, id, r)) && (id in u.rows ==> Topmost(rs, id, u.rows[id]))
  {
    MergedIsNewest(t, rs, now, id);
    hide MergedAll;
    var u := MergedAll(t, rs, now);
    if id in u.rows {
      assert !(id in t.rows && u.rows[id] == t.rows[id]);
      assert Topmost(rs, id, u.rows[id]);
    }
  }

  /** Heard first, a topmost row stays. */
  lemma TopmostFirst(t: Table, rs: seq<NodeInfo>, now: nat, id: NodeId, r: NodeInfo)
    requires WellKept(t) && id != t.self && !Keeps(t, rs, id) && Topmost(rs, id, r)
    ensures RowOf(MergedAll(t, [r] + rs, now), id) == Some(r) && SameHeard(rs, [r] + rs)
  {
    assert ([r] + rs)[1..] == rs;
    KeptRow(Merged(t, r, now), rs, now, id);
  }

  /** Main result: which row of a peer a table ends with is the same for every order, repetition
      and time of the same heard rows exactly when the peer's row is settled. */
  lemma RowsConverge(t: Table, rs: seq<NodeInfo>, now: nat, id: NodeId)
    requires WellKept(t) && id != t.self
    ensures Settled(t, rs, id)
      <==> forall qs, later :: SameHeard(rs, qs) ==> RowOf(MergedAll(t, qs, later), id) == RowOf(MergedAll(t, rs, now), id)
  {
    hide Settled, SameHeard, RowOf;
    if Settled(t, rs, id) {
      forall qs, later | SameHeard(rs, qs)
        ensures RowOf(MergedAll(t, qs, later), id) == RowOf(MergedAll(t, rs, now), id)
      {
        SettledAgree(t, rs, now, qs, later, id);
      }
    } else {
      var qs := UnsettledOrder(t, rs, now, id);
      assert SameHeard(rs, qs) && RowOf(MergedAll(t, qs, now), id) != RowOf(MergedAll(t, rs, now), id);
    }
  }

  lemma UnsettledOrder(t: Table, rs: seq<NodeInfo>, now: nat, id: NodeId) returns (qs: seq<NodeInfo>)
    requires WellKept(t) && id != t.self && !Settled(t, rs, id)
    ensures SameHeard(rs, qs) && RowOf(MergedAll(t, qs, now), id) != RowOf(MergedAll(t, rs, now), id)
  {
    var r, q :| Topmost(rs, id, r) && Topmost(rs, id, q) && r != q;
    hide Topmost, MergedAll, SameHeard, RowOf;
    TopmostFirst(t, rs, now, id, r);
    TopmostFirst(t, rs, now, id, q);
    qs := if RowOf(MergedAll(t, rs, now), id) == Some(r) then [q] + rs else [r] + rs;
  }

  lemma SettledAgree(t: Table, rs: seq<NodeInfo>, now: nat, qs: seq<NodeInfo>, later: nat, id: NodeId)
    requires WellKept(t) && id != t.self && Settled(t, rs, id) && SameHeard(rs, qs)
    ensures RowOf(MergedAll(t, qs, later), id) == RowOf(MergedAll(t, rs, now), id)
  {
    hide MergedAll;
    assert forall r :: Topmost(rs, id, r) <==> Topmost(qs, id, r);
    if Keeps(t, rs, id) {
      KeptRow(t, rs, now, id);
      KeptRow(t, qs, later, id);
    } else {
      EndsTopmost(t, rs, now, id);
      EndsTopmost(t, qs, later, id);
    }
  }

  lemma TwoRows(t: Table, x: NodeInfo, y: NodeInfo, now: nat)
    ensures MergedAll(t, [x, y], now) == Merged(Merged(t, x, now), y, now)
  {
    var u := Merged(t, x, now);
    assert [x, y][1..] == [y];
    assert [y][1..] == [];
    assert MergedAll(Merged(u, y, now), [], now) == Merged(u, y, now);
    assert MergedAll(u, [y], now) == Merged(u, y, now);
  }

  /** Equal stamps, different statuses: whoever comes first stays. */
  lemma StatusDependsOnOrder(t: Table, x: NodeInfo, y: NodeInfo, now: nat)
    requires x.id == y.id != t.self && x.id !in t.rows && x.epoch == y.epoch && x.hlc == y.hlc
    ensures x.id in MergedAll(t, [x, y], now).rows && MergedAll(t, [x, y], now).rows[x.id] == x
    ensures x.id in MergedAll(t, [y, x], now).rows && MergedAll(t, [y, x], now).rows[x.id] == y
  {
    TwoRows(t, x, y, now);
    TwoRows(t, y, x, now);
    hide MergedAll;
  }
}
