/** Slot reservation, registration and deletion by any number of threads over one bitmap word
    each; a bitmap is the set of its set bits. */
module Slots {
  import opened Wrappers

  type Thread = nat

  /** The lowest clear bit below size. */
  function FirstFree(bits: set<nat>, size: nat): (r: Option<nat>)
    ensures r.Some? ==> r.value < size && r.value !in bits
    ensures r.None? ==> forall i :: 0 <= i < size ==> i in bits
  {
    FreeFrom(bits, size, 0)
  }

  function FreeFrom(bits: set<nat>, size: nat, i: nat): (r: Option<nat>)
    requires i <= size
    ensures r.Some? ==> i <= r.value < size && r.value !in bits && forall j :: i <= j < r.value ==> j in bits
    ensures r.None? ==> forall j :: i <= j < size ==> j in bits
    decreases size - i
  {
    if i == size then None else if i !in bits then Some(i) else FreeFrom(bits, size, i + 1)
  }

  // ----- the retry loop against an arbitrary environment ----------------------------------------

  class Bitmap {
    var bits: set<nat>
    const size: nat

    constructor (size: nat)
      ensures this.size == size && bits == {}
    {
      this.size := size;
      bits := {};
    }

    ghost predicate Valid()
      reads this
    {
      forall i :: i in bits ==> i < size
    }

    /** What other threads may do between two atomic operations: set more bits. */
    method Interfere()
      requires Valid()
      modifies this
      ensures Valid() && old(bits) <= bits
    {
      var i := 0;
      while i < size
        invariant Valid() && old(bits) <= bits
      {
        if * {
          bits := bits + {i};
        }
        i := i + 1;
      }
    }

    method CompareExchange(current: set<nat>, next: set<nat>) returns (ok: bool, observed: set<nat>)
      modifies this
      ensures observed == old(bits) && (ok <==> old(bits) == current)
      ensures bits == if ok then next else old(bits)
    {
      observed := bits;
      ok := bits == current;
      if ok {
        bits := next;
      }
    }

    /** Returns a slot whose bit was clear until this call set it, or reports a full table; at
        most size attempts fail. */
    method ReserveSlot() returns (r: Result<nat, HyperError>, retries: nat)
      requires Valid()
      modifies this
      ensures Valid() && old(bits) <= bits
      ensures r.Ok? ==> r.value < size && r.value !in old(bits) && r.value in bits
      ensures r.Err? ==> r == Err(Exhausted) && forall i :: 0 <= i < size ==> i in bits
      ensures retries <= size
    {
      var current := bits;
      retries := 0;
      while true
        invariant Valid() && old(bits) <= current <= bits && retries <= |current|
        decreases size - |current|
      {
        Bounded(current, size);
        var free := FirstFree(current, size);
        if free.None? {
          return Err(Exhausted), retries;
        }
        var idx := free.value;
        Room(current, size, idx);
        Interfere();
        ghost var before := bits;
        var ok, observed := CompareExchange(current, current + {idx});
        if ok {
          return Ok(idx), retries;
        }
        StrictlyMore(current, observed);
        Bounded(observed, size);
        retries := retries + 1;
        current := observed;
      }
    }
  }

  function Range(n: nat): (r: set<nat>)
    ensures |r| == n && forall i: nat :: i in r <==> i < n
  {
    if n == 0 then {}
    else
      var r := Range(n - 1);
      assert n - 1 !in r;
      r + {n - 1}
  }

  lemma {:induction false} SubsetSize(a: set<nat>, b: set<nat>)
    requires a <= b
    ensures |a| <= |b| && (|a| == |b| ==> a == b)
    decreases a
  {
    if a != {} {
      var x :| x in a;
      SubsetSize(a - {x}, b - {x});
      assert a == (a - {x}) + {x} && b == (b - {x}) + {x};
    } else if |b| == 0 {
      assert b == {};
    }
  }

  lemma Bounded(bits: set<nat>, size: nat)
    requires forall i :: i in bits ==> i < size
    ensures |bits| <= size
  {
    SubsetSize(bits, Range(size));
  }

  lemma Room(bits: set<nat>, size: nat, idx: nat)
    requires (forall i :: i in bits ==> i < size) && idx < size && idx !in bits
    ensures |bits| < size
  {
    Bounded(bits + {idx}, size);
  }

  lemma StrictlyMore(a: set<nat>, b: set<nat>)
    requires a <= b && a != b
    ensures |a| < |b|
  {
    SubsetSize(a, b);
  }

  // ----- the whole table under any interleaving --------------------------------------------------------

  datatype Pc =
    | Idle
    | ReserveLoad
    | ReserveCas(current: set<nat>, failures: nat)
    | Installing(slot: nat)
    | DeleteOr(slot: nat)
    | Reserved(slot: nat)
    | Full
    | Abandoned(slot: nat)
    | Deleted(slot: nat)
    | Refused

  /** The three bitmaps, the threads, and who got or deleted what, in order. */
  datatype Table = Table(size: nat, occupied: set<nat>, registered: set<nat>, deleted: set<nat>, pcs: map<Thread, Pc>,
                         handedOut: seq<nat>, deletions: seq<nat>)

  datatype Action =
    | CallCreate(t: Thread)
    | CallDelete(t: Thread, slot: nat, terminal: bool)
    | Advance(t: Thread, installs: bool)

  function PcOf(s: Table, t: Thread): Pc { if t in s.pcs then s.pcs[t] else Idle }

  predicate Waiting(p: Pc) { !p.ReserveLoad? && !p.ReserveCas? && !p.Installing? && !p.DeleteOr? }

  predicate Enabled(s: Table, a: Action) {
    if a.Advance? then !Waiting(PcOf(s, a.t)) else Waiting(PcOf(s, a.t))
  }

  function At(s: Table, t: Thread, p: Pc): Table { s.(pcs := s.pcs[t := p]) }

  /** The choice a reserving thread makes on the word it last saw. */
  function Choose(s: Table, t: Thread, current: set<nat>, failures: nat): Table {
    if FirstFree(current, s.size).None? then At(s, t, Full) else At(s, t, ReserveCas(current, failures))
  }

  /** Delete first looks the VM up and checks that it ended. */
  function Next(s: Table, a: Action): Table
    requires Enabled(s, a)
  {
    match a
    case CallCreate(t) => At(s, t, ReserveLoad)
    case CallDelete(t, slot, terminal) => if slot in s.registered && terminal then At(s, t, DeleteOr(slot)) else At(s, t, Refused)
    case Advance(t, installs) =>
      match PcOf(s, t)
      case ReserveLoad => Choose(s, t, s.occupied, 0)
      case ReserveCas(current, failures) =>
        if s.occupied == current && FirstFree(current, s.size).Some? then
          var idx := FirstFree(current, s.size).value;
          At(s.(occupied := s.occupied + {idx}, handedOut := s.handedOut + [idx]), t, Installing(idx))
        else Choose(s, t, s.occupied, failures + 1)
      case Installing(slot) =>
        if installs then At(s.(registered := s.registered + {slot}), t, Reserved(slot)) else At(s, t, Abandoned(slot))
      case DeleteOr(slot) =>
        if slot in s.deleted then At(s, t, Refused)
        else At(s.(deleted := s.deleted + {slot}, deletions := s.deletions + [slot]), t, Deleted(slot))
  }

  ghost predicate Distinct(xs: seq<nat>) { forall i, j :: 0 <= i < j < |xs| ==> xs[i] != xs[j] }

  ghost predicate PcOk(s: Table, p: Pc) {
    match p
    case ReserveCas(current, failures) => current <= s.occupied && failures <= |current| && FirstFree(current, s.size).Some?
    case Installing(slot) => slot in s.occupied
    case Reserved(slot) => slot in s.registered
    case Abandoned(slot) => slot in s.occupied
    case DeleteOr(slot) => slot in s.registered
    case Deleted(slot) => slot in s.deleted
    case Full => forall i :: 0 <= i < s.size ==> i in s.occupied
    case _ => true
  }

  ghost predicate Inv(s: Table) {
    && s.deleted <= s.registered <= s.occupied
    && (forall i :: i in s.occupied ==> i < s.size)
    && Distinct(s.handedOut) && (forall i :: i in s.handedOut <==> i in s.occupied)
    && Distinct(s.deletions) && (forall i :: i in s.deletions <==> i in s.deleted)
    && forall t :: t in s.pcs ==> PcOk(s, s.pcs[t])
  }

  /** Bits are only ever set. */
  ghost predicate Grew(s: Table, u: Table) {
    u.size == s.size && s.occupied <= u.occupied && s.registered <= u.registered && s.deleted <= u.deleted
  }

  lemma PcKeeps(s: Table, u: Table, p: Pc)
    requires Grew(s, u) && PcOk(s, p)
    ensures PcOk(u, p)
  {}

  lemma InvFrom(s: Table, u: Table, t: Thread, p: Pc)
    requires Inv(s) && Grew(s, u) && u.pcs == s.pcs[t := p] && PcOk(u, p)
    requires u.deleted <= u.registered <= u.occupied && forall i :: i in u.occupied ==> i < u.size
    requires Distinct(u.handedOut) && forall i :: i in u.handedOut <==> i in u.occupied
    requires Distinct(u.deletions) && forall i :: i in u.deletions <==> i in u.deleted
    ensures Inv(u)
  {
    hide PcOk, Distinct;
    forall r | r in u.pcs
      ensures PcOk(u, u.pcs[r])
    {
      if r != t { PcKeeps(s, u, s.pcs[r]); }
    }
  }

  lemma DistinctMore(xs: seq<nat>, x: nat)
    requires Distinct(xs) && x !in xs
    ensures Distinct(xs + [x])
  {}

  lemma ChooseKeeps(s: Table, t: Thread, failures: nat)
    requires Inv(s) && failures <= |s.occupied|
    ensures Inv(Choose(s, t, s.occupied, failures)) && Grew(s, Choose(s, t, s.occupied, failures))
  {
    var u := Choose(s, t, s.occupied, failures);
    InvFrom(s, u, t, u.pcs[t]);
  }

  lemma GrantKeeps(s: Table, t: Thread, current: set<nat>, failures: nat)
    requires Inv(s) && s.occupied == current && FirstFree(current, s.size).Some?
    ensures var idx := FirstFree(current, s.size).value;
      var u := At(s.(occupied := s.occupied + {idx}, handedOut := s.handedOut + [idx]), t, Installing(idx));
      Inv(u) && Grew(s, u)
  {
    var idx := FirstFree(current, s.size).value;
    var u := At(s.(occupied := s.occupied + {idx}, handedOut := s.handedOut + [idx]), t, Installing(idx));
    DistinctMore(s.handedOut, idx);
    hide FirstFree, Distinct;
    InvFrom(s, u, t, Installing(idx));
  }

  lemma DeleteKeeps(s: Table, t: Thread, slot: nat)
    requires Inv(s) && slot in s.registered && slot !in s.deleted
    ensures var u := At(s.(deleted := s.deleted + {slot}, deletions := s.deletions + [slot]), t, Deleted(slot));
      Inv(u) && Grew(s, u)
  {
    var u := At(s.(deleted := s.deleted + {slot}, deletions := s.deletions + [slot]), t, Deleted(slot));
    DistinctMore(s.deletions, slot);
    hide Distinct;
    InvFrom(s, u, t, Deleted(slot));
  }

  lemma MoveKeeps(s: Table, t: Thread, p: Pc)
    requires Inv(s) && PcOk(s, p)
    ensures Inv(At(s, t, p)) && Grew(s, At(s, t, p))
  {
    hide Distinct, PcOk;
    PcKeeps(s, At(s, t, p), p);
    InvFrom(s, At(s, t, p), t, p);
  }

  lemma RegisterKeeps(s: Table, t: Thread, slot: nat)
    requires Inv(s) && slot in s.occupied
    ensures var u := At(s.(registered := s.registered + {slot}), t, Reserved(slot)); Inv(u) && Grew(s, u)
  {
    hide Distinct;
    InvFrom(s, At(s.(registered := s.registered + {slot}), t, Reserved(slot)), t, Reserved(slot));
  }

  lemma PcOkAt(s: Table, t: Thread)
    requires Inv(s)
    ensures PcOk(s, PcOf(s, t))
  {}

  lemma StepKeeps(s: Table, a: Action)
    requires Inv(s) && Enabled(s, a)
    ensures Inv(Next(s, a)) && Grew(s, Next(s, a))
  {
    hide Inv, Grew, FirstFree;
    var t := a.t;
    PcOkAt(s, t);
    match a
    case CallCreate(_) => MoveKeeps(s, t, ReserveLoad);
    case CallDelete(_, slot, terminal) => MoveKeeps(s, t, if slot in s.registered && terminal then DeleteOr(slot) else Refused);
    case Advance(_, installs) =>
      match PcOf(s, t) {
        case ReserveLoad => ChooseKeeps(s, t, 0);
        case ReserveCas(current, failures) =>
          if s.occupied == current {
            GrantKeeps(s, t, current, failures);
          } else {
            StrictlyMore(current, s.occupied);
            ChooseKeeps(s, t, failures + 1);
          }
        case Installing(slot) => if installs { RegisterKeeps(s, t, slot); } else { MoveKeeps(s, t, Abandoned(slot)); }
        case DeleteOr(slot) => if slot in s.deleted { MoveKeeps(s, t, Refused); } else { DeleteKeeps(s, t, slot); }
      }
  }

  // ----- runs -------------------------------------------------------------------------------------------

  ghost predicate Runs(s: Table, acts: seq<Action>)
    decreases acts
  {
    acts == [] || (Enabled(s, acts[0]) && Runs(Next(s, acts[0]), acts[1..]))
  }

  ghost function After(s: Table, acts: seq<Action>): Table
    requires Runs(s, acts)
    decreases acts
  {
    if acts == [] then s else After(Next(s, acts[0]), acts[1..])
  }

  function Empty(size: nat): Table { Table(size, {}, {}, {}, map[], [], []) }

  lemma GrewTrans(s: Table, u: Table, v: Table)
    requires Grew(s, u) && Grew(u, v)
    ensures Grew(s, v)
  {}

  lemma {:induction false} RunKeeps(s: Table, acts: seq<Action>)
    requires Inv(s) && Runs(s, acts)
    ensures Inv(After(s, acts)) && Grew(s, After(s, acts))
    decreases acts
  {
    hide Inv, Enabled, Next;
    if acts != [] {
      StepKeeps(s, acts[0]);
      RunKeeps(Next(s, acts[0]), acts[1..]);
      GrewTrans(s, Next(s, acts[0]), After(s, acts));
    }
  }

  /** Main result: in every interleaving over a table of any size no slot is handed out twice
      or deleted twice, deleted slots were registered and registered slots reserved, no
      reservation retries more than size times, and one is refused only when the table is full. */
  lemma SlotsAreExclusive(size: nat, acts: seq<Action>, t: Thread)
    requires Runs(Empty(size), acts)
    ensures var s := After(Empty(size), acts);
      && Distinct(s.handedOut) && Distinct(s.deletions)
      && s.deleted <= s.registered <= s.occupied && |s.occupied| <= size
      && (forall i :: i in s.handedOut <==> i in s.occupied) && (forall i :: i in s.deletions <==> i in s.deleted)
      && (PcOf(s, t).ReserveCas? ==> PcOf(s, t).failures < size)
      && (PcOf(s, t).Full? ==> forall i :: 0 <= i < size ==> i in s.occupied)
      && (PcOf(s, t).Deleted? ==> PcOf(s, t).slot in s.deleted)
  {
    RunKeeps(Empty(size), acts);
    var s := After(Empty(size), acts);
    PcOkAt(s, t);
    Bounded(s.occupied, size);
    if PcOf(s, t).ReserveCas? {
      Room(PcOf(s, t).current, size, FirstFree(PcOf(s, t).current, size).value);
    }
    hide Runs, After, Distinct, FirstFree;
  }

  // ----- one call at a time -----------------------------------------------------------------------------

  lemma FirstFreeIs(bits: set<nat>, size: nat, slot: nat)
    requires slot < size && slot !in bits && forall j :: 0 <= j < slot ==> j in bits
    ensures FirstFree(bits, size) == Some(slot)
  {}

  lemma Unrolled(s: Table, a: Action, rest: seq<Action>)
    requires Enabled(s, a) && Runs(Next(s, a), rest)
    ensures Runs(s, [a] + rest) && After(s, [a] + rest) == After(Next(s, a), rest)
  {
    assert ([a] + rest)[1..] == rest;
    hide Enabled, Next;
  }

  /** A create that nobody disturbs takes the lowest free slot. */
  lemma CreateAlone(s: Table, t: Thread, slot: nat)
    requires Waiting(PcOf(s, t))
    requires slot < s.size && slot !in s.occupied && forall j :: 0 <= j < slot ==> j in s.occupied
    ensures var acts := [CallCreate(t)] + ([Advance(t, true)] + ([Advance(t, true)] + ([Advance(t, true)] + [])));
      && Runs(s, acts)
      && var u := After(s, acts);
      && u.occupied == s.occupied + {slot} && u.registered == s.registered + {slot} && u.handedOut == s.handedOut + [slot]
      && PcOf(u, t) == Reserved(slot) && u.deleted == s.deleted && u.deletions == s.deletions && u.size == s.size
      && forall o :: o != t ==> PcOf(u, o) == PcOf(s, o)
  {
    FirstFreeIs(s.occupied, s.size, slot);
    var go := Advance(t, true);
    var s1 := Next(s, CallCreate(t));
    var s2 := Next(s1, go);
    assert PcOf(s2, t) == ReserveCas(s.occupied, 0);
    var s3 := Next(s2, go);
    assert PcOf(s3, t) == Installing(slot);
    var s4 := Next(s3, go);
    Unrolled(s3, go, []);
    Unrolled(s2, go, [go] + []);
    Unrolled(s1, go, [go] + ([go] + []));
    Unrolled(s, CallCreate(t), [go] + ([go] + ([go] + [])));
  }

  /** A delete that nobody disturbs marks the slot of an ended VM that was not deleted before; any other
      is refused and changes nothing. */
  lemma DeleteAlone(s: Table, t: Thread, slot: nat, ended: bool)
    requires Waiting(PcOf(s, t))
    ensures var acts := [CallDelete(t, slot, ended)] + (if slot in s.registered && ended then [Advance(t, true)] + [] else []);
      && Runs(s, acts)
      && var u := After(s, acts);
      && (forall o :: o != t ==> PcOf(u, o) == PcOf(s, o))
      && if slot in s.registered && ended && slot !in s.deleted
         then PcOf(u, t) == Deleted(slot) && u == s.(pcs := u.pcs, deleted := s.deleted + {slot}, deletions := s.deletions + [slot])
         else PcOf(u, t) == Refused && u == s.(pcs := u.pcs)
  {
    var go := Advance(t, true);
    var s1 := Next(s, CallDelete(t, slot, ended));
    if slot in s.registered && ended {
      var s2 := Next(s1, go);
      Unrolled(s1, go, []);
      Unrolled(s, CallDelete(t, slot, ended), [go] + []);
    } else {
      Unrolled(s, CallDelete(t, slot, ended), []);
    }
  }
}
