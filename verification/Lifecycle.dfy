/** One VM's lock-free lifecycle word under any number of threads. Each action below is one
    atomic operation on the word (or on the exit-reason word); they interleave freely. */
module Lifecycle {
  import opened Wrappers

  datatype VmState = Created | Running | Halted | Stopped | Faulted

  predicate Terminal(s: VmState) { s == Halted || s == Stopped || s == Faulted }

  datatype Outcome = HaltedExit | FaultedExit

  function AfterExit(o: Outcome): VmState { if o == HaltedExit then Halted else Faulted }

  /** The all-ones word that stands for "no exit yet". */
  const NO_EXIT: nat := 0xFFFF_FFFF

  // ----- the calls, run by one thread without interference ------------------------------------

  class Vm {
    var state: VmState
    var lastExit: nat

    constructor ()
      ensures state == Created && lastExit == NO_EXIT
    {
      state, lastExit := Created, NO_EXIT;
    }

    method CompareExchange(from: VmState, to: VmState) returns (ok: bool)
      modifies `state
      ensures ok <==> old(state) == from
      ensures state == if ok then to else old(state)
    {
      ok := state == from;
      if ok {
        state := to;
      }
    }

    method MarkRunning() returns (r: Result<(), HyperError>)
      modifies `state
      ensures r.Ok? <==> old(state) == Created
      ensures state == if r.Ok? then Running else old(state)
    {
      var ok := CompareExchange(Created, Running);
      r := if ok then Ok(()) else Err(Denied);
    }

    /** The reason is recorded whether or not the transition succeeds. */
    method OnExit(reason: nat, kind: Outcome) returns (r: Result<VmState, HyperError>)
      modifies this
      ensures lastExit == reason
      ensures r == if old(state) == Running then Ok(if kind == HaltedExit then Halted else Faulted) else Err(Denied)
      ensures state == if r.Ok? then r.value else old(state)
    {
      lastExit := reason;
      var next := AfterExit(kind);
      var ok := CompareExchange(Running, next);
      r := if ok then Ok(next) else Err(Denied);
    }

    method Stop() returns (r: Result<(), HyperError>)
      modifies `state
      ensures r.Err? <==> Terminal(old(state))
      ensures state == if r.Ok? then Stopped else old(state)
    {
      var ok := CompareExchange(Created, Stopped);
      if ok {
        return Ok(());
      }
      ok := CompareExchange(Running, Stopped);
      r := if ok then Ok(()) else Err(Denied);
    }
  }

  // ----- the interleaved machine -------------------------------------------------------------------

  type Thread = nat

  /** Where a thread is inside a call, or what its last call returned. */
  datatype Pc =
    | Idle
    | MarkCas
    | ExitStore(reason: nat, kind: Outcome)
    | ExitCas(reason: nat, kind: Outcome)
    | StopFirst
    | StopSecond
    | Returned(call: Call, ok: bool)

  datatype Call = MarkRunning | OnExit(reason: nat, kind: Outcome) | Stop

  datatype Move = Move(who: Thread, from: VmState, to: VmState)

  /** moves is the history of successful transitions. */
  datatype Machine = Machine(state: VmState, lastExit: nat, pcs: map<Thread, Pc>, moves: seq<Move>)

  const FRESH: Machine := Machine(Created, NO_EXIT, map[], [])

  datatype Action = Enter(t: Thread, call: Call) | Advance(t: Thread)

  function PcOf(m: Machine, t: Thread): Pc { if t in m.pcs then m.pcs[t] else Idle }

  function FirstPc(c: Call): Pc {
    match c
    case MarkRunning => MarkCas
    case OnExit(reason, kind) => ExitStore(reason, kind)
    case Stop => StopFirst
  }

  predicate Waiting(p: Pc) { p.Idle? || p.Returned? }

  /** Exit reasons of the hardware are never the all-ones word. */
  predicate Enabled(m: Machine, a: Action) {
    match a
    case Enter(t, c) => Waiting(PcOf(m, t)) && (c.OnExit? ==> c.reason < NO_EXIT)
    case Advance(t) => !Waiting(PcOf(m, t))
  }

  function At(m: Machine, t: Thread, p: Pc): Machine { m.(pcs := m.pcs[t := p]) }

  /** A compare-exchange: on success the thread goes on at yes, otherwise at no. */
  function Cas(m: Machine, t: Thread, from: VmState, to: VmState, yes: Pc, no: Pc): Machine {
    if m.state == from then At(m.(state := to, moves := m.moves + [Move(t, from, to)]), t, yes) else At(m, t, no)
  }

  function Next(m: Machine, a: Action): Machine
    requires Enabled(m, a)
  {
    match a
    case Enter(t, c) => At(m, t, FirstPc(c))
    case Advance(t) =>
      match PcOf(m, t)
      case MarkCas => Cas(m, t, Created, Running, Returned(MarkRunning, true), Returned(MarkRunning, false))
      case ExitStore(reason, kind) => At(m.(lastExit := reason), t, ExitCas(reason, kind))
      case ExitCas(reason, kind) =>
        Cas(m, t, Running, AfterExit(kind), Returned(OnExit(reason, kind), true), Returned(OnExit(reason, kind), false))
      case StopFirst => Cas(m, t, Created, Stopped, Returned(Stop, true), StopSecond)
      case StopSecond => Cas(m, t, Running, Stopped, Returned(Stop, true), Returned(Stop, false))
  }

  /** The legal transitions. */
  predicate Legal(from: VmState, to: VmState) {
    (from == Created && (to == Running || to == Stopped)) || (from == Running && Terminal(to))
  }

  ghost predicate Path(moves: seq<Move>, state: VmState) {
    if moves == [] then state == Created
    else
      var last := moves[|moves| - 1];
      last.to == state && Legal(last.from, last.to) && Path(moves[..|moves| - 1], last.from)
  }

  ghost predicate PcOk(m: Machine, p: Pc) {
    && (p == StopSecond ==> m.state != Created)
    && (p.ExitCas? ==> m.lastExit != NO_EXIT)
    && (p.ExitStore? ==> p.reason < NO_EXIT)
    && (p.Returned? && p.call == Stop ==> Terminal(m.state))
  }

  ghost predicate Inv(m: Machine) {
    && Path(m.moves, m.state)
    && (m.state == Halted || m.state == Faulted ==> m.lastExit != NO_EXIT)
    && forall t :: t in m.pcs ==> PcOk(m, m.pcs[t])
  }

  lemma PathExtend(moves: seq<Move>, state: VmState, mv: Move)
    requires Path(moves, state) && mv.from == state && Legal(mv.from, mv.to)
    ensures Path(moves + [mv], mv.to)
  {
    assert (moves + [mv])[..|moves|] == moves;
  }

  lemma CasKeeps(m: Machine, t: Thread, from: VmState, to: VmState, yes: Pc, no: Pc)
    requires Inv(m) && Legal(from, to)
    requires (to == Halted || to == Faulted) ==> m.lastExit != NO_EXIT
    requires PcOk(m.(state := to), yes) && (m.state != from ==> PcOk(m, no))
    ensures Inv(Cas(m, t, from, to, yes, no))
  {
    if m.state == from { PathExtend(m.moves, from, Move(t, from, to)); }
    hide Path;
  }

  lemma StepKeeps(m: Machine, a: Action)
    requires Inv(m) && Enabled(m, a)
    ensures Inv(Next(m, a))
  {
    hide Path;
    if a.Advance? {
      match PcOf(m, a.t)
      case MarkCas => CasKeeps(m, a.t, Created, Running, Returned(MarkRunning, true), Returned(MarkRunning, false));
      case ExitCas(reason, kind) =>
        CasKeeps(m, a.t, Running, AfterExit(kind), Returned(OnExit(reason, kind), true), Returned(OnExit(reason, kind), false));
      case StopFirst => CasKeeps(m, a.t, Created, Stopped, Returned(Stop, true), StopSecond);
      case StopSecond => CasKeeps(m, a.t, Running, Stopped, Returned(Stop, true), Returned(Stop, false));
      case _ =>
    }
  }

  ghost predicate Runs(m: Machine, acts: seq<Action>)
    decreases acts
  {
    acts == [] || (Enabled(m, acts[0]) && Runs(Next(m, acts[0]), acts[1..]))
  }

  ghost function After(m: Machine, acts: seq<Action>): Machine
    requires Runs(m, acts)
    decreases acts
  {
    if acts == [] then m else After(Next(m, acts[0]), acts[1..])
  }

  lemma {:induction false} RunKeeps(m: Machine, acts: seq<Action>)
    requires Inv(m) && Runs(m, acts)
    ensures Inv(After(m, acts))
    decreases acts
  {
    hide Inv, Enabled, Next;
    if acts != [] {
      StepKeeps(m, acts[0]);
      RunKeeps(Next(m, acts[0]), acts[1..]);
    }
  }

  // ----- what holds in every interleaving -----------------------------------------------------------

  function TerminalMoves(moves: seq<Move>): nat {
    if moves == [] then 0
    else TerminalMoves(moves[..|moves| - 1]) + if Terminal(moves[|moves| - 1].to) then 1 else 0
  }

  lemma {:induction false} PathEndsOnce(moves: seq<Move>, state: VmState)
    requires Path(moves, state)
    ensures TerminalMoves(moves) == if Terminal(state) then 1 else 0
    ensures |moves| <= 2
    ensures state == Running ==> |moves| == 1
  {
    if moves != [] {
      PathEndsOnce(moves[..|moves| - 1], moves[|moves| - 1].from);
    }
  }

  /** Main result: any number of threads, any interleaving: exactly one terminal transition
      succeeds if the VM ended, none otherwise; every stop that returned left the VM ended, so
      a stop that failed found it ended already; and an exit state has a recorded reason. */
  lemma OneEnd(acts: seq<Action>)
    requires Runs(FRESH, acts)
    ensures var m := After(FRESH, acts);
      && TerminalMoves(m.moves) == (if Terminal(m.state) then 1 else 0)
      && (forall t :: t in m.pcs && m.pcs[t].Returned? && m.pcs[t].call == Stop ==> Terminal(m.state))
      && (m.state == Halted || m.state == Faulted ==> m.lastExit != NO_EXIT)
  {
    RunKeeps(FRESH, acts);
    var m := After(FRESH, acts);
    PathEndsOnce(m.moves, m.state);
    hide Path, Runs, After;
  }

  /** Main result: a terminal state never changes again. */
  lemma {:induction false} TerminalStays(m: Machine, acts: seq<Action>)
    requires Terminal(m.state) && Runs(m, acts)
    ensures After(m, acts).state == m.state && After(m, acts).moves == m.moves
    decreases acts
  {
    hide Enabled;
    if acts != [] {
      TerminalStays(Next(m, acts[0]), acts[1..]);
    }
  }

  /** A stop that is about to fail does so only on an ended VM, whatever happened between its
      two attempts. */
  lemma StopFailsOnlyWhenEnded(acts: seq<Action>, t: Thread)
    requires Runs(FRESH, acts) && PcOf(After(FRESH, acts), t) == StopSecond
    ensures var m := After(FRESH, acts);
      Enabled(m, Advance(t)) && (PcOf(Next(m, Advance(t)), t) == Returned(Stop, false) <==> Terminal(m.state))
  {
    RunKeeps(FRESH, acts);
    hide Path, Runs, After;
  }

  // ----- a call run alone -----------------------------------------------------------------------------

  /** Steps of one thread until its call returns. */
  function Finish(m: Machine, t: Thread, fuel: nat): Machine
    decreases fuel
  {
    if fuel == 0 || Waiting(PcOf(m, t)) then m else Finish(Next(m, Advance(t)), t, fuel - 1)
  }

  /** Without interference the machine's steps do what the object's methods promise, within
      two atomic operations. */
  lemma AloneIsTheCall(m: Machine, t: Thread, c: Call)
    requires Enabled(m, Enter(t, c))
    ensures var u := Finish(Next(m, Enter(t, c)), t, 2);
      && PcOf(u, t).Returned? && PcOf(u, t).call == c
      && match c
         case MarkRunning => PcOf(u, t).ok == (m.state == Created) && u.state == (if m.state == Created then Running else m.state)
         case OnExit(reason, kind) =>
           PcOf(u, t).ok == (m.state == Running) && u.lastExit == reason
           && u.state == (if m.state != Running then m.state else if kind == HaltedExit then Halted else Faulted)
         case Stop => PcOf(u, t).ok == !Terminal(m.state) && u.state == (if Terminal(m.state) then m.state else Stopped)
  {
    var e := Next(m, Enter(t, c));
    var f := Next(e, Advance(t));
    if !Waiting(PcOf(f, t)) {
      var g := Next(f, Advance(t));
      assert Finish(g, t, 0) == g;
    }
    assert Finish(e, t, 2) == Finish(f, t, 1);
  }
}
