/** One turn of the bridge loop: a received line in, at most one reply line out. */
module BridgeLoop {
  import opened Wrappers
  import opened WireScan
  import opened WireRequest
  import WireHost
  import opened WireReply
  import opened WireLine
  import opened Staging
  import opened Bridge

  /** What the VM manager answers during the turn, and the text of whatever error arises. */
  datatype Answers = Answers(created: Result<nat, HyperError>, moved: Result<(StateTag, Option<nat>), HyperError>,
                             deleted: Result<(), HyperError>, entries: seq<Option<VmEntry>>, text: string)

  predicate AnswersOk(a: Answers) {
    && (a.created.Ok? ==> a.created.value < U32_LIMIT)
    && (a.moved.Ok? ==> OptFits(a.moved.value.1, U32_LIMIT))
    && |a.entries| == ROWS_MAX
    && forall k :: 0 <= k < ROWS_MAX && a.entries[k].Some? ==> OptFits(a.entries[k].value.lastExit, U32_LIMIT)
  }

  /** A keep-alive: nothing but blanks. */
  predicate KeepAlive(line: string) { forall k :: 0 <= k < |line| ==> line[k] == ' ' || line[k] == '\t' }

  function Truncated(text: string): string {
    if |text| > ERROR_MSG_MAX then text[..ERROR_MSG_MAX] else text
  }

  lemma KeepAliveIsNoRequest(line: string)
    requires KeepAlive(line)
    ensures Decode(line) == Err(Invalid)
  {}

  // ----- what a turn does, as functions --------------------------------------------------------

  /** What the side tables hold for one slot. */
  datatype Slot = Slot(name: string, extras: Extras)

  const FREE_SLOT: Slot := Slot("", NO_EXTRAS)

  type Tables = t: seq<Slot> | |t| == ROWS_MAX witness [FREE_SLOT, FREE_SLOT, FREE_SLOT, FREE_SLOT]

  const NO_LABELS: Tables := [FREE_SLOT, FREE_SLOT, FREE_SLOT, FREE_SLOT]

  function SlotsOf(names: seq<string>, extras: seq<Extras>): Tables
    requires |names| == |extras| == ROWS_MAX
  {
    seq(ROWS_MAX, k requires 0 <= k < ROWS_MAX => Slot(names[k], extras[k]))
  }

  function Put(t: Tables, id: nat, s: Slot): Tables { if id < ROWS_MAX then t[id := s] else t }

  /** The label and the extras a create request brings. */
  function Brought(req: Request): Slot
    requires req.Create?
  {
    Slot(req.name, Extras(if req.imagePath.Some? then req.imagePath.value else "", req.cpuCount, req.memoryMib, req.bootCrc))
  }

  function Recorded(t: Tables, req: Request, a: Answers): Tables {
    match req
    case Create(_, _, _, _, _) => if a.created.Ok? then Put(t, a.created.value, Brought(req)) else t
    case Delete(id) => if a.deleted.Ok? then Put(t, id, FREE_SLOT) else t
    case _ => t
  }

  function TablesAfter(t: Tables, line: string, a: Answers): Tables {
    match Decode(line) case Ok(req) => Recorded(t, req, a) case Err(_) => t
  }

  function Moved(id: nat, a: Answers): Result<Reply, HyperError> {
    match a.moved case Ok(m) => Ok(StateReply(id, m.0, m.1)) case Err(e) => Err(e)
  }

  function Listing(entries: seq<Option<VmEntry>>, t: Tables): Reply
    requires |entries| == ROWS_MAX
  {
    ListedReply(seq(ROWS_MAX, k requires 0 <= k < ROWS_MAX => RowAt(k, entries[k], t[k].name, t[k].extras)))
  }

  function Answered(held: Option<seq<Byte>>, t: Tables, req: Request, a: Answers): Result<Reply, HyperError>
    requires |a.entries| == ROWS_MAX
  {
    match req
    case Create(_, _, _, _, _) =>
      (match a.created
       case Ok(id) => if id < ROWS_MAX then Ok(CreatedReply(id)) else Err(Denied)
       case Err(e) => Err(e))
    case Start(id) => Moved(id, a)
    case Stop(id) => Moved(id, a)
    case Delete(id) => (match a.deleted case Ok(_) => Ok(DeletedReply(id)) case Err(e) => Err(e))
    case ListVms => Ok(Listing(a.entries, t))
    case ImageLoad(len, crc, hex) =>
      (match Staged(held, hex, len, crc).0 case Ok(_) => Ok(ImageLoadedReply(len, crc)) case Err(e) => Err(e))
  }

  /** The reply to a received line, if it gets one. */
  function ReplyTo(held: Option<seq<Byte>>, t: Tables, line: string, a: Answers): Option<Reply>
    requires |a.entries| == ROWS_MAX
  {
    if KeepAlive(line) then None
    else
      match Decode(line)
      case Err(_) => Some(ErrorReply(Truncated(a.text)))
      case Ok(req) =>
        match Answered(held, t, req, a)
        case Ok(r) => Some(r)
        case Err(_) => Some(ErrorReply(Truncated(a.text)))
  }

  /** The kernel's side of the bridge. */
  class Kernel {
    const staged: StagedImage
    const tables: SideTables
    const tx: array<char>
    const hello: seq<Byte>

    constructor (hello: seq<Byte>)
      ensures Valid() && staged.Held() == None && this.hello == hello && Slots() == NO_LABELS
      ensures fresh(staged) && fresh(staged.bytes) && fresh(tables) && fresh(tables.names) && fresh(tables.extras) && fresh(tx)
    {
      this.hello := hello;
      staged := new StagedImage();
      tables := new SideTables();
      tx := new char[TX_CAP](_ => ' ');
    }

    ghost predicate Valid()
      reads this, staged, staged.bytes, tables, tables.names, tables.extras
    {
      staged.Valid() && tables.Valid() && tx.Length == TX_CAP
    }

    ghost function Slots(): Tables
      requires Valid()
      reads this, staged, staged.bytes, tables, tables.names, tables.extras
    {
      SlotsOf(tables.names[..], tables.extras[..])
    }

    /** Carry out a decoded request. boots is the image handed to the manager by a create. */
    method Dispatch(req: Request, a: Answers) returns (r: Result<Reply, HyperError>, boots: Option<BootImage>)
      requires Valid() && AnswersOk(a)
      requires req.Create? ==> CreateOk(req.name, req.imagePath, req.cpuCount, req.memoryMib, req.bootCrc)
      requires WireHost.Typed(req)
      modifies staged, staged.bytes, tables.names, tables.extras
      ensures Valid() && (r.Ok? ==> Emittable(r.value))
      ensures staged.Held() == if req.ImageLoad? then Staged(old(staged.Held()), req.bytesHex, req.len, req.crc).1 else old(staged.Held())
      ensures boots == if req.Create? then Some(Chosen(old(staged.Held()), req.bootCrc, hello)) else None
      ensures r == Answered(old(staged.Held()), old(Slots()), req, a)
      ensures Slots() == Recorded(old(Slots()), req, a)
    {
      hide Staged, Chosen;
      boots := None;
      match req {
        case Create(name, path, cpus, mem, crc) =>
          var image := staged.FromStagedOrEmbedded(crc, hello);
          boots := Some(image);
          if a.created.Err? {
            return Err(a.created.error), boots;
          }
          var noted := tables.Remember(a.created.value, name, path, cpus, mem, crc);
          if noted.Err? {
            return Err(noted.error), boots;
          }
          r := Ok(CreatedReply(a.created.value));
        case Start(id) =>
          r := if a.moved.Err? then Err(a.moved.error) else Ok(StateReply(id, a.moved.value.0, a.moved.value.1));
        case Stop(id) =>
          r := if a.moved.Err? then Err(a.moved.error) else Ok(StateReply(id, a.moved.value.0, a.moved.value.1));
        case Delete(id) =>
          if a.deleted.Err? {
            return Err(a.deleted.error), boots;
          }
          tables.Forget(id);
          r := Ok(DeletedReply(id));
        case ListVms =>
          var rows := tables.BuildRows(a.entries);
          assert ListedReply(rows) == Listing(a.entries, Slots());
          r := Ok(ListedReply(rows));
        case ImageLoad(len, crc, hex) =>
          var loaded := staged.StageFromHex(hex, len, crc);
          if loaded.Err? {
            return Err(loaded.error), boots;
          }
          r := Ok(ImageLoadedReply(len, crc));
      }
    }

    /** One turn of the loop. Every line that is no keep-alive is answered by exactly one reply
        line, which fits the buffer; refused lines get an error. Whether the host can read the
        line is decided by the labels and paths it lists (BridgeRuns). */
    method Turn(line: string, a: Answers) returns (sent: string, ghost reply: Option<Reply>, boots: Option<BootImage>)
      requires Valid() && AnswersOk(a) && '\n' !in line
      modifies staged, staged.bytes, tables.names, tables.extras, tx
      ensures Valid()
      ensures reply == ReplyTo(old(staged.Held()), old(Slots()), line, a)
      ensures sent == if reply.Some? then ReplyLine(reply.value) else ""
      ensures reply.Some? ==> Emittable(reply.value)
      ensures staged.Held() == SlotAfter(old(staged.Held()), line)
      ensures Slots() == TablesAfter(old(Slots()), line, a)
      ensures var d := Decode(line);
        boots == if d.Ok? && d.value.Create? then Some(Chosen(old(staged.Held()), d.value.bootCrc, hello)) else None
    {
      hide Decode, Staged, Chosen, KeepAlive, ReplyLine, Recorded, Answered;
      sent, reply, boots := "", None, None;
      var blank := IsKeepAlive(line);
      if blank {
        KeepAliveIsNoRequest(line);
        return;
      }
      DecodedIsSafe(line);
      var req := DecodeRequest(line);
      var message := ErrorReply(Truncated(a.text));
      if req.Err? {
        sent := Send(message);
        reply := Some(message);
        return;
      }
      var r, image := Dispatch(req.value, a);
      boots := image;
      var answer := if r.Ok? then r.value else message;
      sent := Send(answer);
      reply := Some(answer);
    }

    method IsKeepAlive(line: string) returns (yes: bool)
      ensures yes <==> KeepAlive(line)
    {
      for k := 0 to |line|
        invariant forall j :: 0 <= j < k ==> line[j] == ' ' || line[j] == '\t'
      {
        if line[k] != ' ' && line[k] != '\t' {
          return false;
        }
      }
      yes := true;
    }

    /** Encoding into the transmit buffer never fails here. */
    method Send(reply: Reply) returns (sent: string)
      requires tx.Length == TX_CAP && Emittable(reply)
      modifies tx
      ensures sent == ReplyLine(reply)
    {
      LineFits(reply);
      hide ReplyLine;
      var n := EncodeReply(reply, tx);
      sent := if n.Ok? then tx[..n.value] else "";
    }
  }
}
