/** Reply lines: the kernel's writer over a fixed buffer, and what a finished line is. */
module WireReply {
  import opened Wrappers
  import opened WireScan
  import opened WireGrammar
  import opened WireDocument
  import opened WireHost
  import WireRequest

  const ERROR_MSG_MAX: nat := 96
  const ROWS_MAX: nat := 4

  datatype StateTag = Created | Running | Halted | Stopped | Faulted

  function TagText(t: StateTag): string {
    match t
    case Created => "created"
    case Running => "running"
    case Halted => "halted"
    case Stopped => "stopped"
    case Faulted => "faulted"
  }

  /** One listed VM. An empty image path means that there is none. */
  datatype Row = Row(vmId: nat, name: string, state: StateTag, lastExit: Option<nat>, imagePath: string,
                     cpuCount: Option<nat>, memoryMib: Option<nat>, bootCrc: Option<nat>)

  datatype Reply =
    | CreatedReply(vmId: nat)
    | StateReply(vmId: nat, state: StateTag, lastExit: Option<nat>)
    | DeletedReply(vmId: nat)
    | ListedReply(rows: seq<Option<Row>>)
    | ImageLoadedReply(len: nat, crc: nat)
    | ErrorReply(message: string)

  // ----- what is written, chunk behind chunk ---------------------------------------------

  function OptInto(t: string, lead: string, n: Option<nat>): string {
    if n.Some? then t + lead + Decimal(n.value) else t
  }

  function IdentityInto(t: string, row: Row): string {
    t + "{\"vm_id\":" + Decimal(row.vmId) + ",\"label\":\"" + row.name + "\",\"state\":\"" + TagText(row.state) + "\""
  }

  function PathInto(t: string, path: string): string {
    if path != "" then t + ",\"image_path\":\"" + path + "\"" else t
  }

  function RowInto(t: string, row: Row): string {
    var b := OptInto(IdentityInto(t, row), ",\"last_exit\":", row.lastExit);
    var d := OptInto(PathInto(b, row.imagePath), ",\"cpu_count\":", row.cpuCount);
    var e := OptInto(d, ",\"memory_mib\":", row.memoryMib);
    OptInto(e, ",\"boot_blob_crc32c\":", row.bootCrc) + "}"
  }

  /** The rows from the k-th slot on; a comma goes before every row but the first. */
  function RowsInto(t: string, rows: seq<Option<Row>>, k: nat, first: bool): string
    requires k <= |rows|
    decreases |rows| - k
  {
    if k == |rows| then t
    else if rows[k].None? then RowsInto(t, rows, k + 1, first)
    else RowsInto(RowInto(if first then t else t + ",", rows[k].value), rows, k + 1, false)
  }

  /** How one message byte is written. */
  function EscapeByte(c: char): string {
    if c == '\"' then "\\\"" else if c == '\\' then "\\\\" else if c < ' ' then "" else [c]
  }

  /** Quotes and backslashes escaped, control bytes dropped. */
  function EscapeMessage(s: string): string {
    if s == "" then "" else EscapeByte(s[0]) + EscapeMessage(s[1..])
  }

  function StateInto(t: string, id: nat, st: StateTag): string {
    t + "{\"reply\":\"state\",\"vm_id\":" + Decimal(id) + ",\"state\":\"" + TagText(st) + "\""
  }

  function ReplyInto(t: string, r: Reply): string {
    match r
    case CreatedReply(id) => t + "{\"reply\":\"created\",\"vm_id\":" + Decimal(id) + "}"
    case StateReply(id, st, exit) => OptInto(StateInto(t, id, st), ",\"last_exit\":", exit) + "}"
    case DeletedReply(id) => t + "{\"reply\":\"deleted\",\"vm_id\":" + Decimal(id) + "}"
    case ListedReply(rows) => RowsInto(t + "{\"reply\":\"listed\",\"rows\":[", rows, 0, true) + "]}"
    case ImageLoadedReply(len, crc) => t + "{\"reply\":\"image_loaded\",\"len\":" + Decimal(len) + ",\"crc32c\":" + Decimal(crc) + "}"
    case ErrorReply(m) => t + "{\"reply\":\"error\",\"message\":\"" + EscapeMessage(m) + "\"}"
  }

  function ReplyLine(r: Reply): string { ReplyInto("", r) + "\n" }

  // ----- decimal widths ----------------------------------------------------------------------

  function Pow10(k: nat): (p: nat)
    ensures p > 0
  {
    if k == 0 then 1 else 10 * Pow10(k - 1)
  }

  lemma {:induction false} DecimalWidth(n: nat, k: nat)
    requires k > 0 && n < Pow10(k)
    ensures |Decimal(n)| <= k
  {
    if n >= 10 {
      DecimalWidth(n / 10, k - 1);
    }
  }

  lemma PowerStep(n: nat, i: nat)
    requires 0 < n < Pow10(i)
    ensures i > 0 && n / 10 < Pow10(i - 1)
  {}

  /** Moving the last digit from the number to the text behind it. */
  lemma DecimalStep(n: nat, tail: string)
    requires n > 0
    ensures Decimal(n) + tail == (if n / 10 == 0 then "" else Decimal(n / 10)) + ([Digit(n % 10)] + tail)
  {
    if n >= 10 {
      assert Decimal(n / 10) + [Digit(n % 10)] + tail == Decimal(n / 10) + ([Digit(n % 10)] + tail);
    }
  }

  lemma Widths()
    ensures U32_LIMIT <= Pow10(10) && U64_LIMIT <= Pow10(20)
  {
    assert Pow10(5) == 100000;
    assert Pow10(10) == 10000000000;
    assert Pow10(15) == 1000000000000000;
    assert Pow10(20) == 100000000000000000000;
  }

  // ----- the writer object ---------------------------------------------------------------------

  class Writer {
    const out: array<char>
    var pos: nat

    constructor (out: array<char>)
      ensures this.out == out && pos == 0
    {
      this.out := out;
      this.pos := 0;
    }

    ghost predicate Valid()
      reads this
    {
      pos <= out.Length
    }

    ghost function Written(): (s: string)
      requires Valid()
      reads this, out
      ensures |s| == pos
    {
      out[..pos]
    }

    /** Appended s, or refused for want of room and changed nothing. */
    twostate predicate Put(new r: Result<(), HyperError>, s: string)
      requires old(Valid())
      reads this, out
    {
      && Valid()
      && (old(pos) + |s| <= out.Length ==> r == Ok(()) && Written() == old(Written()) + s)
      && (old(pos) + |s| > out.Length ==> r == Err(Exhausted) && Written() == old(Written()))
    }

    method PutU8(b: char) returns (r: Result<(), HyperError>)
      requires Valid()
      modifies this, out
      ensures Put(r, [b])
    {
      if pos >= out.Length {
        return Err(Exhausted);
      }
      out[pos] := b;
      pos := pos + 1;
      r := Ok(());
    }

    method PutStr(s: string) returns (r: Result<(), HyperError>)
      requires Valid()
      modifies this, out
      ensures Put(r, s)
    {
      if pos + |s| > out.Length {
        return Err(Exhausted);
      }
      forall k | 0 <= k < |s| {
        out[pos + k] := s[k];
      }
      pos := pos + |s|;
      r := Ok(());
    }

    /** Both decimal writers. */
    method PutDecimal(v: nat, width: nat) returns (r: Result<(), HyperError>)
      requires Valid() && width > 0 && v < Pow10(width)
      modifies this, out
      ensures Put(r, Decimal(v))
    {
      hide Pow10;
      var digits := DecimalDigits(v, width);
      r := PutStr(digits);
    }
  }

  lemma ZeroText()
    ensures Decimal(0) == "0"
  {}

  /** One byte in front of what the buffer holds from i on. */
  method PutBefore(buf: array<char>, i: nat, c: char)
    requires 0 < i <= buf.Length
    modifies buf
    ensures buf[i - 1..] == [c] + old(buf[i..])
  {
    buf[i - 1] := c;
    assert buf[i..] == old(buf[i..]);
  }

  /** The digits, built backwards in a scratch buffer of the given width. */
  method DecimalDigits(v: nat, width: nat) returns (digits: string)
    requires width > 0 && v < Pow10(width)
    ensures digits == Decimal(v)
  {
    hide Pow10, Decimal, Digit;
    var buf := new char[width];
    var i: nat, n: nat := width, v;
    assert buf[i..] == "";
    if n == 0 {
      ZeroText();
      PutBefore(buf, i, '0');
      i := i - 1;
    } else {
      assert Decimal(v) + "" == Decimal(v);
      while n > 0
        invariant i <= width == buf.Length && n < Pow10(i)
        invariant v > 0 && Decimal(v) == (if n == 0 then "" else Decimal(n)) + buf[i..]
      {
        PowerStep(n, i);
        DecimalStep(n, buf[i..]);
        PutBefore(buf, i, Digit(n % 10));
        i := i - 1;
        n := n / 10;
      }
    }
    digits := buf[i..];
  }

  /** The writer's text became the target, or the target does not fit. */
  ghost predicate Emitted(r: Result<(), HyperError>, w: Writer, target: string)
    reads w, w.out
  {
    && w.Valid()
    && (|target| <= w.out.Length ==> r == Ok(()) && w.Written() == target)
    && (|target| > w.out.Length ==> r == Err(Exhausted))
  }

  predicate OptFits(n: Option<nat>, limit: nat) { n.Some? ==> n.value < limit }

  /** The field types of a row. */
  predicate TypedRow(row: Row) {
    row.vmId < U32_LIMIT && OptFits(row.lastExit, U32_LIMIT) && OptFits(row.cpuCount, U32_LIMIT)
    && OptFits(row.memoryMib, U64_LIMIT) && OptFits(row.bootCrc, U32_LIMIT)
  }

  predicate TypedReply(r: Reply) {
    match r
    case CreatedReply(id) => id < U32_LIMIT
    case StateReply(id, _, exit) => id < U32_LIMIT && OptFits(exit, U32_LIMIT)
    case DeletedReply(id) => id < U32_LIMIT
    case ListedReply(rows) => forall k :: 0 <= k < |rows| && rows[k].Some? ==> TypedRow(rows[k].value)
    case ImageLoadedReply(len, crc) => len < U32_LIMIT && crc < U32_LIMIT
    case ErrorReply(_) => true
  }

  method PutU32(w: Writer, v: nat) returns (r: Result<(), HyperError>)
    requires w.Valid() && v < U32_LIMIT
    modifies w, w.out
    ensures Emitted(r, w, old(w.Written()) + Decimal(v))
  {
    Widths();
    r := w.PutDecimal(v, 10);
  }

  method PutU64(w: Writer, v: nat) returns (r: Result<(), HyperError>)
    requires w.Valid() && v < U64_LIMIT
    modifies w, w.out
    ensures Emitted(r, w, old(w.Written()) + Decimal(v))
  {
    Widths();
    r := w.PutDecimal(v, 20);
  }

  method PutOptU32(w: Writer, lead: string, n: Option<nat>) returns (r: Result<(), HyperError>)
    requires w.Valid() && OptFits(n, U32_LIMIT)
    modifies w, w.out
    ensures Emitted(r, w, OptInto(old(w.Written()), lead, n))
  {
    if n.Some? {
      var _ :- w.PutStr(lead);
      var _ :- PutU32(w, n.value);
    }
    r := Ok(());
  }

  method PutOptU64(w: Writer, lead: string, n: Option<nat>) returns (r: Result<(), HyperError>)
    requires w.Valid() && OptFits(n, U64_LIMIT)
    modifies w, w.out
    ensures Emitted(r, w, OptInto(old(w.Written()), lead, n))
  {
    if n.Some? {
      var _ :- w.PutStr(lead);
      var _ :- PutU64(w, n.value);
    }
    r := Ok(());
  }

  method PutIdentity(w: Writer, row: Row) returns (r: Result<(), HyperError>)
    requires w.Valid() && TypedRow(row)
    modifies w, w.out
    ensures Emitted(r, w, IdentityInto(old(w.Written()), row))
  {
    hide Decimal, TagText;
    var _ :- w.PutStr("{\"vm_id\":");
    var _ :- PutU32(w, row.vmId);
    var _ :- w.PutStr(",\"label\":\"");
    var _ :- w.PutStr(row.name);
    var _ :- w.PutStr("\",\"state\":\"");
    var _ :- w.PutStr(TagText(row.state));
    r := w.PutU8('\"');
  }

  method PutPath(w: Writer, path: string) returns (r: Result<(), HyperError>)
    requires w.Valid()
    modifies w, w.out
    ensures Emitted(r, w, PathInto(old(w.Written()), path))
  {
    if path != "" {
      var _ :- w.PutStr(",\"image_path\":\"");
      var _ :- w.PutStr(path);
      var _ :- w.PutU8('\"');
    }
    r := Ok(());
  }

  lemma RowGrows(t: string, row: Row)
    ensures var b := OptInto(IdentityInto(t, row), ",\"last_exit\":", row.lastExit);
      var c := PathInto(b, row.imagePath);
      var d := OptInto(c, ",\"cpu_count\":", row.cpuCount);
      var e := OptInto(d, ",\"memory_mib\":", row.memoryMib);
      var f := OptInto(e, ",\"boot_blob_crc32c\":", row.bootCrc);
      |t| <= |IdentityInto(t, row)| <= |b| <= |c| <= |d| <= |e| <= |f| < |RowInto(t, row)|
  {
    hide Decimal, TagText;
  }

  method EncodeRow(w: Writer, row: Row) returns (r: Result<(), HyperError>)
    requires w.Valid() && TypedRow(row)
    modifies w, w.out
    ensures Emitted(r, w, RowInto(old(w.Written()), row))
  {
    hide IdentityInto, PathInto, OptInto;
    RowGrows(w.Written(), row);
    var _ :- PutIdentity(w, row);
    var _ :- PutOptU32(w, ",\"last_exit\":", row.lastExit);
    var _ :- PutPath(w, row.imagePath);
    var _ :- PutOptU32(w, ",\"cpu_count\":", row.cpuCount);
    var _ :- PutOptU64(w, ",\"memory_mib\":", row.memoryMib);
    var _ :- PutOptU32(w, ",\"boot_blob_crc32c\":", row.bootCrc);
    r := w.PutU8('}');
  }

  lemma {:induction false} RowsGrow(t: string, rows: seq<Option<Row>>, k: nat, first: bool)
    requires k <= |rows|
    ensures |t| <= |RowsInto(t, rows, k, first)|
    decreases |rows| - k
  {
    if k < |rows| {
      if rows[k].None? {
        RowsGrow(t, rows, k + 1, first);
      } else {
        var u := if first then t else t + ",";
        RowGrows(u, rows[k].value);
        RowsGrow(RowInto(u, rows[k].value), rows, k + 1, false);
      }
    }
  }

  method EncodeRows(w: Writer, rows: seq<Option<Row>>) returns (r: Result<(), HyperError>)
    requires w.Valid() && forall k :: 0 <= k < |rows| && rows[k].Some? ==> TypedRow(rows[k].value)
    modifies w, w.out
    ensures Emitted(r, w, RowsInto(old(w.Written()), rows, 0, true))
  {
    hide RowInto, Decimal;
    var first := true;
    ghost var target := RowsInto(w.Written(), rows, 0, true);
    for k := 0 to |rows|
      invariant w.Valid() && target == RowsInto(w.Written(), rows, k, first)
    {
      if rows[k].Some? {
        RowsGrow(RowInto(if first then w.Written() else w.Written() + ",", rows[k].value), rows, k + 1, false);
        var _ :- EncodeNext(w, rows[k].value, first);
        first := false;
      }
    }
    r := Ok(());
  }

  /** A row, behind a comma unless it is the first. */
  method EncodeNext(w: Writer, row: Row, first: bool) returns (r: Result<(), HyperError>)
    requires w.Valid() && TypedRow(row)
    modifies w, w.out
    ensures Emitted(r, w, RowInto(if first then old(w.Written()) else old(w.Written()) + ",", row))
  {
    hide RowInto;
    RowGrows(w.Written() + ",", row);
    if !first {
      var _ :- w.PutU8(',');
    }
    r := EncodeRow(w, row);
  }

  lemma MessageStep(t: string, m: string, k: nat)
    requires k < |m|
    ensures t + EscapeMessage(m[k..]) == t + EscapeByte(m[k]) + EscapeMessage(m[k + 1..])
  {
    assert m[k..][1..] == m[k + 1..];
  }

  method EncodeMessage(w: Writer, m: string) returns (r: Result<(), HyperError>)
    requires w.Valid()
    modifies w, w.out
    ensures Emitted(r, w, old(w.Written()) + EscapeMessage(m))
  {
    hide EscapeMessage;
    ghost var t := w.Written();
    assert m[0..] == m;
    for k := 0 to |m|
      invariant w.Valid() && w.Written() + EscapeMessage(m[k..]) == t + EscapeMessage(m)
    {
      MessageStep(w.Written(), m, k);
      var b := m[k];
      if b == '\"' {
        var _ :- w.PutStr("\\\"");
      } else if b == '\\' {
        var _ :- w.PutStr("\\\\");
      } else if b >= ' ' {
        var _ :- w.PutU8(b);
      } else {
        assert w.Written() + "" == w.Written();
      }
    }
    assert m[|m|..] == "" && EscapeMessage("") == "" by { NoMessage(); }
    r := Ok(());
  }

  lemma NoMessage()
    ensures EscapeMessage("") == ""
  {}

  method EncodeBody(w: Writer, reply: Reply) returns (r: Result<(), HyperError>)
    requires w.Valid() && TypedReply(reply)
    modifies w, w.out
    ensures Emitted(r, w, ReplyInto(old(w.Written()), reply))
  {
    hide Decimal, TagText, EscapeMessage, RowsInto, StateInto;
    match reply {
      case CreatedReply(id) =>
        var _ :- w.PutStr("{\"reply\":\"created\",\"vm_id\":");
        var _ :- PutU32(w, id);
        r := w.PutU8('}');
      case StateReply(id, st, exit) =>
        var _ :- PutState(w, id, st);
        var _ :- PutOptU32(w, ",\"last_exit\":", exit);
        r := w.PutU8('}');
      case DeletedReply(id) =>
        var _ :- w.PutStr("{\"reply\":\"deleted\",\"vm_id\":");
        var _ :- PutU32(w, id);
        r := w.PutU8('}');
      case ListedReply(rows) =>
        RowsGrow(w.Written() + "{\"reply\":\"listed\",\"rows\":[", rows, 0, true);
        var _ :- w.PutStr("{\"reply\":\"listed\",\"rows\":[");
        var _ :- EncodeRows(w, rows);
        r := w.PutStr("]}");
      case ImageLoadedReply(len, crc) =>
        r := EncodeImageLoaded(w, len, crc);
      case ErrorReply(m) =>
        var _ :- w.PutStr("{\"reply\":\"error\",\"message\":\"");
        var _ :- EncodeMessage(w, m);
        r := w.PutStr("\"}");
    }
  }

  method EncodeImageLoaded(w: Writer, len: nat, crc: nat) returns (r: Result<(), HyperError>)
    requires w.Valid() && len < U32_LIMIT && crc < U32_LIMIT
    modifies w, w.out
    ensures Emitted(r, w, ReplyInto(old(w.Written()), ImageLoadedReply(len, crc)))
  {
    hide Decimal;
    var _ :- w.PutStr("{\"reply\":\"image_loaded\",\"len\":");
    var _ :- PutU32(w, len);
    var _ :- w.PutStr(",\"crc32c\":");
    var _ :- PutU32(w, crc);
    r := w.PutU8('}');
  }

  method PutState(w: Writer, id: nat, st: StateTag) returns (r: Result<(), HyperError>)
    requires w.Valid() && id < U32_LIMIT
    modifies w, w.out
    ensures Emitted(r, w, StateInto(old(w.Written()), id, st))
  {
    hide Decimal, TagText;
    var _ :- w.PutStr("{\"reply\":\"state\",\"vm_id\":");
    var _ :- PutU32(w, id);
    var _ :- w.PutStr(",\"state\":\"");
    var _ :- w.PutStr(TagText(st));
    r := w.PutU8('\"');
  }

  /** The whole encoder: the line, exactly when it fits. */
  method EncodeReply(reply: Reply, out: array<char>) returns (r: Result<nat, HyperError>)
    requires TypedReply(reply)
    modifies out
    ensures if |ReplyLine(reply)| <= out.Length
            then r == Ok(|ReplyLine(reply)|) && out[..r.value] == ReplyLine(reply)
            else r == Err(Exhausted)
  {
    hide ReplyInto;
    var w := new Writer(out);
    assert w.Written() == "";
    var _ :- EncodeBody(w, reply);
    var _ :- w.PutU8('\n');
    r := Ok(w.pos);
  }
}
