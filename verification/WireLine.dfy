/** What a finished reply line is: one JSON object and one newline, never longer than the
    transmit buffer, from which the host reads back the reply. */
module WireLine {
  import opened Wrappers
  import opened WireScan
  import opened WireGrammar
  import opened WireDocument
  import opened WireHost
  import opened WireReply
  import WireRequest
  import opened WireUnique

  const TX_CAP: nat := 2048

  /** A label or path as the decoder hands it over from a received line. */
  predicate LineText(s: string) { PlainText(s) && '\n' !in s }

  predicate EmittableRow(row: Row) {
    TypedRow(row) && |row.name| <= WireRequest.LABEL_MAX && LineText(row.name)
    && |row.imagePath| <= WireRequest.IMAGE_PATH_MAX && LineText(row.imagePath)
  }

  /** The replies the bridge builds. */
  predicate Emittable(r: Reply) {
    TypedReply(r) &&
    match r
    case ListedReply(rows) => |rows| == ROWS_MAX && forall k :: 0 <= k < |rows| && rows[k].Some? ==> EmittableRow(rows[k].value)
    case ErrorReply(m) => |m| <= ERROR_MSG_MAX
    case _ => true
  }

  // ----- the line as JSON ------------------------------------------------------------------

  function PathEntry(path: string): seq<Member> { if path == "" then [] else [Entry("image_path", Str(path))] }

  function RowMembers(row: Row): seq<Member> {
    [Entry("vm_id", Literal(Decimal(row.vmId))), Entry("label", Str(row.name)), Entry("state", Str(TagText(row.state)))]
    + OptNumEntry("last_exit", row.lastExit) + PathEntry(row.imagePath) + OptNumEntry("cpu_count", row.cpuCount)
    + OptNumEntry("memory_mib", row.memoryMib) + OptNumEntry("boot_blob_crc32c", row.bootCrc)
  }

  function RowJson(row: Row): Json { Obj("", RowMembers(row)) }

  function RowElems(rows: seq<Option<Row>>, k: nat): seq<Elem>
    requires k <= |rows|
    decreases |rows| - k
  {
    if k == |rows| then []
    else (if rows[k].None? then [] else [Elem("", RowJson(rows[k].value), "")]) + RowElems(rows, k + 1)
  }

  function TaggedMembers(tag: string, fields: seq<Member>): seq<Member> { [Entry("reply", Str(tag))] + fields }

  function ReplyMembers(r: Reply): seq<Member> {
    match r
    case CreatedReply(id) => TaggedMembers("created", NumEntry("vm_id", id))
    case StateReply(id, st, exit) =>
      TaggedMembers("state", NumEntry("vm_id", id) + [Entry("state", Str(TagText(st)))] + OptNumEntry("last_exit", exit))
    case DeletedReply(id) => TaggedMembers("deleted", NumEntry("vm_id", id))
    case ListedReply(rows) => TaggedMembers("listed", [Entry("rows", Arr("", RowElems(rows, 0)))])
    case ImageLoadedReply(len, crc) => TaggedMembers("image_loaded", NumEntry("len", len) + NumEntry("crc32c", crc))
    case ErrorReply(m) => TaggedMembers("error", [Entry("message", Str(EscapeMessage(m)))])
  }

  function ReplyJson(r: Reply): Json { Obj("", ReplyMembers(r)) }

  /** An object under construction: everything but the closing brace. */
  function Opened(t: string, ms: seq<Member>): string { t + "{" + MembersText(ms) }

  lemma {:induction false} MembersAppend(ms: seq<Member>, m: Member)
    requires ms != []
    ensures MembersText(ms + [m]) == MembersText(ms) + "," + MemberText(m)
  {
    hide MemberText;
    MembersTextHead(ms);
    MembersTextHead(ms + [m]);
    if |ms| == 1 {
      assert (ms + [m])[1..] == [m];
      MembersTextHead([m]);
    } else {
      assert (ms + [m])[1..] == ms[1..] + [m];
      MembersAppend(ms[1..], m);
    }
    hide MembersText;
  }

  lemma EntryText(key: string, v: Json)
    ensures MemberText(Entry(key, v)) == "\"" + key + "\":" + Text(v)
  {
    hide Text;
  }

  lemma OpenedAppend(t: string, ms: seq<Member>, key: string, v: Json)
    requires ms != []
    ensures Opened(t, ms + [Entry(key, v)]) == Opened(t, ms) + (",\"" + key + "\":") + Text(v)
  {
    hide MembersText, MemberText, Text;
    MembersAppend(ms, Entry(key, v));
    EntryText(key, v);
    CommaKey(t + "{", MembersText(ms), key, Text(v));
  }

  lemma CommaKey(t: string, body: string, key: string, value: string)
    ensures t + (body + "," + ("\"" + key + "\":" + value)) == t + body + (",\"" + key + "\":") + value
  {}

  lemma OptOpened(t: string, ms: seq<Member>, lead: string, key: string, n: Option<nat>)
    requires ms != [] && lead == ",\"" + key + "\":"
    ensures OptInto(Opened(t, ms), lead, n) == Opened(t, ms + OptNumEntry(key, n))
  {
    hide Opened, Decimal;
    match n
    case None => assert ms + [] == ms;
    case Some(v) => OpenedAppend(t, ms, key, Literal(Decimal(v)));
  }

  lemma PathOpened(t: string, ms: seq<Member>, path: string)
    requires ms != []
    ensures PathInto(Opened(t, ms), path) == Opened(t, ms + PathEntry(path))
  {
    hide Opened;
    if path == "" {
      assert ms + [] == ms;
    } else {
      OpenedAppend(t, ms, "image_path", Str(path));
      QuotedChunks(Opened(t, ms), ",\"image_path\":", path);
    }
  }

  lemma QuotedChunks(t: string, lead: string, s: string)
    ensures t + lead + Quoted(s) == t + (lead + "\"") + s + "\""
  {}

  lemma IdentityOpened(t: string, row: Row)
    ensures IdentityInto(t, row) == Opened(t, RowMembers(row)[..3])
  {
    hide Decimal, TagText, MembersText, Text;
    var a, b, c := Entry("vm_id", Literal(Decimal(row.vmId))), Entry("label", Str(row.name)), Entry("state", Str(TagText(row.state)));
    assert RowMembers(row)[..3] == [a] + [b] + [c];
    hide RowMembers, Entry, Quoted;
    StringAndNumberText(row);
    MembersTextHead([a]);
    EntryText("vm_id", a.value);
    OpenedAppend(t, [a], "label", b.value);
    OpenedAppend(t, [a] + [b], "state", c.value);
    IdentityChunks(t, Decimal(row.vmId), row.name, TagText(row.state));
  }

  lemma StringAndNumberText(row: Row)
    ensures Text(Literal(Decimal(row.vmId))) == Decimal(row.vmId)
    ensures Text(Str(row.name)) == Quoted(row.name) && Text(Str(TagText(row.state))) == Quoted(TagText(row.state))
  {}

  lemma IdentityChunks(t: string, id: string, name: string, tag: string)
    ensures t + "{\"vm_id\":" + id + ",\"label\":\"" + name + "\",\"state\":\"" + tag + "\""
         == t + "{" + ("\"vm_id\":" + id) + (",\"" + "label" + "\":") + Quoted(name) + (",\"" + "state" + "\":") + Quoted(tag)
  {}

  lemma RowIsJson(t: string, row: Row)
    ensures RowInto(t, row) == t + Text(RowJson(row))
  {
    hide IdentityInto, PathInto, OptInto, MembersText, PathEntry, OptNumEntry;
    var m0 := RowMembers(row)[..3];
    var m1 := m0 + OptNumEntry("last_exit", row.lastExit);
    var m2 := m1 + PathEntry(row.imagePath);
    var m3 := m2 + OptNumEntry("cpu_count", row.cpuCount);
    var m4 := m3 + OptNumEntry("memory_mib", row.memoryMib);
    IdentityOpened(t, row);
    OptOpened(t, m0, ",\"last_exit\":", "last_exit", row.lastExit);
    PathOpened(t, m1, row.imagePath);
    OptOpened(t, m2, ",\"cpu_count\":", "cpu_count", row.cpuCount);
    OptOpened(t, m3, ",\"memory_mib\":", "memory_mib", row.memoryMib);
    OptOpened(t, m4, ",\"boot_blob_crc32c\":", "boot_blob_crc32c", row.bootCrc);
    assert m4 + OptNumEntry("boot_blob_crc32c", row.bootCrc) == RowMembers(row);
    assert Text(RowJson(row)) == "{" + MembersText(RowMembers(row)) + "}";
    assert t + "{" + MembersText(RowMembers(row)) + "}" == t + ("{" + MembersText(RowMembers(row)) + "}");
  }

  lemma ElemsHead(es: seq<Elem>)
    requires es != [] && es[0].before == es[0].after == ""
    ensures ElemsText(es) == Text(es[0].value) + (if |es| == 1 then "" else "," + ElemsText(es[1..]))
  {
    hide Text;
    var e, t := es[0], Text(es[0].value);
    assert e.before + t + e.after == t;
  }

  lemma RowElemsHead(rows: seq<Option<Row>>, k: nat)
    requires k < |rows| && rows[k].Some?
    ensures var es := RowElems(rows, k + 1);
      ElemsText(RowElems(rows, k)) == Text(RowJson(rows[k].value)) + ((if es == [] then "" else ",") + ElemsText(es))
  {
    hide RowJson, Text;
    var all := RowElems(rows, k);
    assert all[1..] == RowElems(rows, k + 1);
    ElemsHead(all);
  }

  lemma Nest(t: string, c: string, x: string, sep: string, e: string)
    ensures t + c + x + sep + e == t + c + (x + (sep + e))
  {}

  lemma {:induction false} RowsAreJson(t: string, rows: seq<Option<Row>>, k: nat, first: bool)
    requires k <= |rows|
    ensures var es := RowElems(rows, k);
      RowsInto(t, rows, k, first) == t + (if first || es == [] then "" else ",") + ElemsText(es)
    decreases |rows| - k
  {
    hide RowInto, RowJson, Text, ElemsText;
    if k == |rows| {
      assert ElemsText([]) == "" by { NoElems(); }
      assert t + "" + "" == t;
    } else {
      var es := RowElems(rows, k + 1);
      if rows[k].None? {
        assert RowElems(rows, k) == es;
        RowsAreJson(t, rows, k + 1, first);
      } else {
        var row := rows[k].value;
        var u := if first then t else t + ",";
        RowIsJson(u, row);
        RowsAreJson(RowInto(u, row), rows, k + 1, false);
        RowElemsHead(rows, k);
        Nest(t, if first then "" else ",", Text(RowJson(row)), if es == [] then "" else ",", ElemsText(es));
        assert t + "" == t;
      }
    }
  }

  lemma NoElems()
    ensures ElemsText([]) == ""
  {}

  lemma TagOpened(tag: string)
    ensures Opened("", [Entry("reply", Str(tag))]) == "{\"reply\":\"" + tag + "\""
  {
    hide Text;
    MembersTextHead([Entry("reply", Str(tag))]);
    EntryText("reply", Str(tag));
    assert Text(Str(tag)) == Quoted(tag) by { StrText(tag); }
    hide MembersText;
    assert "{" + ("\"reply\":" + Quoted(tag)) == "{\"reply\":\"" + tag + "\"";
  }

  lemma StrText(s: string)
    ensures Text(Str(s)) == Quoted(s)
  {}

  /** One tag and one more field. */
  lemma OneField(tag: string, head: string, key: string, v: Json)
    requires head == "{\"reply\":\"" + tag + "\",\"" + key + "\":"
    ensures Opened("", TaggedMembers(tag, [Entry(key, v)])) == head + Text(v)
  {
    hide Opened, Text;
    TagOpened(tag);
    OpenedAppend("", [Entry("reply", Str(tag))], key, v);
    assert head == "{\"reply\":\"" + tag + "\"" + (",\"" + key + "\":");
  }

  lemma Closing(ms: seq<Member>)
    requires ms != []
    ensures Text(Obj("", ms)) == Opened("", ms) + "}"
  {}

  lemma OneNumber(tag: string, head: string, key: string, n: nat)
    requires head == "{\"reply\":\"" + tag + "\",\"" + key + "\":"
    ensures Opened("", TaggedMembers(tag, NumEntry(key, n))) == head + Decimal(n)
  {
    hide Opened, Text, Decimal;
    OneField(tag, head, key, Literal(Decimal(n)));
    LiteralShape(Literal(Decimal(n)));
  }

  lemma NumberAppend(ms: seq<Member>, lead: string, key: string, n: nat)
    requires ms != [] && lead == ",\"" + key + "\":"
    ensures Opened("", ms + NumEntry(key, n)) == Opened("", ms) + lead + Decimal(n)
  {
    hide Opened, Text, Decimal;
    OpenedAppend("", ms, key, Literal(Decimal(n)));
    LiteralShape(Literal(Decimal(n)));
  }

  lemma StateOpened(id: nat, st: StateTag)
    ensures StateInto("", id, st) == Opened("", TaggedMembers("state", NumEntry("vm_id", id) + [Entry("state", Str(TagText(st)))]))
  {
    hide Opened, Decimal, TagText, Text;
    var head := "{\"reply\":\"state\",\"vm_id\":";
    var m0 := TaggedMembers("state", NumEntry("vm_id", id));
    OneNumber("state", head, "vm_id", id);
    OpenedAppend("", m0, "state", Str(TagText(st)));
    StrText(TagText(st));
    assert m0 + [Entry("state", Str(TagText(st)))] == TaggedMembers("state", NumEntry("vm_id", id) + [Entry("state", Str(TagText(st)))]);
    StateChunks(head, Decimal(id), TagText(st));
  }

  lemma StateChunks(head: string, id: string, tag: string)
    ensures "" + head + id + ",\"state\":\"" + tag + "\"" == head + id + (",\"" + "state" + "\":") + Quoted(tag)
  {}

  lemma StateIsJson(id: nat, st: StateTag, exit: Option<nat>)
    ensures ReplyInto("", StateReply(id, st, exit)) == Text(ReplyJson(StateReply(id, st, exit)))
  {
    hide Opened, StateInto, Text, OptInto, OptNumEntry, NumEntry, TagText, Entry;
    var ms := TaggedMembers("state", NumEntry("vm_id", id) + [Entry("state", Str(TagText(st)))]);
    StateOpened(id, st);
    OptOpened("", ms, ",\"last_exit\":", "last_exit", exit);
    StateMembers(id, st, exit);
    Closing(ms + OptNumEntry("last_exit", exit));
  }

  lemma StateMembers(id: nat, st: StateTag, exit: Option<nat>)
    ensures TaggedMembers("state", NumEntry("vm_id", id) + [Entry("state", Str(TagText(st)))]) + OptNumEntry("last_exit", exit)
         == ReplyMembers(StateReply(id, st, exit))
  {
    hide OptNumEntry, NumEntry, TagText, Entry;
  }

  lemma ImageLoadedIsJson(len: nat, crc: nat)
    ensures ReplyInto("", ImageLoadedReply(len, crc)) == Text(ReplyJson(ImageLoadedReply(len, crc)))
  {
    hide Opened, Decimal, Text, NumEntry;
    var head := "{\"reply\":\"image_loaded\",\"len\":";
    var m0 := TaggedMembers("image_loaded", NumEntry("len", len));
    OneNumber("image_loaded", head, "len", len);
    NumberAppend(m0, ",\"crc32c\":", "crc32c", crc);
    var ms := m0 + NumEntry("crc32c", crc);
    assert ms == ReplyMembers(ImageLoadedReply(len, crc));
    Closing(ms);
    assert "" + head == head;
  }

  lemma ListedIsJson(rows: seq<Option<Row>>)
    ensures ReplyInto("", ListedReply(rows)) == Text(ReplyJson(ListedReply(rows)))
  {
    hide Opened, Text, RowsInto, ElemsText, RowElems;
    var head := "" + "{\"reply\":\"listed\",\"rows\":[";
    var es := RowElems(rows, 0);
    RowsAreJson(head, rows, 0, true);
    OneField("listed", "{\"reply\":\"listed\",\"rows\":", "rows", Arr("", es));
    ArrText(es);
    Closing(ReplyMembers(ListedReply(rows)));
    ListedChunks(ElemsText(es));
  }

  lemma ListedChunks(t: string)
    ensures "" + "{\"reply\":\"listed\",\"rows\":[" + "" + t + "]}" == "{\"reply\":\"listed\",\"rows\":" + ("[" + t + "]") + "}"
  {}

  lemma ArrText(es: seq<Elem>)
    ensures Text(Arr("", es)) == "[" + ElemsText(es) + "]"
  {}

  lemma VmIdIsJson(tag: string, head: string, id: nat)
    requires head == "{\"reply\":\"" + tag + "\",\"" + "vm_id" + "\":"
    ensures "" + head + Decimal(id) + "}" == Text(Obj("", TaggedMembers(tag, NumEntry("vm_id", id))))
  {
    hide Opened, Decimal, Text;
    OneField(tag, head, "vm_id", Literal(Decimal(id)));
    LiteralShape(Literal(Decimal(id)));
    Closing(TaggedMembers(tag, NumEntry("vm_id", id)));
    assert "" + head == head;
  }

  lemma ErrorIsJson(m: string)
    ensures ReplyInto("", ErrorReply(m)) == Text(ReplyJson(ErrorReply(m)))
  {
    hide Opened, EscapeMessage, Text;
    var e := EscapeMessage(m);
    OneField("error", "{\"reply\":\"error\",\"message\":", "message", Str(e));
    StrText(e);
    Closing(ReplyMembers(ErrorReply(m)));
    assert "" + "{\"reply\":\"error\",\"message\":\"" + e + "\"}" == "{\"reply\":\"error\",\"message\":" + ("\"" + e + "\"") + "}";
  }

  /** The hand-rolled printer prints JSON. */
  lemma LineIsJson(r: Reply)
    ensures ReplyLine(r) == Text(ReplyJson(r)) + "\n"
  {
    hide Text, Decimal, RowsInto, StateInto, OptInto, EscapeMessage, RowElems, OptNumEntry;
    match r
    case CreatedReply(id) => VmIdIsJson("created", "{\"reply\":\"created\",\"vm_id\":", id);
    case StateReply(id, st, exit) => StateIsJson(id, st, exit);
    case DeletedReply(id) => VmIdIsJson("deleted", "{\"reply\":\"deleted\",\"vm_id\":", id);
    case ListedReply(rows) => ListedIsJson(rows);
    case ImageLoadedReply(len, crc) => ImageLoadedIsJson(len, crc);
    case ErrorReply(m) => ErrorIsJson(m);
  }

  // ----- length -----------------------------------------------------------------------------

  const WORST_LINE: nat := 1372
  const WORST_ROW: nat := 335

  lemma OptLength(t: string, lead: string, n: Option<nat>, width: nat)
    requires width > 0 && OptFits(n, Pow10(width))
    ensures |t| <= |OptInto(t, lead, n)| <= |t| + |lead| + width
  {
    if n.Some? { DecimalWidth(n.value, width); }
  }

  lemma RowLength(t: string, row: Row)
    requires EmittableRow(row)
    ensures |RowInto(t, row)| <= |t| + WORST_ROW
  {
    hide Pow10, Decimal, OptInto;
    Widths();
    DecimalWidth(row.vmId, 10);
    var a := IdentityInto(t, row);
    var b := OptInto(a, ",\"last_exit\":", row.lastExit);
    var c := PathInto(b, row.imagePath);
    var d := OptInto(c, ",\"cpu_count\":", row.cpuCount);
    var e := OptInto(d, ",\"memory_mib\":", row.memoryMib);
    OptLength(a, ",\"last_exit\":", row.lastExit, 10);
    OptLength(c, ",\"cpu_count\":", row.cpuCount, 10);
    OptLength(d, ",\"memory_mib\":", row.memoryMib, 20);
    OptLength(e, ",\"boot_blob_crc32c\":", row.bootCrc, 10);
  }

  lemma {:induction false} RowsLength(t: string, rows: seq<Option<Row>>, k: nat, first: bool)
    requires k <= |rows| && forall j :: 0 <= j < |rows| && rows[j].Some? ==> EmittableRow(rows[j].value)
    ensures |RowsInto(t, rows, k, first)| <= |t| + (WORST_ROW + 1) * (|rows| - k) - (if first && k < |rows| then 1 else 0)
    decreases |rows| - k
  {
    hide RowInto;
    if k < |rows| {
      if rows[k].None? {
        RowsLength(t, rows, k + 1, first);
      } else {
        var u := if first then t else t + ",";
        RowLength(u, rows[k].value);
        RowsLength(RowInto(u, rows[k].value), rows, k + 1, false);
      }
    }
  }

  lemma {:induction false} MessageLength(m: string)
    ensures |EscapeMessage(m)| <= 2 * |m|
  {
    if m != "" { MessageLength(m[1..]); }
  }

  /** Every reply of the bridge fits, so encoding never fails. */
  lemma LineFits(r: Reply)
    requires Emittable(r)
    ensures |ReplyLine(r)| <= WORST_LINE < TX_CAP
  {
    hide Pow10, Decimal, OptInto, RowsInto;
    Widths();
    match r
    case CreatedReply(id) => DecimalWidth(id, 10);
    case StateReply(id, st, exit) =>
      DecimalWidth(id, 10);
      OptLength(StateInto("", id, st), ",\"last_exit\":", exit, 10);
    case DeletedReply(id) => DecimalWidth(id, 10);
    case ListedReply(rows) => RowsLength("" + "{\"reply\":\"listed\",\"rows\":[", rows, 0, true);
    case ImageLoadedReply(len, crc) => DecimalWidth(len, 10); DecimalWidth(crc, 10);
    case ErrorReply(m) => MessageLength(m);
  }

  lemma {:induction false} DecimalWidthAtLeast(n: nat, k: nat)
    requires k > 0 && n >= Pow10(k - 1)
    ensures |Decimal(n)| >= k
  {
    if k > 1 {
      DecimalWidthAtLeast(n / 10, k - 1);
    }
  }

  /** The bound is met: four full rows. */
  lemma FullNumbers()
    ensures |Decimal(U32_LIMIT - 1)| == 10 && |Decimal(U64_LIMIT - 1)| == 20
  {
    Widths();
    TopWidths();
    hide Decimal, Pow10;
    DecimalWidth(U32_LIMIT - 1, 10);
    DecimalWidth(U64_LIMIT - 1, 20);
    DecimalWidthAtLeast(U32_LIMIT - 1, 10);
    DecimalWidthAtLeast(U64_LIMIT - 1, 20);
  }

  lemma WorstLineReached() returns (r: Reply)
    ensures Emittable(r) && |ReplyLine(r)| == WORST_LINE
  {
    var top32, top64 := U32_LIMIT - 1, U64_LIMIT - 1;
    var name, path := seq(WireRequest.LABEL_MAX, _ => 'x'), seq(WireRequest.IMAGE_PATH_MAX, _ => 'x');
    var row := Row(top32, name, Created, Some(top32), path, Some(top32), Some(top64), Some(top32));
    r := ListedReply([Some(row), Some(row), Some(row), Some(row)]);
    FullNumbers();
    hide Decimal;
    assert LineText(name) && LineText(path);
    assert IsFullRow(row) && EmittableRow(row);
    hide IsFullRow, EmittableRow, RowsInto, RowInto;
    FullRow("" + "{\"reply\":\"listed\",\"rows\":[", row);
    FourRows("" + "{\"reply\":\"listed\",\"rows\":[", row);
  }

  lemma TopWidths()
    ensures Pow10(9) <= U32_LIMIT - 1 && Pow10(19) <= U64_LIMIT - 1
  {
    assert Pow10(5) == 100000;
    assert Pow10(9) == 1000000000;
    assert Pow10(14) == 100000000000000;
    assert Pow10(19) == 10000000000000000000;
  }

  predicate IsFullRow(row: Row) {
    |Decimal(row.vmId)| == 10 && |row.name| == 32 && |row.imagePath| == 128 && |TagText(row.state)| == 7
    && row.lastExit.Some? && |Decimal(row.lastExit.value)| == 10 && row.cpuCount.Some? && |Decimal(row.cpuCount.value)| == 10
    && row.memoryMib.Some? && |Decimal(row.memoryMib.value)| == 20 && row.bootCrc.Some? && |Decimal(row.bootCrc.value)| == 10
  }

  lemma FullRow(t: string, row: Row)
    requires IsFullRow(row)
    ensures |RowInto(t, row)| == |t| + WORST_ROW
  {
    hide Decimal;
  }

  lemma FourRows(t: string, row: Row)
    requires IsFullRow(row)
    ensures |RowsInto(t, [Some(row), Some(row), Some(row), Some(row)], 0, true)| == |t| + 4 * WORST_ROW + 3
  {
    hide RowInto, IsFullRow;
    var rows := [Some(row), Some(row), Some(row), Some(row)];
    var t1 := RowInto(t, row);
    var t2 := RowInto(t1 + ",", row);
    var t3 := RowInto(t2 + ",", row);
    var t4 := RowInto(t3 + ",", row);
    FullRow(t, row);
    FullRow(t1 + ",", row);
    FullRow(t2 + ",", row);
    FullRow(t3 + ",", row);
    assert RowsInto(t4, rows, 4, false) == t4;
    assert RowsInto(t3, rows, 3, false) == t4;
    assert RowsInto(t2, rows, 2, false) == t4;
    assert RowsInto(t1, rows, 1, false) == t4;
  }

  // ----- framing ------------------------------------------------------------------------------

  lemma OptOneLine(t: string, lead: string, n: Option<nat>)
    requires '\n' !in t && '\n' !in lead
    ensures '\n' !in OptInto(t, lead, n)
  {}

  lemma RowOneLine(t: string, row: Row)
    requires EmittableRow(row) && '\n' !in t
    ensures '\n' !in RowInto(t, row)
  {
    hide Decimal, OptInto, IdentityInto, PathInto, PlainText, TypedRow;
    var a := IdentityInto(t, row);
    IdentityOneLine(t, row);
    var b := OptInto(a, ",\"last_exit\":", row.lastExit);
    OptOneLine(a, ",\"last_exit\":", row.lastExit);
    var c := PathInto(b, row.imagePath);
    PathOneLine(b, row.imagePath);
    var d := OptInto(c, ",\"cpu_count\":", row.cpuCount);
    OptOneLine(c, ",\"cpu_count\":", row.cpuCount);
    var e := OptInto(d, ",\"memory_mib\":", row.memoryMib);
    OptOneLine(d, ",\"memory_mib\":", row.memoryMib);
    OptOneLine(e, ",\"boot_blob_crc32c\":", row.bootCrc);
  }

  lemma IdentityOneLine(t: string, row: Row)
    requires '\n' !in t && '\n' !in row.name
    ensures '\n' !in IdentityInto(t, row)
  {
    hide Decimal;
    DigitsOneLine(row.vmId);
    assert '\n' !in TagText(row.state);
    hide TagText;
  }

  lemma PathOneLine(t: string, path: string)
    requires '\n' !in t && '\n' !in path
    ensures '\n' !in PathInto(t, path)
  {}

  lemma DigitsOneLine(n: nat)
    ensures '\n' !in Decimal(n)
  {}

  lemma {:induction false} RowsOneLine(t: string, rows: seq<Option<Row>>, k: nat, first: bool)
    requires k <= |rows| && '\n' !in t
    requires forall j :: 0 <= j < |rows| && rows[j].Some? ==> EmittableRow(rows[j].value)
    ensures '\n' !in RowsInto(t, rows, k, first)
    decreases |rows| - k
  {
    hide RowInto;
    if k < |rows| {
      if rows[k].None? {
        RowsOneLine(t, rows, k + 1, first);
      } else {
        var u := if first then t else t + ",";
        RowOneLine(u, rows[k].value);
        RowsOneLine(RowInto(u, rows[k].value), rows, k + 1, false);
      }
    }
  }

  lemma {:induction false} MessageOneLine(m: string)
    ensures '\n' !in EscapeMessage(m)
  {
    if m != "" { MessageOneLine(m[1..]); }
  }

  lemma Glue(a: string, b: string, c: string)
    requires '\n' !in a && '\n' !in b && '\n' !in c
    ensures '\n' !in a + b + c
  {}

  lemma BodyOneLine(r: Reply)
    requires Emittable(r)
    ensures '\n' !in ReplyInto("", r)
  {
    hide Decimal, OptInto, RowsInto, EscapeMessage, StateInto;
    match r
    case CreatedReply(id) =>
      DigitsOneLine(id);
      Glue("" + "{\"reply\":\"created\",\"vm_id\":", Decimal(id), "}");
    case StateReply(id, st, exit) =>
      StateOneLine(id, st);
      OptOneLine(StateInto("", id, st), ",\"last_exit\":", exit);
    case DeletedReply(id) =>
      DigitsOneLine(id);
      Glue("" + "{\"reply\":\"deleted\",\"vm_id\":", Decimal(id), "}");
    case ListedReply(rows) =>
      RowsOneLine("" + "{\"reply\":\"listed\",\"rows\":[", rows, 0, true);
    case ImageLoadedReply(len, crc) =>
      DigitsOneLine(len);
      DigitsOneLine(crc);
      Glue("" + "{\"reply\":\"image_loaded\",\"len\":", Decimal(len), ",\"crc32c\":");
      Glue("" + "{\"reply\":\"image_loaded\",\"len\":" + Decimal(len) + ",\"crc32c\":", Decimal(crc), "}");
    case ErrorReply(m) =>
      MessageOneLine(m);
      Glue("" + "{\"reply\":\"error\",\"message\":\"", EscapeMessage(m), "\"}");
  }

  lemma StateOneLine(id: nat, st: StateTag)
    ensures '\n' !in StateInto("", id, st)
  {
    hide Decimal;
    DigitsOneLine(id);
    Glue("" + "{\"reply\":\"state\",\"vm_id\":", Decimal(id), ",\"state\":\"");
    Glue("" + "{\"reply\":\"state\",\"vm_id\":" + Decimal(id) + ",\"state\":\"", TagText(st), "\"");
  }

  /** One line per reply: the only newline is the last byte. */
  lemma OneLine(r: Reply)
    requires Emittable(r)
    ensures var line := ReplyLine(r);
      line != "" && line[|line| - 1] == '\n' && forall k :: 0 <= k < |line| - 1 ==> line[k] != '\n'
  {
    BodyOneLine(r);
    hide ReplyInto;
    var body := ReplyInto("", r);
    forall k | 0 <= k < |body|
      ensures (body + "\n")[k] != '\n'
    {
      assert (body + "\n")[k] == body[k];
    }
  }
}
