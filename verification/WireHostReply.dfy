/** The host's side of a reply: reading the fields of the object by name. */
module WireHostReply {
  import opened Wrappers
  import opened WireScan
  import opened WireGrammar
  import opened WireDocument
  import opened WireHost
  import opened WireReply
  import opened WireUnique
  import opened WireLine

  /** The fields of a reply or of a row, as far as they were met. */
  datatype View = View(tag: Option<string>, vmId: Option<nat>, name: Option<string>, state: Option<string>,
                       lastExit: Option<nat>, imagePath: Option<string>, cpuCount: Option<nat>, memoryMib: Option<nat>,
                       bootCrc: Option<nat>, len: Option<nat>, crc: Option<nat>, message: Option<string>, rows: Option<seq<Elem>>)

  const BLANK: View := View(None, None, None, None, None, None, None, None, None, None, None, None, None)

  /** Undoes the two escapes the kernel uses. */
  function Unescape(s: string): string {
    if s == "" then ""
    else if s[0] == '\\' && |s| >= 2 then [s[1]] + Unescape(s[2..])
    else [s[0]] + Unescape(s[1..])
  }

  function StringOf(v: Json): Option<string> { if v.Str? then Some(Unescape(v.chars)) else None }

  function Learn(key: string, v: Json, w: View): View {
    if key == "reply" then w.(tag := StringOf(v))
    else if key == "vm_id" then w.(vmId := OptionalNumeral(v))
    else if key == "label" then w.(name := StringOf(v))
    else if key == "state" then w.(state := StringOf(v))
    else if key == "last_exit" then w.(lastExit := OptionalNumeral(v))
    else if key == "image_path" then w.(imagePath := StringOf(v))
    else if key == "cpu_count" then w.(cpuCount := OptionalNumeral(v))
    else if key == "memory_mib" then w.(memoryMib := OptionalNumeral(v))
    else if key == "boot_blob_crc32c" then w.(bootCrc := OptionalNumeral(v))
    else if key == "len" then w.(len := OptionalNumeral(v))
    else if key == "crc32c" then w.(crc := OptionalNumeral(v))
    else if key == "message" then w.(message := StringOf(v))
    else if key == "rows" then w.(rows := if v.Arr? then Some(v.elems) else None)
    else w
  }

  function LearnAll(ms: seq<Member>, w: View): View {
    if ms == [] then w else LearnAll(ms[1..], Learn(ms[0].key, ms[0].value, w))
  }

  function TagOf(s: string): Option<StateTag> {
    if s == "created" then Some(Created)
    else if s == "running" then Some(Running)
    else if s == "halted" then Some(Halted)
    else if s == "stopped" then Some(Stopped)
    else if s == "faulted" then Some(Faulted)
    else None
  }

  function RowOf(v: Json): Option<Row> {
    if !v.Obj? then None
    else
      var w := LearnAll(v.members, BLANK);
      if w.vmId.None? || w.name.None? || w.state.None? || TagOf(w.state.value).None? then None
      else
        var path := if w.imagePath.Some? then w.imagePath.value else "";
        Some(Row(w.vmId.value, w.name.value, TagOf(w.state.value).value, w.lastExit, path, w.cpuCount, w.memoryMib, w.bootCrc))
  }

  function RowsOf(es: seq<Elem>): seq<Option<Row>> {
    if es == [] then [] else [RowOf(es[0].value)] + RowsOf(es[1..])
  }

  function HostView(v: Json): Option<Reply> {
    if !v.Obj? then None
    else
      var w := LearnAll(v.members, BLANK);
      if w.tag == Some("created") && w.vmId.Some? then Some(CreatedReply(w.vmId.value))
      else if w.tag == Some("state") && w.vmId.Some? && w.state.Some? && TagOf(w.state.value).Some? then
        Some(StateReply(w.vmId.value, TagOf(w.state.value).value, w.lastExit))
      else if w.tag == Some("deleted") && w.vmId.Some? then Some(DeletedReply(w.vmId.value))
      else if w.tag == Some("listed") && w.rows.Some? then Some(ListedReply(RowsOf(w.rows.value)))
      else if w.tag == Some("image_loaded") && w.len.Some? && w.crc.Some? then Some(ImageLoadedReply(w.len.value, w.crc.value))
      else if w.tag == Some("error") && w.message.Some? then Some(ErrorReply(w.message.value))
      else None
  }

  // ----- what of a reply crosses the wire -----------------------------------------------------

  function Present(rows: seq<Option<Row>>, k: nat): seq<Option<Row>>
    requires k <= |rows|
    decreases |rows| - k
  {
    if k == |rows| then [] else (if rows[k].None? then [] else [rows[k]]) + Present(rows, k + 1)
  }

  function Audible(m: string): string {
    if m == "" then "" else (if m[0] < ' ' then "" else [m[0]]) + Audible(m[1..])
  }

  /** Slots without a VM are not listed; control bytes of a message are dropped. */
  function Seen(r: Reply): Reply {
    match r
    case ListedReply(rows) => ListedReply(Present(rows, 0))
    case ErrorReply(m) => ErrorReply(Audible(m))
    case _ => r
  }

  // ----- strings --------------------------------------------------------------------------------

  lemma {:induction false} PlainIsClosed(s: string)
    requires PlainText(s)
    ensures Closed(s) && Unescape(s) == s
  {
    if s != "" {
      PlainIsClosed(s[1..]);
      assert s == [s[0]] + s[1..];
    }
  }

  lemma ByteIsClosed(c: char, rest: string)
    requires Closed(rest)
    ensures Closed(EscapeByte(c) + rest)
    ensures Unescape(EscapeByte(c) + rest) == (if c < ' ' then "" else [c]) + Unescape(rest)
  {
    var e := EscapeByte(c) + rest;
    if c < ' ' {
      assert e == rest && "" + Unescape(rest) == Unescape(rest);
    } else if |EscapeByte(c)| == 2 {
      assert e[0] == '\\' && e[1] == c && e[2..] == rest;
    } else {
      assert e[0] == c && e[1..] == rest;
    }
  }

  lemma {:induction false} MessageIsClosed(m: string)
    ensures Closed(EscapeMessage(m)) && Unescape(EscapeMessage(m)) == Audible(m)
  {
    hide EscapeByte;
    if m != "" {
      MessageIsClosed(m[1..]);
      ByteIsClosed(m[0], EscapeMessage(m[1..]));
    }
  }

  lemma TagIsPlain(t: StateTag)
    ensures PlainText(TagText(t)) && TagOf(TagText(t)) == Some(t)
  {}

  // ----- reading fields ---------------------------------------------------------------------------

  lemma {:induction false} LearnConcat(a: seq<Member>, b: seq<Member>, w: View)
    ensures LearnAll(a + b, w) == LearnAll(b, LearnAll(a, w))
  {
    hide Learn;
    if a == [] {
      assert a + b == b;
    } else {
      assert (a + b)[1..] == a[1..] + b;
      LearnConcat(a[1..], b, Learn(a[0].key, a[0].value, w));
    }
  }

  lemma LearnOne(m: Member, w: View)
    ensures LearnAll([m], w) == Learn(m.key, m.value, w)
  {
    hide Learn;
    var s := Learn(m.key, m.value, w);
    assert [m][1..] == [];
    assert LearnAll([], s) == s;
  }

  lemma LearnNumber(key: string, n: nat, w: View)
    ensures LearnAll(NumEntry(key, n), w) == Learn(key, Literal(Decimal(n)), w)
    ensures OptionalNumeral(Literal(Decimal(n))) == Some(n)
  {
    hide Learn, Decimal, OptionalNumeral;
    DecimalIsNumeral(n);
    LearnOne(Entry(key, Literal(Decimal(n))), w);
  }

  /** An optional number is learnt when it is there, and was absent before otherwise. */
  lemma LearnOptional(key: string, n: Option<nat>, w: View)
    ensures n.None? ==> LearnAll(OptNumEntry(key, n), w) == w
    ensures n.Some? ==> LearnAll(OptNumEntry(key, n), w) == Learn(key, Literal(Decimal(n.value)), w)
    ensures n.Some? ==> OptionalNumeral(Literal(Decimal(n.value))) == n
  {
    hide Learn, Decimal, OptionalNumeral;
    if n.Some? { LearnNumber(key, n.value, w); }
  }

  lemma LearnIdentity(row: Row)
    requires PlainText(row.name)
    ensures LearnAll(RowMembers(row)[..3], BLANK)
         == BLANK.(vmId := Some(row.vmId), name := Some(row.name), state := Some(TagText(row.state)))
  {
    hide Decimal, TagText, OptionalNumeral;
    var a, b, c := NumEntry("vm_id", row.vmId), Entry("label", Str(row.name)), Entry("state", Str(TagText(row.state)));
    assert RowMembers(row)[..3] == a + [b] + [c];
    var w1 := BLANK.(vmId := Some(row.vmId));
    var w2 := w1.(name := Some(row.name));
    LearnNumber("vm_id", row.vmId, BLANK);
    LearnConcat(a + [b], [c], BLANK);
    LearnConcat(a, [b], BLANK);
    LearnOne(b, w1);
    LearnOne(c, w2);
    PlainIsClosed(row.name);
    TagIsPlain(row.state);
    PlainIsClosed(TagText(row.state));
    hide LearnAll, Unescape;
  }

  lemma LearnPath(path: string, w: View)
    requires PlainText(path) && w.imagePath == None
    ensures LearnAll(PathEntry(path), w) == w.(imagePath := if path == "" then None else Some(path))
  {
    if path != "" {
      LearnOne(Entry("image_path", Str(path)), w);
      PlainIsClosed(path);
    }
  }

  function RowView(row: Row): View {
    BLANK.(vmId := Some(row.vmId), name := Some(row.name), state := Some(TagText(row.state)), lastExit := row.lastExit,
           imagePath := if row.imagePath == "" then None else Some(row.imagePath), cpuCount := row.cpuCount,
           memoryMib := row.memoryMib, bootCrc := row.bootCrc)
  }

  lemma LearnRow(row: Row)
    requires PlainText(row.name) && PlainText(row.imagePath)
    ensures LearnAll(RowMembers(row), BLANK) == RowView(row)
  {
    hide LearnAll, PathEntry, OptNumEntry, Decimal, TagText, OptionalNumeral, PlainText;
    var m0, m1 := RowMembers(row)[..3], OptNumEntry("last_exit", row.lastExit);
    var m2, m3 := PathEntry(row.imagePath), OptNumEntry("cpu_count", row.cpuCount);
    var m4, m5 := OptNumEntry("memory_mib", row.memoryMib), OptNumEntry("boot_blob_crc32c", row.bootCrc);
    assert RowMembers(row) == m0 + m1 + m2 + m3 + m4 + m5;
    LearnIdentity(row);
    var w0 := BLANK.(vmId := Some(row.vmId), name := Some(row.name), state := Some(TagText(row.state)));
    hide RowMembers;
    var w1 := w0.(lastExit := row.lastExit);
    var w2 := w1.(imagePath := if row.imagePath == "" then None else Some(row.imagePath));
    var w3 := w2.(cpuCount := row.cpuCount);
    var w4 := w3.(memoryMib := row.memoryMib);
    LearnOptional("last_exit", row.lastExit, w0);
    LearnPath(row.imagePath, w1);
    LearnOptional("cpu_count", row.cpuCount, w2);
    LearnOptional("memory_mib", row.memoryMib, w3);
    LearnOptional("boot_blob_crc32c", row.bootCrc, w4);
    LearnConcat(m0, m1, BLANK);
    LearnConcat(m0 + m1, m2, BLANK);
    LearnConcat(m0 + m1 + m2, m3, BLANK);
    LearnConcat(m0 + m1 + m2 + m3, m4, BLANK);
    LearnConcat(m0 + m1 + m2 + m3 + m4, m5, BLANK);
  }

  lemma RowReadBack(row: Row)
    requires PlainText(row.name) && PlainText(row.imagePath)
    ensures RowOf(RowJson(row)) == Some(row)
  {
    LearnRow(row);
    TagIsPlain(row.state);
    hide LearnAll, RowMembers, TagText, TagOf;
  }

  lemma RowsOfHead(e: Elem, es: seq<Elem>)
    ensures RowsOf([e] + es) == [RowOf(e.value)] + RowsOf(es) && RowsOf([]) == []
  {
    hide RowOf;
    assert ([e] + es)[1..] == es;
  }

  lemma RowsUnfold(rows: seq<Option<Row>>, k: nat)
    requires k < |rows|
    ensures if rows[k].None? then RowElems(rows, k) == RowElems(rows, k + 1) && Present(rows, k) == Present(rows, k + 1)
            else && RowElems(rows, k) == [Elem("", RowJson(rows[k].value), "")] + RowElems(rows, k + 1)
                 && Present(rows, k) == [rows[k]] + Present(rows, k + 1)
  {
    hide RowJson;
    if rows[k].None? {
      assert [] + RowElems(rows, k + 1) == RowElems(rows, k + 1) && [] + Present(rows, k + 1) == Present(rows, k + 1);
    }
  }

  lemma {:induction false} RowsReadBack(rows: seq<Option<Row>>, k: nat)
    requires k <= |rows|
    requires forall j :: 0 <= j < |rows| && rows[j].Some? ==> PlainText(rows[j].value.name) && PlainText(rows[j].value.imagePath)
    ensures RowsOf(RowElems(rows, k)) == Present(rows, k)
    decreases |rows| - k
  {
    hide RowJson, RowOf, PlainText;
    if k < |rows| {
      hide RowsOf, RowElems, Present;
      RowsReadBack(rows, k + 1);
      RowsUnfold(rows, k);
      if rows[k].Some? {
        RowReadBack(rows[k].value);
        RowsOfHead(Elem("", RowJson(rows[k].value), ""), RowElems(rows, k + 1));
      }
    }
  }

  lemma LearnTag(tag: string, fields: seq<Member>)
    requires PlainText(tag)
    ensures LearnAll(TaggedMembers(tag, fields), BLANK) == LearnAll(fields, BLANK.(tag := Some(tag)))
  {
    var m := Entry("reply", Str(tag));
    LearnConcat([m], fields, BLANK);
    LearnOne(m, BLANK);
    PlainIsClosed(tag);
    hide LearnAll, Unescape;
  }

  lemma StateReadBack(id: nat, st: StateTag, exit: Option<nat>)
    ensures LearnAll(ReplyMembers(StateReply(id, st, exit)), BLANK)
         == BLANK.(tag := Some("state"), vmId := Some(id), state := Some(TagText(st)), lastExit := exit)
  {
    hide LearnAll, Decimal, TagText, OptionalNumeral, OptNumEntry, Unescape;
    var a, b, c := NumEntry("vm_id", id), [Entry("state", Str(TagText(st)))], OptNumEntry("last_exit", exit);
    LearnTag("state", a + b + c);
    var w0 := BLANK.(tag := Some("state"));
    var w1 := w0.(vmId := Some(id));
    var w2 := w1.(state := Some(TagText(st)));
    LearnNumber("vm_id", id, w0);
    LearnOne(b[0], w1);
    TagIsPlain(st);
    PlainIsClosed(TagText(st));
    LearnOptional("last_exit", exit, w2);
    LearnConcat(a, b, w0);
    LearnConcat(a + b, c, w0);
  }

  lemma LoadedReadBack(len: nat, crc: nat)
    ensures LearnAll(ReplyMembers(ImageLoadedReply(len, crc)), BLANK)
         == BLANK.(tag := Some("image_loaded"), len := Some(len), crc := Some(crc))
  {
    hide LearnAll, Decimal, OptionalNumeral;
    var a, b := NumEntry("len", len), NumEntry("crc32c", crc);
    LearnTag("image_loaded", a + b);
    var w0 := BLANK.(tag := Some("image_loaded"));
    LearnNumber("len", len, w0);
    LearnNumber("crc32c", crc, w0.(len := Some(len)));
    LearnConcat(a, b, w0);
  }

  lemma ListedReadBack(rows: seq<Option<Row>>)
    ensures LearnAll(ReplyMembers(ListedReply(rows)), BLANK) == BLANK.(tag := Some("listed"), rows := Some(RowElems(rows, 0)))
  {
    hide LearnAll, RowElems;
    var m := Entry("rows", Arr("", RowElems(rows, 0)));
    LearnTag("listed", [m]);
    LearnOne(m, BLANK.(tag := Some("listed")));
  }

  lemma ErrorReadBack(m: string)
    ensures LearnAll(ReplyMembers(ErrorReply(m)), BLANK) == BLANK.(tag := Some("error"), message := Some(Audible(m)))
  {
    hide LearnAll, EscapeMessage, Audible, Unescape;
    var e := Entry("message", Str(EscapeMessage(m)));
    LearnTag("error", [e]);
    LearnOne(e, BLANK.(tag := Some("error")));
    MessageIsClosed(m);
  }

  lemma VmIdReadBack(tag: string, id: nat)
    requires PlainText(tag)
    ensures LearnAll(TaggedMembers(tag, NumEntry("vm_id", id)), BLANK) == BLANK.(tag := Some(tag), vmId := Some(id))
  {
    hide LearnAll, Decimal, OptionalNumeral;
    LearnTag(tag, NumEntry("vm_id", id));
    LearnNumber("vm_id", id, BLANK.(tag := Some(tag)));
  }

  lemma ReadBack(r: Reply)
    requires Emittable(r)
    ensures HostView(ReplyJson(r)) == Some(Seen(r))
  {
    hide LearnAll, Decimal, NumEntry, Audible, RowsOf, RowElems, Present, EscapeMessage;
    match r
    case CreatedReply(id) => VmIdReadBack("created", id);
    case StateReply(id, st, exit) => StateReadBack(id, st, exit); TagIsPlain(st);
      hide TagText, TagOf;
    case DeletedReply(id) => VmIdReadBack("deleted", id);
    case ListedReply(rows) => ListedReadBack(rows); RowsReadBack(rows, 0);
    case ImageLoadedReply(len, crc) => LoadedReadBack(len, crc);
    case ErrorReply(m) => ErrorReadBack(m);
  }

  // ----- the printed object in the grammar ---------------------------------------------------------

  ghost predicate AllLaid(ms: seq<Member>) { forall m :: m in ms ==> LaidMember(m) }

  lemma NumberLaid(key: string, n: nat)
    requires PlainText(key)
    ensures AllLaid(NumEntry(key, n))
  {
    PlainIsClosed(key);
    assert LiteralText(Decimal(n));
  }

  lemma OptionalLaid(key: string, n: Option<nat>)
    requires PlainText(key)
    ensures AllLaid(OptNumEntry(key, n))
  {
    if n.Some? { NumberLaid(key, n.value); }
  }

  lemma StringLaid(key: string, s: string)
    requires PlainText(key) && Closed(s)
    ensures AllLaid([Entry(key, Str(s))])
  {
    PlainIsClosed(key);
  }

  lemma LaidConcat(a: seq<Member>, b: seq<Member>)
    requires AllLaid(a) && AllLaid(b)
    ensures AllLaid(a + b)
  {
    hide LaidMember;
  }

  lemma IdentityLaid(row: Row)
    requires PlainText(row.name)
    ensures AllLaid(RowMembers(row)[..3])
  {
    hide Decimal, TagText, Closed;
    NumberLaid("vm_id", row.vmId);
    var a, b, c := NumEntry("vm_id", row.vmId), Entry("label", Str(row.name)), Entry("state", Str(TagText(row.state)));
    assert RowMembers(row)[..3] == a + [b] + [c];
    PlainIsClosed(row.name);
    TagIsPlain(row.state);
    PlainIsClosed(TagText(row.state));
    StringLaid("label", row.name);
    StringLaid("state", TagText(row.state));
    LaidConcat(a, [b]);
    LaidConcat(a + [b], [c]);
  }

  lemma RowLaid(row: Row)
    requires PlainText(row.name) && PlainText(row.imagePath)
    ensures Laid(RowJson(row))
  {
    hide AllLaid, PathEntry, OptNumEntry;
    var m0, m1 := RowMembers(row)[..3], OptNumEntry("last_exit", row.lastExit);
    var m2, m3 := PathEntry(row.imagePath), OptNumEntry("cpu_count", row.cpuCount);
    var m4, m5 := OptNumEntry("memory_mib", row.memoryMib), OptNumEntry("boot_blob_crc32c", row.bootCrc);
    assert RowMembers(row) == m0 + m1 + m2 + m3 + m4 + m5;
    IdentityLaid(row);
    hide RowMembers;
    OptionalLaid("last_exit", row.lastExit);
    PathLaid(row.imagePath);
    OptionalLaid("cpu_count", row.cpuCount);
    OptionalLaid("memory_mib", row.memoryMib);
    OptionalLaid("boot_blob_crc32c", row.bootCrc);
    LaidConcat(m0, m1);
    LaidConcat(m0 + m1, m2);
    LaidConcat(m0 + m1 + m2, m3);
    LaidConcat(m0 + m1 + m2 + m3, m4);
    LaidConcat(m0 + m1 + m2 + m3 + m4, m5);
    ObjLaid(RowMembers(row));
  }

  lemma PathLaid(path: string)
    requires PlainText(path)
    ensures AllLaid(PathEntry(path))
  {
    PlainIsClosed(path);
    StringLaid("image_path", path);
  }

  lemma ObjLaid(ms: seq<Member>)
    requires AllLaid(ms)
    ensures Laid(Obj("", ms))
  {}

  lemma {:induction false} RowElemsLaid(rows: seq<Option<Row>>, k: nat)
    requires k <= |rows|
    requires forall j :: 0 <= j < |rows| && rows[j].Some? ==> PlainText(rows[j].value.name) && PlainText(rows[j].value.imagePath)
    ensures forall e :: e in RowElems(rows, k) ==> LaidElem(e)
    decreases |rows| - k
  {
    hide RowJson, PlainText;
    if k < |rows| {
      RowElemsLaid(rows, k + 1);
      if rows[k].Some? { RowLaid(rows[k].value); }
    }
  }

  lemma TaggedLaid(tag: string, fields: seq<Member>)
    requires PlainText(tag) && AllLaid(fields)
    ensures Laid(Obj("", TaggedMembers(tag, fields)))
  {
    PlainIsClosed(tag);
    StringLaid("reply", tag);
    LaidConcat([Entry("reply", Str(tag))], fields);
    ObjLaid(TaggedMembers(tag, fields));
  }

  lemma StateLaid(id: nat, st: StateTag, exit: Option<nat>)
    ensures Laid(ReplyJson(StateReply(id, st, exit)))
  {
    hide AllLaid, Laid, Decimal, TagText, NumEntry, OptNumEntry;
    var a, b, c := NumEntry("vm_id", id), [Entry("state", Str(TagText(st)))], OptNumEntry("last_exit", exit);
    NumberLaid("vm_id", id);
    TagIsPlain(st);
    PlainIsClosed(TagText(st));
    StringLaid("state", TagText(st));
    OptionalLaid("last_exit", exit);
    LaidConcat(a, b);
    LaidConcat(a + b, c);
    TaggedLaid("state", a + b + c);
  }

  lemma ReplyLaid(r: Reply)
    requires Emittable(r)
    ensures Laid(ReplyJson(r))
  {
    hide AllLaid, Laid, LaidMember, Closed, Decimal, NumEntry, OptNumEntry, RowElems, EscapeMessage;
    match r
    case CreatedReply(id) =>
      NumberLaid("vm_id", id);
      TaggedLaid("created", NumEntry("vm_id", id));
    case StateReply(id, st, exit) =>
      StateLaid(id, st, exit);
    case DeletedReply(id) =>
      NumberLaid("vm_id", id);
      TaggedLaid("deleted", NumEntry("vm_id", id));
    case ListedReply(rows) =>
      RowElemsLaid(rows, 0);
      RowsLaid(RowElems(rows, 0));
      TaggedLaid("listed", [Entry("rows", Arr("", RowElems(rows, 0)))]);
    case ImageLoadedReply(len, crc) =>
      NumberLaid("len", len);
      NumberLaid("crc32c", crc);
      LaidConcat(NumEntry("len", len), NumEntry("crc32c", crc));
      TaggedLaid("image_loaded", NumEntry("len", len) + NumEntry("crc32c", crc));
    case ErrorReply(m) =>
      MessageIsClosed(m);
      StringLaid("message", EscapeMessage(m));
      TaggedLaid("error", [Entry("message", Str(EscapeMessage(m)))]);
  }

  lemma RowsLaid(es: seq<Elem>)
    requires forall e :: e in es ==> LaidElem(e)
    ensures AllLaid([Entry("rows", Arr("", es))])
  {
    PlainIsClosed("rows");
  }
}
