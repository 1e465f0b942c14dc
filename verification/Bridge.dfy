/** The bridge: what received lines do to the staging slot and the side tables, and the path of
    a boot image from the host's bytes to the VM that boots them. */
module Bridge {
  import opened Wrappers
  import opened WireScan
  import opened WireGrammar
  import opened WireDocument
  import opened WireHost
  import opened WireRequest
  import opened WireReply
  import opened WireLine
  import SerialLine
  import Crc32c
  import opened Crc32cDivision
  import opened Staging

  const MAX_FRAME_BYTES: nat := 12 * 1024

  // ----- host lines are single lines -----------------------------------------------------------

  predicate NoControl(s: string) { forall k :: 0 <= k < |s| ==> s[k] >= ' ' }

  lemma {:induction false} EscapeNoControl(s: string)
    ensures NoControl(Escape(s))
  {
    if s != "" {
      EscapeNoControl(s[1..]);
    }
  }

  lemma StrEntryNoControl(key: string, s: string)
    requires NoControl(key)
    ensures NoControl(MembersText(StrEntry(key, s)))
  {
    EscapeNoControl(s);
    hide Escape;
  }

  lemma NumEntryNoControl(key: string, n: nat)
    requires NoControl(key)
    ensures NoControl(MembersText(NumEntry(key, n)))
  {
    hide Decimal;
  }

  lemma {:induction false} MembersJoin(a: seq<Member>, b: seq<Member>)
    requires a != [] && b != []
    ensures MembersText(a + b) == MembersText(a) + "," + MembersText(b)
    decreases a
  {
    hide MemberText, MembersText;
    var rest := a[1..];
    assert (a + b)[1..] == rest + b;
    MembersTextHead(a);
    MembersTextHead(a + b);
    if rest == [] {
      assert rest + b == b;
    } else {
      MembersJoin(rest, b);
      Reassociate(MemberText(a[0]), MembersText(rest), MembersText(b));
    }
  }

  lemma Reassociate(m: string, x: string, y: string)
    ensures m + ("," + (x + "," + y)) == m + ("," + x) + "," + y
  {}

  lemma JoinNoControl(a: seq<Member>, b: seq<Member>)
    requires NoControl(MembersText(a)) && NoControl(MembersText(b))
    ensures NoControl(MembersText(a + b))
  {
    hide MembersText;
    if a == [] {
      assert a + b == b;
    } else if b == [] {
      assert a + b == a;
    } else {
      MembersJoin(a, b);
    }
  }

  lemma OptNumEntryNoControl(key: string, n: Option<nat>)
    requires NoControl(key)
    ensures NoControl(MembersText(OptNumEntry(key, n)))
  {
    if n.Some? { NumEntryNoControl(key, n.value); }
  }

  /** Escaping keeps every printed request on one line. */
  lemma HostLineIsOneLine(req: Request)
    ensures NoControl(HostText(req))
  {
    hide MembersText, StrEntry, NumEntry, OptNumEntry;
    match req {
      case Create(name, path, cpus, mem, crc) =>
        var a, b := StrEntry("op", "create"), StrEntry("label", name);
        var c := match path case None => [] case Some(p) => StrEntry("image_path", p);
        var d, e, g := OptNumEntry("cpu_count", cpus), OptNumEntry("memory_mib", mem), OptNumEntry("boot_blob_crc32c", crc);
        StrEntryNoControl("op", "create");
        StrEntryNoControl("label", name);
        PathNoControl(path);
        OptNumEntryNoControl("cpu_count", cpus);
        OptNumEntryNoControl("memory_mib", mem);
        OptNumEntryNoControl("boot_blob_crc32c", crc);
        JoinNoControl(a, b);
        JoinNoControl(a + b, c);
        JoinNoControl(a + b + c, d);
        JoinNoControl(a + b + c + d, e);
        JoinNoControl(a + b + c + d + e, g);
      case Start(id) => CommandNoControl("start", id);
      case Stop(id) => CommandNoControl("stop", id);
      case Delete(id) => CommandNoControl("delete", id);
      case ListVms => StrEntryNoControl("op", "list");
      case ImageLoad(len, crc, hex) =>
        var a, b, c, d := StrEntry("op", "image_load"), NumEntry("len", len), NumEntry("crc32c", crc), StrEntry("bytes_hex", hex);
        StrEntryNoControl("op", "image_load");
        NumEntryNoControl("len", len);
        NumEntryNoControl("crc32c", crc);
        StrEntryNoControl("bytes_hex", hex);
        JoinNoControl(a, b);
        JoinNoControl(a + b, c);
        JoinNoControl(a + b + c, d);
    }
    BracesNoControl(HostMembers(req));
  }

  lemma PathNoControl(path: Option<string>)
    ensures NoControl(MembersText(match path case None => [] case Some(p) => StrEntry("image_path", p)))
  {
    if path.Some? { StrEntryNoControl("image_path", path.value); }
  }

  lemma CommandNoControl(op: string, id: nat)
    ensures NoControl(MembersText(StrEntry("op", op) + NumEntry("vm_id", id)))
  {
    hide MembersText, StrEntry, NumEntry;
    StrEntryNoControl("op", op);
    NumEntryNoControl("vm_id", id);
    JoinNoControl(StrEntry("op", op), NumEntry("vm_id", id));
  }

  lemma BracesNoControl(ms: seq<Member>)
    requires NoControl(MembersText(ms))
    ensures NoControl(Text(Obj("", ms)))
  {
    hide MembersText;
  }

  // ----- from the host's bytes to the kernel's slot -----------------------------------------------

  /** The request stage_image sends. */
  function StageRequest(bytes: seq<Byte>): Request { ImageLoad(|bytes|, Crc(bytes), HexOf(bytes)) }

  lemma {:induction false} HexIsClean(bytes: seq<Byte>)
    ensures Clean(HexOf(bytes))
  {
    hide Hi, Lo;
    if bytes != [] {
      HexIsClean(bytes[1..]);
    }
  }

  lemma StageLineLength(bytes: seq<Byte>)
    requires |bytes| < U32_LIMIT
    ensures |HostText(StageRequest(bytes))| <= 2 * |bytes| + 76
  {
    hide Decimal, HexOf, Crc, Escape, MembersText, Pow10;
    var a, b, c, d := StrEntry("op", "image_load"), NumEntry("len", |bytes|), NumEntry("crc32c", Crc(bytes)), StrEntry("bytes_hex", HexOf(bytes));
    HexIsClean(bytes);
    EscapeClean(HexOf(bytes));
    EscapeClean("image_load");
    Widths();
    DecimalWidth(|bytes|, 10);
    DecimalWidth(Crc(bytes), 10);
    MembersTextHead(a);
    MembersTextHead(b);
    MembersTextHead(c);
    MembersTextHead(d);
    MembersJoin(a, b);
    MembersJoin(a + b, c);
    MembersJoin(a + b + c, d);
  }

  /** The slot after one received line. */
  function SlotAfter(held: Option<seq<Byte>>, line: string): Option<seq<Byte>> {
    match Decode(line)
    case Ok(ImageLoad(len, crc, hex)) => Staged(held, hex, len, crc).1
    case _ => held
  }

  function SlotRun(held: Option<seq<Byte>>, lines: seq<string>): Option<seq<Byte>>
    decreases lines
  {
    if lines == [] then held else SlotRun(SlotAfter(held, lines[0]), lines[1..])
  }

  /** An upload that gets past the length checks; only such a line changes the slot. */
  predicate Reaches(line: string) {
    match Decode(line)
    case Ok(ImageLoad(len, _, hex)) => 1 <= len <= MAX_IMAGE_BYTES && |hex| == 2 * len
    case _ => false
  }

  /** One host upload: framed, decoded and staged, or refused with the slot as it was. */
  lemma UploadStages(bytes: seq<Byte>, held: Option<seq<Byte>>, before: string, after: string)
    requires |bytes| < U32_LIMIT
    ensures var line := HostText(StageRequest(bytes));
      var rx := before + line + "\n" + after;
      && (1 <= |bytes| <= MAX_IMAGE_BYTES ==>
           && SerialLine.LineEnd(rx, |before|) == |before| + |line|
           && SerialLine.Framed(rx[|before|..|before| + |line|], MAX_FRAME_BYTES) == Ok(line))
      && Decode(line) == Ok(StageRequest(bytes))
      && Staged(held, HexOf(bytes), |bytes|, Crc(bytes))
         == (if 1 <= |bytes| <= MAX_IMAGE_BYTES then (Ok(()), Some(bytes)) else (Err(Invalid), held))
      && SlotAfter(held, line) == if 1 <= |bytes| <= MAX_IMAGE_BYTES then Some(bytes) else held
  {
    hide HostText, HexOf, BytesOf, Crc, Decode, SerialLine.LineEnd, SerialLine.Stored;
    var req := StageRequest(bytes);
    var line := HostText(req);
    HexIsClean(bytes);
    HostRoundTrip(req);
    HexRoundTrip(bytes);
    HostLineIsOneLine(req);
    SerialLine.LineIsRead(before, line, after, MAX_FRAME_BYTES);
    StageLineLength(bytes);
  }

  lemma {:induction false} UntouchedRun(held: Option<seq<Byte>>, lines: seq<string>)
    requires forall l :: l in lines ==> !Reaches(l)
    ensures SlotRun(held, lines) == held
    decreases lines
  {
    hide Decode;
    if lines != [] {
      assert !Reaches(lines[0]);
      UntouchedRun(held, lines[1..]);
    }
  }

  lemma {:induction false} SlotRunConcat(held: Option<seq<Byte>>, a: seq<string>, b: seq<string>)
    ensures SlotRun(held, a + b) == SlotRun(SlotRun(held, a), b)
    decreases a
  {
    hide SlotAfter;
    if a == [] {
      assert a + b == b;
    } else {
      assert (a + b)[1..] == a[1..] + b;
      SlotRunConcat(SlotAfter(held, a[0]), a[1..], b);
    }
  }

  /** Main result: whatever the kernel received before, and whatever it receives afterwards
      short of another upload that passes the length checks, a create request with the
      returned digest boots exactly the staged bytes. */
  lemma StagedImageBoots(bytes: seq<Byte>, held: Option<seq<Byte>>, earlier: seq<string>, later: seq<string>, hello: seq<Byte>)
    requires 1 <= |bytes| <= MAX_IMAGE_BYTES
    requires forall l :: l in later ==> !Reaches(l)
    ensures var slot := SlotRun(held, earlier + [HostText(StageRequest(bytes))] + later);
      && Chosen(slot, Some(Crc(bytes)), hello) == BootImage(bytes, GUEST_LOAD_GPA, 0, Some(Crc(bytes)))
      && FromRawBytes(bytes, GUEST_LOAD_GPA, 0, Some(Crc(bytes))).Ok?
  {
    hide Crc, Decode, HostText, Reaches;
    var line := HostText(StageRequest(bytes));
    var now := SlotRun(held, earlier);
    SlotRunConcat(held, earlier + [line], later);
    SlotRunConcat(held, earlier, [line]);
    UploadStages(bytes, now, "", "");
    assert SlotRun(now, [line]) == Some(bytes) by {
      assert [line][1..] == [];
      hide SlotAfter;
    }
    UntouchedRun(Some(bytes), later);
  }

  /** The image of a VM never comes from an unverified slot: it has the digest the create
      request named, or it is the built-in guest. */
  lemma BootedImageIsVerified(held: Option<seq<Byte>>, lines: seq<string>, want: Option<nat>, hello: seq<Byte>)
    requires held.Some? ==> 1 <= |held.value| <= MAX_IMAGE_BYTES
    ensures var slot := SlotRun(held, lines);
      && (slot.Some? ==> 1 <= |slot.value| <= MAX_IMAGE_BYTES)
      && var image := Chosen(slot, want, hello);
      && ((want == Some(Crc(image.blob)) && slot == Some(image.blob) && image == BootImage(image.blob, 0x1000, 0, want))
          || image == BootImage(if 1 <= |hello| <= 4096 then hello else [0xF4], 0x1000, 0, None))
  {
    RunKeepsBounds(held, lines);
    hide SlotRun, Crc;
  }

  lemma {:induction false} RunKeepsBounds(held: Option<seq<Byte>>, lines: seq<string>)
    requires held.Some? ==> 1 <= |held.value| <= MAX_IMAGE_BYTES
    ensures SlotRun(held, lines).Some? ==> 1 <= |SlotRun(held, lines).value| <= MAX_IMAGE_BYTES
    decreases lines
  {
    hide Decode, BytesOf, Crc;
    if lines != [] {
      RunKeepsBounds(SlotAfter(held, lines[0]), lines[1..]);
    }
  }

  /** Main result: an upload whose bytes changed on the way is staged exactly when the change is a
      multiple of the generator polynomial; otherwise it is refused and the slot emptied. */
  lemma DamagedUpload(held: Option<seq<Byte>>, sent: seq<Byte>, hex: string, got: seq<Byte>)
    requires 1 <= |sent| <= MAX_IMAGE_BYTES && |hex| == 2 * |sent| && BytesOf(hex) == Some(got)
    ensures Staged(held, hex, |sent|, Crc(sent)) == if Divisible(Change(sent, got)) then (Ok(()), Some(got)) else (Err(Invalid), None)
  {
    hide Divisible, Change, Crc32c.Digest, BytesOf;
    UndetectedExactly(sent, got);
    if Crc(sent) == Crc(got) {
      NumbersIdentifyWords(Crc32c.Digest(sent), Crc32c.Digest(got));
    }
  }

  /** A payload damaged within 32 consecutive bits, or in an odd number of bits, is refused, and the
      slot is emptied. */
  lemma DamagedUploadIsRefused(held: Option<seq<Byte>>, sent: seq<Byte>, hex: string, got: seq<Byte>, p: nat)
    requires 1 <= |sent| <= MAX_IMAGE_BYTES && |hex| == 2 * |sent| && BytesOf(hex) == Some(got) && got != sent
    requires Crc32c.AgreeOutsideBurst(Crc32c.Bits(sent), Crc32c.Bits(got), p) || Weight(Change(sent, got)) % 2 == 1
    ensures Staged(held, hex, |sent|, Crc(sent)) == (Err(Invalid), None)
  {
    hide Divisible, Change, Weight, Crc32c.Digest, Crc32c.Bits, BytesOf, Staged;
    DamagedUpload(held, sent, hex, got);
    UndetectedExactly(sent, got);
    if Weight(Change(sent, got)) % 2 == 1 {
      OddChangesAreDetected(sent, got);
    } else {
      Crc32c.BurstsAreDetected(sent, got, p);
    }
  }

  lemma WordOfNumber(a: bv32)
    ensures (a as nat) as bv32 == a
  {}

  lemma NumbersIdentifyWords(a: bv32, b: bv32)
    requires a as nat == b as nat
    ensures a == b
  {
    WordOfNumber(a);
    WordOfNumber(b);
  }

  // ----- what decoded requests may hold ---------------------------------------------------------------

  predicate TextOk(s: Option<string>) { s.Some? ==> LineText(s.value) }

  predicate FieldsOk(f: Fields) {
    TextOk(f.name) && TextOk(f.imagePath) && OptFits(f.cpuCount, U32_LIMIT) && OptFits(f.memoryMib, U64_LIMIT)
    && OptFits(f.bootCrc, U32_LIMIT) && OptFits(f.vmId, U32_LIMIT) && OptFits(f.len, U32_LIMIT) && OptFits(f.crc, U32_LIMIT)
  }

  lemma {:induction false} StringRestIsLineText(buf: string, start: nat, pos: nat)
    requires start <= pos <= |buf| && '\n' !in buf && PlainText(buf[start..pos])
    ensures var r := StringRest(buf, start, pos); r.Parsed? ==> LineText(r.value)
    decreases |buf| - pos
  {
    if pos < |buf| && buf[pos] != '\"' && buf[pos] != '\\' {
      assert buf[start..pos + 1] == buf[start..pos] + [buf[pos]];
      StringRestIsLineText(buf, start, pos + 1);
    }
  }

  lemma FieldKeepsOk(buf: string, pos: nat, field: Field, f: Fields)
    requires pos <= |buf| && '\n' !in buf && FieldsOk(f)
    ensures var r := ParseField(buf, pos, field, f); r.Parsed? ==> FieldsOk(r.value)
  {
    hide SkipWs, StringRest, ScanNumber, NullAt, SkipValue, LineText;
    var p := SkipWs(buf, pos);
    if p < |buf| {
      StringRestIsLineText(buf, p + 1, p + 1);
    }
  }

  lemma {:induction false} DecodeKeepsOk(buf: string, pos: nat, f: Fields)
    requires pos <= |buf| && '\n' !in buf && FieldsOk(f)
    ensures var r := DecodeFrom(buf, pos, f); r.Parsed? ==> FieldsOk(r.value)
    decreases |buf| - pos
  {
    hide SkipWs, ScanString, ParseField, FieldsOk;
    var p := SkipWs(buf, pos);
    var k := ScanString(buf, p);
    if k.Parsed? {
      var c := SkipWs(buf, k.pos);
      if c < |buf| {
        FieldKeepsOk(buf, c + 1, FieldOf(k.value), f);
      }
    }
    var m := ParseMember(buf, pos, f);
    if m.Parsed? {
      assert FieldsOk(m.value.0);
      hide ParseMember;
      if m.value.1 {
        DecodeKeepsOk(buf, m.pos, m.value.0);
      }
    }
  }

  predicate CreateOk(name: string, path: Option<string>, cpus: Option<nat>, mem: Option<nat>, crc: Option<nat>) {
    && |name| <= LABEL_MAX && LineText(name)
    && (path.Some? ==> |path.value| <= IMAGE_PATH_MAX && LineText(path.value))
    && OptFits(cpus, U32_LIMIT) && OptFits(mem, U64_LIMIT) && OptFits(crc, U32_LIMIT)
  }

  /** Whatever line arrives, a request decoded from it has numbers of their width, and a create
      request carries text that can be printed back. */
  lemma DecodedIsSafe(line: string)
    requires '\n' !in line
    ensures var r := Decode(line);
      && (r.Ok? ==> Typed(r.value))
      && (r.Ok? && r.value.Create? ==>
            CreateOk(r.value.name, r.value.imagePath, r.value.cpuCount, r.value.memoryMib, r.value.bootCrc))
  {
    hide DecodeFrom, SkipWs, LineText;
    if line != "" {
      DecodeKeepsOk(line, 1, NO_FIELDS);
    }
  }

  // ----- the side tables -----------------------------------------------------------------------------------

  datatype Extras = Extras(imagePath: string, cpuCount: Option<nat>, memoryMib: Option<nat>, bootCrc: Option<nat>)

  const NO_EXTRAS: Extras := Extras("", None, None, None)

  /** What the VM table reports for a slot. */
  datatype VmEntry = VmEntry(state: StateTag, lastExit: Option<nat>)

  predicate ExtrasOk(e: Extras) {
    |e.imagePath| <= IMAGE_PATH_MAX && LineText(e.imagePath) && OptFits(e.cpuCount, U32_LIMIT)
    && OptFits(e.memoryMib, U64_LIMIT) && OptFits(e.bootCrc, U32_LIMIT)
  }

  function RowAt(k: nat, entry: Option<VmEntry>, name: string, e: Extras): Option<Row> {
    if entry.None? then None
    else Some(Row(k, name, entry.value.state, entry.value.lastExit, e.imagePath, e.cpuCount, e.memoryMib, e.bootCrc))
  }

  class SideTables {
    const names: array<string>
    const extras: array<Extras>

    constructor ()
      ensures Valid() && fresh(names) && fresh(extras)
      ensures forall k :: 0 <= k < ROWS_MAX ==> names[k] == "" && extras[k] == NO_EXTRAS
    {
      names := new string[ROWS_MAX](_ => "");
      extras := new Extras[ROWS_MAX](_ => NO_EXTRAS);
    }

    /** In every run the tables hold only what decoded requests may hold. */
    ghost predicate Valid()
      reads this, names, extras
    {
      && names.Length == extras.Length == ROWS_MAX
      && (forall k :: 0 <= k < ROWS_MAX ==> |names[k]| <= LABEL_MAX && LineText(names[k]))
      && (forall k :: 0 <= k < ROWS_MAX ==> ExtrasOk(extras[k]))
    }

    /** After a successful create. */
    method Remember(id: nat, name: string, path: Option<string>, cpus: Option<nat>, mem: Option<nat>, crc: Option<nat>)
      returns (r: Result<(), HyperError>)
      requires Valid() && CreateOk(name, path, cpus, mem, crc)
      modifies names, extras
      ensures Valid() && r == if id < ROWS_MAX then Ok(()) else Err(Denied)
      ensures id >= ROWS_MAX ==> names[..] == old(names[..]) && extras[..] == old(extras[..])
      ensures id < ROWS_MAX ==>
        && names[..] == old(names[..])[id := name]
        && extras[..] == old(extras[..])[id := Extras(if path.Some? then path.value else "", cpus, mem, crc)]
    {
      if id >= ROWS_MAX {
        return Err(Denied);
      }
      names[id] := name;
      extras[id] := Extras(if path.Some? then path.value else "", cpus, mem, crc);
      r := Ok(());
    }

    /** After a successful delete. */
    method Forget(id: nat)
      requires Valid()
      modifies names, extras
      ensures Valid()
      ensures names[..] == if id < ROWS_MAX then old(names[..])[id := ""] else old(names[..])
      ensures extras[..] == if id < ROWS_MAX then old(extras[..])[id := NO_EXTRAS] else old(extras[..])
    {
      if id < ROWS_MAX {
        names[id] := "";
        extras[id] := NO_EXTRAS;
      }
    }

    /** The rows of a list reply: always a reply the encoder can send. */
    method BuildRows(entries: seq<Option<VmEntry>>) returns (rows: seq<Option<Row>>)
      requires Valid() && |entries| == ROWS_MAX
      requires forall k :: 0 <= k < ROWS_MAX && entries[k].Some? ==> OptFits(entries[k].value.lastExit, U32_LIMIT)
      ensures |rows| == ROWS_MAX
      ensures forall k :: 0 <= k < ROWS_MAX ==> rows[k] == RowAt(k, entries[k], names[k], extras[k])
      ensures Emittable(ListedReply(rows))
    {
      rows := [];
      for k := 0 to ROWS_MAX
        invariant |rows| == k
        invariant forall j :: 0 <= j < k ==> rows[j] == RowAt(j, entries[j], names[j], extras[j])
      {
        rows := rows + [RowAt(k, entries[k], names[k], extras[k])];
      }
    }
  }
}
