/** The request line as the host prints it, and what the kernel's decoder makes of it. */
module WireHost {
  import opened Wrappers
  import opened WireScan
  import opened WireGrammar
  import opened WireRequest
  import opened WireDocument

  // ----- decimal numbers ------------------------------------------------------------------

  function Digit(d: nat): (c: char)
    requires d < 10
    ensures IsDigit(c) && DigitValue(c) == d
  {
    (d + '0' as int) as char
  }

  function Decimal(n: nat): (s: string)
    ensures s != "" && AllDigits(s)
  {
    if n < 10 then [Digit(n)] else Decimal(n / 10) + [Digit(n % 10)]
  }

  lemma {:induction false} DecimalRoundTrip(n: nat)
    ensures DecimalValue(Decimal(n)) == n
  {
    var s := Decimal(n);
    if n < 10 {
      assert s[..0] == "";
    } else {
      DecimalRoundTrip(n / 10);
      assert s[..|s| - 1] == Decimal(n / 10);
    }
  }

  // ----- strings with JSON escapes (RFC 8259 section 7) --------------------------------------

  predicate NeedsEscape(c: char) { c == '\"' || c == '\\' || c < ' ' }

  function HexDigit(d: nat): char
    requires d < 16
  {
    "0123456789abcdef"[d]
  }

  function EscapeChar(c: char): (s: string)
    ensures if NeedsEscape(c) then |s| >= 2 && s[0] == '\\' else s == [c]
  {
    if c == '\"' then "\\\""
    else if c == '\\' then "\\\\"
    else if c == '\n' then "\\n"
    else if c == '\r' then "\\r"
    else if c == '\t' then "\\t"
    else if c == 8 as char then "\\b"
    else if c == 12 as char then "\\f"
    else if c < ' ' then "\\u00" + [HexDigit(c as nat / 16), HexDigit(c as nat % 16)]
    else [c]
  }

  function Escape(s: string): string {
    if s == "" then "" else EscapeChar(s[0]) + Escape(s[1..])
  }

  predicate Clean(s: string) { forall k :: 0 <= k < |s| ==> !NeedsEscape(s[k]) }

  lemma {:induction false} EscapeClean(s: string)
    requires Clean(s)
    ensures Escape(s) == s && PlainText(s)
  {
    if s != "" {
      EscapeClean(s[1..]);
      assert s == [s[0]] + s[1..];
    }
  }

  lemma {:induction false} EscapeDirty(s: string)
    requires !Clean(s)
    ensures Escaped(Escape(s)) && !PlainText(Escape(s))
  {
    var e := Escape(s);
    var head, tail := EscapeChar(s[0]), Escape(s[1..]);
    if NeedsEscape(s[0]) {
      assert e[0] == '\\' && PlainText(e[..0]);
    } else {
      assert !Clean(s[1..]) by {
        var k :| 0 <= k < |s| && NeedsEscape(s[k]);
        assert s[1..][k - 1] == s[k];
      }
      EscapeDirty(s[1..]);
      var k :| 0 <= k < |tail| && tail[k] == '\\' && PlainText(tail[..k]);
      assert e[k + 1] == '\\';
      assert e[..k + 1] == [s[0]] + tail[..k];
    }
  }

  lemma PrintedString(s: string)
    ensures Printable(Str(Escape(s))) && (WellFormed(Str(Escape(s))) <==> Clean(s))
    ensures Clean(s) ==> Escape(s) == s
  {
    if Clean(s) { EscapeClean(s); } else { EscapeDirty(s); }
  }

  // ----- the printed request -----------------------------------------------------------------

  function Entry(key: string, v: Json): Member { Member("", key, "", "", v, "") }

  function StrEntry(key: string, s: string): seq<Member> { [Entry(key, Str(Escape(s)))] }

  function NumEntry(key: string, n: nat): seq<Member> { [Entry(key, Literal(Decimal(n)))] }

  function OptNumEntry(key: string, n: Option<nat>): seq<Member> {
    match n case None => [] case Some(v) => NumEntry(key, v)
  }

  /** The fields in declaration order behind the tag, absent options omitted. */
  function HostMembers(req: Request): seq<Member> {
    match req
    case Create(name, path, cpus, mem, crc) =>
      StrEntry("op", "create") + StrEntry("label", name)
      + (match path case None => [] case Some(p) => StrEntry("image_path", p))
      + OptNumEntry("cpu_count", cpus) + OptNumEntry("memory_mib", mem) + OptNumEntry("boot_blob_crc32c", crc)
    case Start(id) => StrEntry("op", "start") + NumEntry("vm_id", id)
    case Stop(id) => StrEntry("op", "stop") + NumEntry("vm_id", id)
    case Delete(id) => StrEntry("op", "delete") + NumEntry("vm_id", id)
    case ListVms => StrEntry("op", "list")
    case ImageLoad(len, crc, hex) =>
      StrEntry("op", "image_load") + NumEntry("len", len) + NumEntry("crc32c", crc) + StrEntry("bytes_hex", hex)
  }

  function HostText(req: Request): string { Text(Obj("", HostMembers(req))) }

  /** The host's field types. */
  predicate Typed(req: Request) {
    match req
    case Create(_, _, cpus, mem, crc) =>
      (cpus.Some? ==> cpus.value < U32_LIMIT) && (mem.Some? ==> mem.value < U64_LIMIT) && (crc.Some? ==> crc.value < U32_LIMIT)
    case Start(id) => id < U32_LIMIT
    case Stop(id) => id < U32_LIMIT
    case Delete(id) => id < U32_LIMIT
    case ListVms => true
    case ImageLoad(len, crc, _) => len < U32_LIMIT && crc < U32_LIMIT
  }

  /** What the host has to check before sending. */
  predicate Deliverable(req: Request) {
    match req
    case Create(name, path, _, _, _) =>
      |name| <= LABEL_MAX && Clean(name) && (path.Some? ==> |path.value| <= IMAGE_PATH_MAX && Clean(path.value))
    case ImageLoad(len, _, hex) => Clean(hex) && |hex| == 2 * len
    case _ => true
  }

  // ----- the meaning of a printed request ------------------------------------------------------

  lemma {:induction false} AbsorbConcat(a: seq<Member>, b: seq<Member>, f: Fields)
    ensures AbsorbAll(a + b, f) == AbsorbAll(b, AbsorbAll(a, f))
    ensures AcceptsAll(a + b) <==> AcceptsAll(a) && AcceptsAll(b)
  {
    hide Absorb, Accepts;
    if a == [] {
      assert a + b == b;
    } else {
      assert (a + b)[1..] == a[1..] + b;
      AbsorbConcat(a[1..], b, Absorb(FieldOf(a[0].key), a[0].value, f));
      assert a + b == [a[0]] + (a[1..] + b);
      assert a == [a[0]] + a[1..];
    }
  }

  ghost predicate Means(ms: seq<Member>, ok: bool, f: Fields, g: Fields) {
    && (forall m :: m in ms ==> MemberOk(m))
    && (AcceptsAll(ms) <==> ok)
    && (ok ==> AbsorbAll(ms, f) == g)
  }

  lemma MeansConcat(a: seq<Member>, b: seq<Member>, okA: bool, okB: bool, f: Fields, g: Fields, h: Fields)
    requires Means(a, okA, f, g) && Means(b, okB, g, h)
    ensures Means(a + b, okA && okB, f, h)
  {
    AbsorbConcat(a, b, f);
    hide AbsorbAll, AcceptsAll, MemberOk;
  }

  lemma EntryMeans(m: Member, f: Fields)
    requires MemberOk(m)
    ensures Means([m], Accepts(FieldOf(m.key), m.value), f, Absorb(FieldOf(m.key), m.value, f))
  {
    AbsorbHead([m], f);
    hide AbsorbAll, AcceptsAll, Accepts, Absorb;
  }

  lemma StrMeans(key: string, s: string, f: Fields)
    requires PlainText(key) && FieldOf(key) in {OpField, LabelField, ImagePathField, BytesHexField}
    ensures Means(StrEntry(key, s), Clean(s), f, Absorb(FieldOf(key), Str(s), f))
  {
    PrintedString(s);
    var m := Entry(key, Str(Escape(s)));
    EntryMeans(m, f);
    hide FieldOf, Escape, Clean, AbsorbAll, AcceptsAll;
  }

  lemma DecimalIsNumeral(n: nat)
    ensures var v := Literal(Decimal(n));
      WellFormed(v) && OptionalNumeral(v) == Some(n) && forall limit :: IsNumeral(v, limit) <==> n < limit
  {
    DecimalRoundTrip(n);
    hide Decimal, DecimalValue;
  }

  lemma NumMeans(key: string, n: nat, f: Fields)
    requires PlainText(key)
    requires FieldOf(key) in {VmIdField, LenField, CrcField, CpuCountField, BootCrcField, MemoryMibField}
    requires n < if FieldOf(key) == MemoryMibField then U64_LIMIT else U32_LIMIT
    ensures Means(NumEntry(key, n), true, f, Absorb(FieldOf(key), Literal(Decimal(n)), f))
    ensures OptionalNumeral(Literal(Decimal(n))) == Some(n)
  {
    hide FieldOf, Decimal, IsNumeral, WellFormed, OptionalNumeral, Absorb, AbsorbAll, AcceptsAll;
    DecimalIsNumeral(n);
    EntryMeans(Entry(key, Literal(Decimal(n))), f);
  }

  lemma OptNumMeans(key: string, n: Option<nat>, f: Fields, g: Fields)
    requires PlainText(key)
    requires FieldOf(key) in {CpuCountField, BootCrcField, MemoryMibField}
    requires n.Some? ==> n.value < if FieldOf(key) == MemoryMibField then U64_LIMIT else U32_LIMIT
    requires g == match FieldOf(key)
                  case CpuCountField => f.(cpuCount := n)
                  case MemoryMibField => f.(memoryMib := n)
                  case _ => f.(bootCrc := n)
    requires n.None? ==> g == f
    ensures Means(OptNumEntry(key, n), true, f, g)
  {
    match n
    case None =>
    case Some(v) => NumMeans(key, v, f);
      hide AbsorbAll, AcceptsAll, Decimal;
  }

  // ----- the round trip -------------------------------------------------------------------------

  function Collected(req: Request): Fields {
    match req
    case Create(name, path, cpus, mem, crc) =>
      NO_FIELDS.(op := Some("create"), name := Some(name), imagePath := path, cpuCount := cpus, memoryMib := mem, bootCrc := crc)
    case Start(id) => NO_FIELDS.(op := Some("start"), vmId := Some(id))
    case Stop(id) => NO_FIELDS.(op := Some("stop"), vmId := Some(id))
    case Delete(id) => NO_FIELDS.(op := Some("delete"), vmId := Some(id))
    case ListVms => NO_FIELDS.(op := Some("list"))
    case ImageLoad(len, crc, hex) =>
      NO_FIELDS.(op := Some("image_load"), len := Some(len), crc := Some(crc), bytesHex := Some(hex))
  }

  predicate AllClean(req: Request) {
    match req
    case Create(name, path, _, _, _) => Clean(name) && (path.Some? ==> Clean(path.value))
    case ImageLoad(_, _, hex) => Clean(hex)
    case _ => true
  }

  lemma TagsClean()
    ensures Clean("create") && Clean("image_load")
  {}

  lemma CommandMeans(op: string, id: nat)
    requires Clean(op) && id < U32_LIMIT
    ensures Means(StrEntry("op", op) + NumEntry("vm_id", id), true, NO_FIELDS, NO_FIELDS.(op := Some(op), vmId := Some(id)))
  {
    var f := NO_FIELDS.(op := Some(op));
    StrMeans("op", op, NO_FIELDS);
    NumMeans("vm_id", id, f);
    MeansConcat(StrEntry("op", op), NumEntry("vm_id", id), true, true, NO_FIELDS, f, f.(vmId := Some(id)));
  }

  lemma ImageLoadMeans(len: nat, crc: nat, hex: string)
    requires len < U32_LIMIT && crc < U32_LIMIT
    ensures var req := ImageLoad(len, crc, hex); Means(HostMembers(req), Clean(hex), NO_FIELDS, Collected(req))
  {
    hide Means, StrEntry, NumEntry, Clean;
    TagsClean();
    var f0, f1 := NO_FIELDS, NO_FIELDS.(op := Some("image_load"));
    var f2 := f1.(len := Some(len));
    var f3 := f2.(crc := Some(crc));
    var a, b, c, d := StrEntry("op", "image_load"), NumEntry("len", len), NumEntry("crc32c", crc), StrEntry("bytes_hex", hex);
    StrMeans("op", "image_load", f0);
    NumMeans("len", len, f1);
    NumMeans("crc32c", crc, f2);
    StrMeans("bytes_hex", hex, f3);
    MeansConcat(a, b, true, true, f0, f1, f2);
    MeansConcat(a + b, c, true, true, f0, f2, f3);
    MeansConcat(a + b + c, d, true, Clean(hex), f0, f3, f3.(bytesHex := Some(hex)));
  }

  lemma PathMeans(path: Option<string>, f: Fields)
    requires f.imagePath == None
    ensures Means(match path case None => [] case Some(p) => StrEntry("image_path", p),
                  path.Some? ==> Clean(path.value), f, f.(imagePath := path))
  {
    match path
    case None =>
    case Some(p) => StrMeans("image_path", p, f);
  }

  lemma CreateMeans(req: Request)
    requires Typed(req) && req.Create?
    ensures Means(HostMembers(req), AllClean(req), NO_FIELDS, Collected(req))
  {
    hide Means, StrEntry, OptNumEntry, Clean;
    TagsClean();
    var f0, f1 := NO_FIELDS, NO_FIELDS.(op := Some("create"));
    var f2 := f1.(name := Some(req.name));
    var f3 := f2.(imagePath := req.imagePath);
    var f4 := f3.(cpuCount := req.cpuCount);
    var f5 := f4.(memoryMib := req.memoryMib);
    var f6 := f5.(bootCrc := req.bootCrc);
    var a, b := StrEntry("op", "create"), StrEntry("label", req.name);
    var c := match req.imagePath case None => [] case Some(p) => StrEntry("image_path", p);
    var d, e := OptNumEntry("cpu_count", req.cpuCount), OptNumEntry("memory_mib", req.memoryMib);
    var g := OptNumEntry("boot_blob_crc32c", req.bootCrc);
    var ok := Clean(req.name);
    var ok' := ok && (req.imagePath.Some? ==> Clean(req.imagePath.value));
    StrMeans("op", "create", f0);
    StrMeans("label", req.name, f1);
    PathMeans(req.imagePath, f2);
    OptNumMeans("cpu_count", req.cpuCount, f3, f4);
    OptNumMeans("memory_mib", req.memoryMib, f4, f5);
    OptNumMeans("boot_blob_crc32c", req.bootCrc, f5, f6);
    MeansConcat(a, b, true, ok, f0, f1, f2);
    MeansConcat(a + b, c, ok, req.imagePath.Some? ==> Clean(req.imagePath.value), f0, f2, f3);
    MeansConcat(a + b + c, d, ok', true, f0, f3, f4);
    MeansConcat(a + b + c + d, e, ok', true, f0, f4, f5);
    MeansConcat(a + b + c + d + e, g, ok', true, f0, f5, f6);
  }

  lemma RequestMeans(req: Request)
    requires Typed(req)
    ensures Means(HostMembers(req), AllClean(req), NO_FIELDS, Collected(req))
  {
    match req
    case Create(_, _, _, _, _) => CreateMeans(req);
    case Start(id) => CommandMeans("start", id);
    case Stop(id) => CommandMeans("stop", id);
    case Delete(id) => CommandMeans("delete", id);
    case ListVms => StrMeans("op", "list", NO_FIELDS);
    case ImageLoad(len, crc, hex) => ImageLoadMeans(len, crc, hex);
  }

  lemma CollectedAssembles(req: Request)
    ensures (if AllClean(req) then Assemble(Collected(req)) else Err(Invalid))
         == if Deliverable(req) then Ok(req) else Err(Invalid)
  {
    hide Clean;
  }

  /** Main result: the kernel recovers the host's request exactly when the host may send it;
      every other request is refused. */
  lemma HostRoundTrip(req: Request)
    requires Typed(req)
    ensures Decode(HostText(req)) == if Deliverable(req) then Ok(req) else Err(Invalid)
  {
    hide Decode, Assemble, Collected, Deliverable, AllClean, HostMembers, Typed, Text, MemberOk, AbsorbAll, AcceptsAll;
    RequestMeans(req);
    CollectedAssembles(req);
    DecodeObject("", HostMembers(req), "");
    assert Text(Obj("", HostMembers(req))) + "" == HostText(req);
  }
}
