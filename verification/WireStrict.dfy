/** What the host's JSON parser takes: RFC 8259 to the letter. The kernel's grammar is wider in
    one point that matters, raw control bytes in strings (forbidden by section 7). */
module WireStrict {
  import opened Wrappers
  import opened WireScan
  import opened WireGrammar
  import opened WireDocument
  import opened WireHost
  import opened WireReply
  import opened WireUnique
  import opened WireLine
  import opened WireHostReply
  import WireRequest

  predicate IsHex(c: char) { IsDigit(c) || 'a' <= c <= 'f' || 'A' <= c <= 'F' }

  /** A string body (section 7): control bytes only as escapes, and only the listed escapes. */
  predicate StrictChars(s: string) {
    if s == "" then true
    else if s[0] != '\\' then s[0] != '\"' && s[0] >= ' ' && StrictChars(s[1..])
    else if |s| < 2 then false
    else if s[1] != 'u' then s[1] in "\"\\/bfnrt" && StrictChars(s[2..])
    else |s| >= 6 && IsHex(s[2]) && IsHex(s[3]) && IsHex(s[4]) && IsHex(s[5]) && StrictChars(s[6..])
  }

  predicate Digits(s: string) { s != "" && AllDigits(s) }

  predicate Integer(s: string) { s == "0" || (Digits(s) && s[0] != '0') }

  predicate Fraction(s: string) { s == "" || (s[0] == '.' && Digits(s[1..])) }

  predicate Exponent(s: string) {
    s == "" || ((s[0] == 'e' || s[0] == 'E') && (Digits(s[1..]) || (|s| > 2 && (s[1] == '+' || s[1] == '-') && Digits(s[2..]))))
  }

  /** Section 6. */
  ghost predicate Number(t: string) {
    exists m, i, f, e :: t == m + i + f + e && (m == "" || m == "-") && Integer(i) && Fraction(f) && Exponent(e)
  }

  ghost predicate StrictLiteral(t: string) {
    LiteralText(t) && (t == "true" || t == "false" || t == "null" || Number(t))
  }

  /** A value of RFC 8259, in any layout. */
  ghost predicate Strict(v: Json) {
    match v
    case Literal(t) => StrictLiteral(t)
    case Str(s) => StrictChars(s)
    case Arr(b, es) => Blank(b) && (es != [] ==> b == "") && forall e :: e in es ==> StrictElem(e)
    case Obj(b, ms) => Blank(b) && (ms != [] ==> b == "") && forall m :: m in ms ==> StrictMember(m)
  }

  ghost predicate StrictElem(e: Elem) { Blank(e.before) && Strict(e.value) && Blank(e.after) }

  ghost predicate StrictMember(m: Member) {
    Blank(m.before) && StrictChars(m.key) && Blank(m.afterKey) && Blank(m.beforeValue) && Strict(m.value) && Blank(m.after)
  }

  lemma {:induction false} StrictIsClosed(s: string)
    requires StrictChars(s)
    ensures Closed(s)
  {
    if s == "" {
    } else if s[0] != '\\' {
      StrictIsClosed(s[1..]);
    } else if s[1] != 'u' {
      StrictIsClosed(s[2..]);
    } else {
      StrictIsClosed(s[6..]);
      var d := s[2..];
      assert d[1..] == s[3..] && s[3..][1..] == s[4..] && s[4..][1..] == s[5..] && s[5..][1..] == s[6..];
      assert Closed(s[5..]) && Closed(s[4..]) && Closed(s[3..]) && Closed(d);
    }
  }

  lemma {:induction false} StrictIsLaid(v: Json)
    requires Strict(v)
    ensures Laid(v)
  {
    match v
    case Literal(t) =>
    case Str(s) => StrictIsClosed(s);
    case Arr(b, es) =>
      forall e | e in es
        ensures LaidElem(e)
      {
        assert StrictElem(e);
        StrictIsLaid(e.value);
      }
    case Obj(b, ms) =>
      forall m | m in ms
        ensures LaidMember(m)
      {
        assert StrictMember(m);
        StrictIsClosed(m.key);
        StrictIsLaid(m.value);
      }
  }

  /** The host reads x from a line: the line is one value of RFC 8259 between blanks, and its
      fields, read by name, make x. */
  ghost predicate Reads(line: string, x: Reply) {
    exists w, v, z :: Blank(w) && Blank(z) && Strict(v) && line == w + Text(v) + z && HostView(v) == Some(x)
  }

  // ----- when the printed object is strict ---------------------------------------------------

  /** Labels and paths without control bytes; all other strings of a reply are the kernel's own. */
  predicate CleanReply(r: Reply) {
    r.ListedReply? ==> forall k :: 0 <= k < |r.rows| && r.rows[k].Some? ==> CleanRow(r.rows[k].value)
  }

  predicate CleanRow(row: Row) { Clean(row.name) && Clean(row.imagePath) }

  ghost predicate AllStrict(ms: seq<Member>) { forall m :: m in ms ==> StrictMember(m) }

  lemma {:induction false} PlainStrict(s: string)
    requires PlainText(s)
    ensures StrictChars(s) <==> Clean(s)
  {
    if s != "" {
      PlainStrict(s[1..]);
      assert Clean(s) <==> !NeedsEscape(s[0]) && Clean(s[1..]) by {
        assert s == [s[0]] + s[1..];
      }
    }
  }

  lemma ByteIsStrict(c: char, rest: string)
    requires StrictChars(rest)
    ensures StrictChars(EscapeByte(c) + rest)
  {
    var e := EscapeByte(c) + rest;
    if c < ' ' {
      assert e == rest;
    } else if |EscapeByte(c)| == 2 {
      assert e[0] == '\\' && e[1] == c && e[2..] == rest;
    } else {
      assert e[0] == c && e[1..] == rest;
    }
  }

  lemma {:induction false} MessageIsStrict(m: string)
    ensures StrictChars(EscapeMessage(m))
  {
    hide EscapeByte;
    if m != "" {
      MessageIsStrict(m[1..]);
      ByteIsStrict(m[0], EscapeMessage(m[1..]));
    }
  }

  lemma {:induction false} DecimalStart(n: nat)
    ensures n > 0 ==> Decimal(n)[0] != '0'
  {
    if n >= 10 {
      DecimalStart(n / 10);
    }
  }

  lemma DecimalIsStrict(n: nat)
    ensures StrictLiteral(Decimal(n))
  {
    DecimalStart(n);
    var t := Decimal(n);
    assert Integer(t);
    assert t == "" + t + "" + "";
  }

  lemma StrictConcat(a: seq<Member>, b: seq<Member>)
    ensures AllStrict(a + b) <==> AllStrict(a) && AllStrict(b)
  {
    hide StrictMember;
    assert forall m :: m in a + b <==> m in a || m in b;
  }

  lemma EntryStrict(key: string, v: Json)
    requires StrictChars(key)
    ensures AllStrict([Entry(key, v)]) <==> Strict(v)
  {
    hide StrictChars, Strict;
    var m := Entry(key, v);
    assert m in [m] && Blank("");
    assert forall x :: x in [m] <==> x == m;
    assert StrictMember(m) <==> Strict(v);
  }

  lemma NumberStrict(key: string, n: nat)
    requires Clean(key)
    ensures AllStrict(NumEntry(key, n))
  {
    CleanIsStrict(key);
    DecimalIsStrict(n);
    EntryStrict(key, Literal(Decimal(n)));
  }

  lemma OptionalStrict(key: string, n: Option<nat>)
    requires Clean(key)
    ensures AllStrict(OptNumEntry(key, n))
  {
    hide Clean, NumEntry;
    if n.Some? { NumberStrict(key, n.value); }
  }

  lemma StringStrict(key: string, s: string)
    requires Clean(key)
    ensures AllStrict([Entry(key, Str(s))]) <==> StrictChars(s)
  {
    CleanIsStrict(key);
    EntryStrict(key, Str(s));
  }

  lemma CleanIsStrict(s: string)
    requires Clean(s)
    ensures StrictChars(s)
  {
    EscapeClean(s);
    PlainStrict(s);
  }

  lemma TagIsStrict(t: StateTag)
    ensures StrictChars(TagText(t))
  {
    CleanIsStrict(TagText(t));
  }

  lemma IdentityStrict(row: Row)
    requires PlainText(row.name)
    ensures AllStrict(RowMembers(row)[..3]) <==> Clean(row.name)
  {
    PlainStrict(row.name);
    TagIsStrict(row.state);
    var a, b, c := NumEntry("vm_id", row.vmId), [Entry("label", Str(row.name))], [Entry("state", Str(TagText(row.state)))];
    assert RowMembers(row)[..3] == a + b + c;
    assert Clean("vm_id") && Clean("label") && Clean("state");
    hide AllStrict, StrictChars, Clean, NumEntry, TagText, RowMembers;
    NumberStrict("vm_id", row.vmId);
    StringStrict("label", row.name);
    StringStrict("state", TagText(row.state));
    StrictConcat(a, b);
    StrictConcat(a + b, c);
  }

  lemma PathStrict(path: string)
    requires PlainText(path)
    ensures AllStrict(PathEntry(path)) <==> Clean(path)
  {
    PlainStrict(path);
    assert Clean("image_path");
    hide StrictChars;
    if path != "" { StringStrict("image_path", path); }
  }

  lemma RowStrict(row: Row)
    requires PlainText(row.name) && PlainText(row.imagePath)
    ensures Strict(RowJson(row)) <==> CleanRow(row)
  {
    hide AllStrict, PathEntry, OptNumEntry, StrictChars, Strict;
    var m0, m1 := RowMembers(row)[..3], OptNumEntry("last_exit", row.lastExit);
    var m2, m3 := PathEntry(row.imagePath), OptNumEntry("cpu_count", row.cpuCount);
    var m4, m5 := OptNumEntry("memory_mib", row.memoryMib), OptNumEntry("boot_blob_crc32c", row.bootCrc);
    assert RowMembers(row) == m0 + m1 + m2 + m3 + m4 + m5;
    assert Clean("last_exit") && Clean("cpu_count") && Clean("memory_mib") && Clean("boot_blob_crc32c");
    hide RowMembers, Clean;
    IdentityStrict(row);
    ObjStrict(RowMembers(row));
    OptionalStrict("last_exit", row.lastExit);
    PathStrict(row.imagePath);
    OptionalStrict("cpu_count", row.cpuCount);
    OptionalStrict("memory_mib", row.memoryMib);
    OptionalStrict("boot_blob_crc32c", row.bootCrc);
    StrictConcat(m0, m1);
    StrictConcat(m0 + m1, m2);
    StrictConcat(m0 + m1 + m2, m3);
    StrictConcat(m0 + m1 + m2 + m3, m4);
    StrictConcat(m0 + m1 + m2 + m3 + m4, m5);
  }

  lemma ObjStrict(ms: seq<Member>)
    ensures Strict(Obj("", ms)) <==> AllStrict(ms)
  {
    hide StrictMember;
  }

  ghost predicate AllElemsStrict(es: seq<Elem>) { forall e :: e in es ==> StrictElem(e) }

  ghost predicate CleanFrom(rows: seq<Option<Row>>, k: nat) {
    forall j :: k <= j < |rows| && rows[j].Some? ==> CleanRow(rows[j].value)
  }

  lemma {:induction false} RowElemsStrict(rows: seq<Option<Row>>, k: nat)
    requires k <= |rows|
    requires forall j :: 0 <= j < |rows| && rows[j].Some? ==> PlainText(rows[j].value.name) && PlainText(rows[j].value.imagePath)
    ensures AllElemsStrict(RowElems(rows, k)) <==> CleanFrom(rows, k)
    decreases |rows| - k
  {
    hide RowJson, PlainText, Strict, CleanRow;
    if k < |rows| {
      RowElemsStrict(rows, k + 1);
      RowsUnfold(rows, k);
      CleanFromHead(rows, k);
      var rest := RowElems(rows, k + 1);
      hide RowElems, CleanFrom;
      if rows[k].Some? {
        RowStrict(rows[k].value);
        ElemsStrictHead(Elem("", RowJson(rows[k].value), ""), rest);
      }
    }
  }

  lemma CleanFromHead(rows: seq<Option<Row>>, k: nat)
    requires k < |rows|
    ensures CleanFrom(rows, k) <==> (rows[k].Some? ==> CleanRow(rows[k].value)) && CleanFrom(rows, k + 1)
  {
    hide CleanRow;
  }

  lemma ElemsStrictHead(e: Elem, rest: seq<Elem>)
    ensures AllElemsStrict([e] + rest) <==> StrictElem(e) && AllElemsStrict(rest)
  {
    hide StrictElem;
    assert forall x :: x in [e] + rest <==> x == e || x in rest;
  }

  lemma TaggedStrict(tag: string, fields: seq<Member>)
    requires Clean(tag)
    ensures Strict(Obj("", TaggedMembers(tag, fields))) <==> AllStrict(fields)
  {
    CleanIsStrict(tag);
    assert Clean("reply");
    hide StrictChars, Strict, AllStrict, Clean;
    StringStrict("reply", tag);
    StrictConcat([Entry("reply", Str(tag))], fields);
    ObjStrict(TaggedMembers(tag, fields));
  }

  lemma StateStrict(id: nat, st: StateTag, exit: Option<nat>)
    ensures Strict(ReplyJson(StateReply(id, st, exit)))
  {
    TagIsStrict(st);
    assert Clean("vm_id") && Clean("state") && Clean("last_exit");
    hide Strict, AllStrict, StrictChars, NumEntry, OptNumEntry, TagText, Clean;
    var a, b, c := NumEntry("vm_id", id), [Entry("state", Str(TagText(st)))], OptNumEntry("last_exit", exit);
    NumberStrict("vm_id", id);
    StringStrict("state", TagText(st));
    OptionalStrict("last_exit", exit);
    StrictConcat(a, b);
    StrictConcat(a + b, c);
    TaggedStrict("state", a + b + c);
  }

  lemma ArrayStrict(es: seq<Elem>)
    ensures Strict(Arr("", es)) <==> AllElemsStrict(es)
  {
    hide StrictElem;
  }

  lemma ListedFacts(rows: seq<Option<Row>>)
    requires Emittable(ListedReply(rows))
    ensures CleanReply(ListedReply(rows)) <==> CleanFrom(rows, 0)
    ensures forall j :: 0 <= j < |rows| && rows[j].Some? ==> PlainText(rows[j].value.name) && PlainText(rows[j].value.imagePath)
  {
    hide CleanRow, PlainText;
  }

  lemma ListedStrict(rows: seq<Option<Row>>)
    requires Emittable(ListedReply(rows))
    ensures Strict(ReplyJson(ListedReply(rows))) <==> CleanReply(ListedReply(rows))
  {
    assert Clean("rows") && Clean("listed");
    hide Emittable, CleanReply, StrictChars, CleanRow, RowElems, Strict, AllStrict, AllElemsStrict, CleanFrom, Clean, PlainText, TaggedMembers, Entry;
    ListedFacts(rows);
    RowElemsStrict(rows, 0);
    var a := Arr("", RowElems(rows, 0));
    ArrayStrict(RowElems(rows, 0));
    CleanIsStrict("rows");
    EntryStrict("rows", a);
    TaggedStrict("listed", [Entry("rows", a)]);
  }

  lemma LoadedStrict(len: nat, crc: nat)
    ensures Strict(ReplyJson(ImageLoadedReply(len, crc)))
  {
    assert Clean("len") && Clean("crc32c") && Clean("image_loaded");
    hide Strict, AllStrict, NumEntry, Clean;
    NumberStrict("len", len);
    NumberStrict("crc32c", crc);
    StrictConcat(NumEntry("len", len), NumEntry("crc32c", crc));
    TaggedStrict("image_loaded", NumEntry("len", len) + NumEntry("crc32c", crc));
  }

  lemma ErrorStrict(m: string)
    ensures Strict(ReplyJson(ErrorReply(m)))
  {
    assert Clean("message") && Clean("error");
    hide Strict, AllStrict, Clean, EscapeMessage, StrictChars;
    MessageIsStrict(m);
    StringStrict("message", EscapeMessage(m));
    TaggedStrict("error", [Entry("message", Str(EscapeMessage(m)))]);
  }

  lemma VmIdStrict(tag: string, id: nat)
    requires Clean(tag)
    ensures Strict(Obj("", TaggedMembers(tag, NumEntry("vm_id", id))))
  {
    assert Clean("vm_id");
    hide Strict, AllStrict, Clean, NumEntry, TaggedMembers;
    NumberStrict("vm_id", id);
    TaggedStrict(tag, NumEntry("vm_id", id));
  }

  lemma ReplyStrict(r: Reply)
    requires Emittable(r)
    ensures Strict(ReplyJson(r)) <==> CleanReply(r)
  {
    hide Strict, Emittable, NumEntry, TaggedMembers, CleanRow, EscapeMessage;
    match r
    case CreatedReply(id) => assert Clean("created"); VmIdStrict("created", id);
    case StateReply(id, st, exit) => StateStrict(id, st, exit);
    case DeletedReply(id) => assert Clean("deleted"); VmIdStrict("deleted", id);
    case ListedReply(rows) => ListedStrict(rows);
    case ImageLoadedReply(len, crc) => LoadedStrict(len, crc);
    case ErrorReply(m) => ErrorStrict(m);
  }

  // ----- reading a reply line --------------------------------------------------------------------

  lemma Associate(w: string, t: string, z: string)
    ensures w + t + z == w + (t + z)
  {}

  /** Any reading of a reply line is the object the reply stands for. */
  lemma OnlyReading(r: Reply, w: string, v: Json, z: string)
    requires Emittable(r) && Blank(w) && Blank(z) && Laid(v) && ReplyLine(r) == w + Text(v) + z
    ensures w == "" && v == ReplyJson(r) && z == "\n"
  {
    hide Text, Laid, ReplyJson, ReplyLine, Emittable, Solid;
    var j := ReplyJson(r);
    var x, y := Text(v) + z, Text(j) + "\n";
    LineIsJson(r);
    ReplyLaid(r);
    SolidStart(v, z);
    SolidStart(j, "\n");
    Associate(w, Text(v), z);
    Associate("", Text(j), "\n");
    assert "" + Text(j) == Text(j);
    assert Ends(z) && Ends("\n");
    hide Ends;
    BlankUnique(w, x, "", y);
    TextUnique(v, z, j, "\n");
  }

  lemma LineInBlanks(r: Reply)
    requires Emittable(r)
    ensures Blank("") && Blank("\n") && ReplyLine(r) == "" + Text(ReplyJson(r)) + "\n"
  {
    hide Text, ReplyJson, ReplyLine, Emittable;
    LineIsJson(r);
    assert "" + Text(ReplyJson(r)) == Text(ReplyJson(r));
  }

  /** Main result: the host reads a reply line exactly when every listed label and path is free
      of control bytes, and then it reads the reply, whatever else the line could be taken for. */
  lemma HostReadsExactly(r: Reply, x: Reply)
    requires Emittable(r)
    ensures Reads(ReplyLine(r), x) <==> CleanReply(r) && x == Seen(r)
  {
    hide Text, Strict, ReplyJson, ReplyLine, Emittable, HostView, CleanReply, Seen;
    ReplyStrict(r);
    ReadBack(r);
    if Reads(ReplyLine(r), x) {
      var w, v, z :| Blank(w) && Blank(z) && Strict(v) && ReplyLine(r) == w + Text(v) + z && HostView(v) == Some(x);
      StrictIsLaid(v);
      OnlyReading(r, w, v, z);
    }
    if CleanReply(r) && x == Seen(r) {
      LineInBlanks(r);
      assert Reads(ReplyLine(r), x);
    }
  }

  /** A raw line, not one the host prints, with any label the scanner takes. */
  function RawCreate(name: string): string {
    Text(Obj("", [Entry("op", Str("create")), Entry("label", Str(name))]))
  }

  lemma CreateAbsorbed(name: string)
    requires PlainText(name)
    ensures var ms := [Entry("op", Str("create")), Entry("label", Str(name))];
      AcceptsAll(ms) && AbsorbAll(ms, WireRequest.NO_FIELDS) == WireRequest.NO_FIELDS.(op := Some("create"), name := Some(name))
  {
    var ms := [Entry("op", Str("create")), Entry("label", Str(name))];
    assert PlainText("create");
    assert ms[1..] == [ms[1]] && ms[1..][1..] == [];
    assert AbsorbAll(ms, WireRequest.NO_FIELDS) == AbsorbAll(ms[1..][1..], WireRequest.NO_FIELDS.(op := Some("create"), name := Some(name)));
  }

  lemma RawCreateDecodes(name: string)
    requires PlainText(name) && |name| <= WireRequest.LABEL_MAX
    ensures WireRequest.Decode(RawCreate(name)) == Ok(WireRequest.Create(name, None, None, None, None))
  {
    var ms := [Entry("op", Str("create")), Entry("label", Str(name))];
    assert RawCreate(name) + "" == RawCreate(name);
    assert PlainText("create") && PlainText("op") && PlainText("label");
    hide WireRequest.Decode, Text, AcceptsAll, AbsorbAll;
    DecodeObject("", ms, "");
    CreateAbsorbed(name);
  }

  function TabRow(state: StateTag): Row { Row(0, "a\tb", state, None, "", None, None, None) }

  lemma TabList(state: StateTag)
    ensures var list := ListedReply([Some(TabRow(state)), None, None, None]);
      Emittable(list) && !CleanReply(list)
  {
    var list := ListedReply([Some(TabRow(state)), None, None, None]);
    assert TabRow(state).name[1] == '\t' && NeedsEscape('\t');
    assert !CleanRow(TabRow(state));
    assert list.rows[0].Some? && list.rows[0].value == TabRow(state);
    assert EmittableRow(TabRow(state));
    hide EmittableRow, CleanRow;
  }

  /** A tab in a label: the kernel takes the create and lists the VM, and no host reads the list. */
  lemma TabLabelHidesTheList(state: StateTag)
    ensures WireRequest.Decode(RawCreate("a\tb")) == Ok(WireRequest.Create("a\tb", None, None, None, None))
    ensures var list := ListedReply([Some(TabRow(state)), None, None, None]);
      Emittable(list) && forall x :: !Reads(ReplyLine(list), x)
  {
    hide WireRequest.Decode, RawCreate, ReplyLine, Reads, Emittable, CleanReply, TabRow;
    RawCreateDecodes("a\tb");
    TabList(state);
    var list := ListedReply([Some(TabRow(state)), None, None, None]);
    forall x
      ensures !Reads(ReplyLine(list), x)
    {
      HostReadsExactly(list, x);
    }
  }
}
