/** The wire as its notes show it: the requests the host prints and the replies the kernel prints. */
module WireSamples {
  import opened Wrappers
  import opened WireGrammar
  import opened WireRequest
  import opened WireHost
  import opened WireReply
  import opened Staging

  lemma Shown(ms: seq<Member>)
    requires ms != []
    ensures Text(Obj("", ms)) == "{" + MembersText(ms) + "}"
  {}

  lemma StrMember(key: string, s: string)
    requires Clean(s)
    ensures MembersText(StrEntry(key, s)) == "\"" + key + "\":\"" + s + "\""
  {
    EscapeClean(s);
    hide Escape;
  }

  lemma NumMember(key: string, n: nat)
    ensures MembersText(NumEntry(key, n)) == "\"" + key + "\":" + Decimal(n)
  {
    hide Decimal;
  }

  /** Two members are joined by a comma. */
  lemma Joined(a: Member, b: Member)
    ensures MembersText([a] + [b]) == MembersText([a]) + "," + MembersText([b])
  {
    hide Text;
    assert ([a] + [b])[1..] == [b];
  }

  lemma Command(op: string, id: nat)
    requires Clean(op)
    ensures Text(Obj("", StrEntry("op", op) + NumEntry("vm_id", id))) == "{\"op\":\"" + op + "\",\"vm_id\":" + Decimal(id) + "}"
  {
    hide Decimal, Escape, MembersText, Text, Clean;
    StrMember("op", op);
    NumMember("vm_id", id);
    Joined(Entry("op", Str(Escape(op))), Entry("vm_id", Literal(Decimal(id))));
    Shown(StrEntry("op", op) + NumEntry("vm_id", id));
    Glued(op, Decimal(id));
  }

  lemma Glued(op: string, n: string)
    ensures "{" + ("\"" + "op" + "\":\"" + op + "\"" + "," + ("\"" + "vm_id" + "\":" + n)) + "}" == "{\"op\":\"" + op + "\",\"vm_id\":" + n + "}"
  {}

  lemma OpsClean()
    ensures Clean("start") && Clean("stop") && Clean("delete") && Clean("list") && StrEntry("op", "list") != []
  {}

  lemma StartShape(id: nat)
    ensures HostText(Start(id)) == "{\"op\":\"start\",\"vm_id\":" + Decimal(id) + "}"
  {
    hide Decimal, Text, MembersText, StrEntry, NumEntry, Clean;
    OpsClean();
    Command("start", id);
  }

  lemma StopShape(id: nat)
    ensures HostText(Stop(id)) == "{\"op\":\"stop\",\"vm_id\":" + Decimal(id) + "}"
  {
    hide Decimal, Text, MembersText, StrEntry, NumEntry, Clean;
    OpsClean();
    Command("stop", id);
  }

  lemma DeleteShape(id: nat)
    ensures HostText(Delete(id)) == "{\"op\":\"delete\",\"vm_id\":" + Decimal(id) + "}"
  {
    hide Decimal, Text, MembersText, StrEntry, NumEntry, Clean;
    OpsClean();
    Command("delete", id);
  }

  lemma ListShape()
    ensures HostText(ListVms) == "{\"op\":\"list\"}"
  {
    hide Text, MembersText, StrEntry, Clean, Escape;
    OpsClean();
    StrMember("op", "list");
    Shown(StrEntry("op", "list"));
    assert "{" + ("\"" + "op" + "\":\"" + "list" + "\"") + "}" == "{\"op\":\"list\"}";
  }

  /** The requests without free text, for every VM number. */
  lemma RequestShapes(id: nat)
    ensures HostText(Start(id)) == "{\"op\":\"start\",\"vm_id\":" + Decimal(id) + "}"
    ensures HostText(Stop(id)) == "{\"op\":\"stop\",\"vm_id\":" + Decimal(id) + "}"
    ensures HostText(Delete(id)) == "{\"op\":\"delete\",\"vm_id\":" + Decimal(id) + "}"
    ensures HostText(ListVms) == "{\"op\":\"list\"}"
  {
    hide *;
    StartShape(id);
    StopShape(id);
    DeleteShape(id);
    ListShape();
  }

  // ----- requests with text -----------------------------------------------------------------------

  function Quoted(s: string): string { "\"" + s + "\"" }

  /** One member of an object: the quoted name, a colon, the value. */
  function Named(key: string, value: string): string { "\"" + key + "\":" + value }

  lemma {:induction false} Chained(a: seq<Member>, b: seq<Member>)
    requires a != [] && b != []
    ensures MembersText(a + b) == MembersText(a) + "," + MembersText(b)
  {
    hide Text;
    if |a| == 1 {
      assert (a + b)[1..] == b;
    } else {
      assert (a + b)[1..] == a[1..] + b;
      Chained(a[1..], b);
    }
  }

  lemma StrNamed(key: string, s: string)
    requires Clean(s)
    ensures |StrEntry(key, s)| == 1 && MembersText(StrEntry(key, s)) == Named(key, Quoted(s))
  {
    StrMember(key, s);
    hide Escape, MembersText, Clean;
    assert "\"" + key + "\":\"" + s + "\"" == "\"" + key + "\":" + ("\"" + s + "\"");
  }

  lemma NumNamed(key: string, n: nat)
    ensures |NumEntry(key, n)| == 1 && MembersText(NumEntry(key, n)) == Named(key, Decimal(n))
  {
    NumMember(key, n);
    hide Decimal;
  }

  lemma TextTagsClean()
    ensures Clean("create") && Clean("image_load")
  {}

  /** A create with everything, in the order in which the host prints its members. */
  lemma CreateShape(name: string, path: string, cpus: nat, mem: nat, crc: nat)
    requires Clean(name) && Clean(path)
    ensures HostText(Create(name, Some(path), Some(cpus), Some(mem), Some(crc))) ==
      "{" + (Named("op", Quoted("create")) + "," + Named("label", Quoted(name)) + "," + Named("image_path", Quoted(path))
             + "," + Named("cpu_count", Decimal(cpus)) + "," + Named("memory_mib", Decimal(mem))
             + "," + Named("boot_blob_crc32c", Decimal(crc))) + "}"
  {
    hide Text, MembersText, StrEntry, NumEntry, Clean, Decimal, Named, Quoted;
    TextTagsClean();
    StrNamed("op", "create");
    StrNamed("label", name);
    StrNamed("image_path", path);
    NumNamed("cpu_count", cpus);
    NumNamed("memory_mib", mem);
    NumNamed("boot_blob_crc32c", crc);
    var two := StrEntry("op", "create") + StrEntry("label", name);
    var three := two + StrEntry("image_path", path);
    var four := three + NumEntry("cpu_count", cpus);
    var five := four + NumEntry("memory_mib", mem);
    Chained(StrEntry("op", "create"), StrEntry("label", name));
    Chained(two, StrEntry("image_path", path));
    Chained(three, NumEntry("cpu_count", cpus));
    Chained(four, NumEntry("memory_mib", mem));
    Chained(five, NumEntry("boot_blob_crc32c", crc));
    Shown(five + NumEntry("boot_blob_crc32c", crc));
  }

  /** A create with nothing but a label. */
  lemma BareCreateShape(name: string)
    requires Clean(name)
    ensures HostText(Create(name, None, None, None, None)) ==
      "{" + (Named("op", Quoted("create")) + "," + Named("label", Quoted(name))) + "}"
  {
    hide Text, MembersText, StrEntry, NumEntry, Clean, Decimal, Named, Quoted;
    TextTagsClean();
    StrNamed("op", "create");
    StrNamed("label", name);
    var two := StrEntry("op", "create") + StrEntry("label", name);
    Chained(StrEntry("op", "create"), StrEntry("label", name));
    assert two + [] == two;
    Shown(two);
  }

  lemma UploadShape(len: nat, crc: nat, hex: string)
    requires Clean(hex)
    ensures HostText(ImageLoad(len, crc, hex)) ==
      "{" + (Named("op", Quoted("image_load")) + "," + Named("len", Decimal(len)) + "," + Named("crc32c", Decimal(crc))
             + "," + Named("bytes_hex", Quoted(hex))) + "}"
  {
    hide Text, MembersText, StrEntry, NumEntry, Clean, Decimal, Named, Quoted;
    TextTagsClean();
    StrNamed("op", "image_load");
    NumNamed("len", len);
    NumNamed("crc32c", crc);
    StrNamed("bytes_hex", hex);
    var two := StrEntry("op", "image_load") + NumEntry("len", len);
    var three := two + NumEntry("crc32c", crc);
    Chained(StrEntry("op", "image_load"), NumEntry("len", len));
    Chained(two, NumEntry("crc32c", crc));
    Chained(three, StrEntry("bytes_hex", hex));
    Shown(three + StrEntry("bytes_hex", hex));
  }

  // ----- digits and replies ---------------------------------------------------------------------------

  lemma Digits()
    ensures Decimal(0) == "0" && Decimal(3) == "3" && Decimal(12) == "12" && Decimal(4096) == "4096"
  {
    assert Decimal(1) == "1" && Decimal(4) == "4" && Decimal(40) == "40" && Decimal(409) == "409";
  }

  lemma CreatedShape()
    ensures ReplyLine(CreatedReply(3)) == "{\"reply\":\"created\",\"vm_id\":3}\n"
  {
    Digits();
    hide Decimal;
  }

  lemma HaltedFront()
    ensures StateInto("", 3, Halted) == "{\"reply\":\"state\",\"vm_id\":3,\"state\":\"halted\""
  {
    Digits();
    hide Decimal;
  }

  lemma HaltedShape()
    ensures ReplyLine(StateReply(3, Halted, Some(12))) == "{\"reply\":\"state\",\"vm_id\":3,\"state\":\"halted\",\"last_exit\":12}\n"
  {
    Digits();
    HaltedFront();
    hide Decimal, StateInto;
    var front := "{\"reply\":\"state\",\"vm_id\":3,\"state\":\"halted\"";
    assert ReplyLine(StateReply(3, Halted, Some(12))) == front + ",\"last_exit\":" + "12" + "}" + "\n";
  }

  lemma StoppedShape()
    ensures ReplyLine(StateReply(3, Stopped, None)) == "{\"reply\":\"state\",\"vm_id\":3,\"state\":\"stopped\"}\n"
  {
    Digits();
    hide Decimal;
  }

  lemma DeletedShape()
    ensures ReplyLine(DeletedReply(3)) == "{\"reply\":\"deleted\",\"vm_id\":3}\n"
  {
    Digits();
    hide Decimal;
  }

  lemma LoadedShape()
    ensures ReplyLine(ImageLoadedReply(4096, 12)) == "{\"reply\":\"image_loaded\",\"len\":4096,\"crc32c\":12}\n"
  {
    Digits();
    hide Decimal;
  }

  lemma EmptyShape()
    ensures ReplyLine(ListedReply([None, None, None, None])) == "{\"reply\":\"listed\",\"rows\":[]}\n"
  {
    assert RowsInto("{\"reply\":\"listed\",\"rows\":[", [None, None, None, None], 4, true) == "{\"reply\":\"listed\",\"rows\":[";
    assert "" + "{\"reply\":\"listed\",\"rows\":[" == "{\"reply\":\"listed\",\"rows\":[";
  }

  /** The replies, at the values the notes use. */
  lemma ReplyShapes()
    ensures ReplyLine(CreatedReply(3)) == "{\"reply\":\"created\",\"vm_id\":3}\n"
    ensures ReplyLine(StateReply(3, Halted, Some(12))) == "{\"reply\":\"state\",\"vm_id\":3,\"state\":\"halted\",\"last_exit\":12}\n"
    ensures ReplyLine(StateReply(3, Stopped, None)) == "{\"reply\":\"state\",\"vm_id\":3,\"state\":\"stopped\"}\n"
    ensures ReplyLine(DeletedReply(3)) == "{\"reply\":\"deleted\",\"vm_id\":3}\n"
    ensures ReplyLine(ImageLoadedReply(4096, 12)) == "{\"reply\":\"image_loaded\",\"len\":4096,\"crc32c\":12}\n"
    ensures ReplyLine(ListedReply([None, None, None, None])) == "{\"reply\":\"listed\",\"rows\":[]}\n"
  {
    hide *;
    CreatedShape();
    HaltedShape();
    StoppedShape();
    DeletedShape();
    LoadedShape();
    EmptyShape();
  }

  lemma HexSample()
    ensures HexOf([0xDE, 0xAD, 0xBE, 0xEF]) == "deadbeef"
    ensures BytesOf("deadbeef") == Some([0xDE, 0xAD, 0xBE, 0xEF])
  {
    var data: seq<Byte> := [0xDE, 0xAD, 0xBE, 0xEF];
    assert data[1..] == [0xAD, 0xBE, 0xEF];
    assert data[1..][1..] == [0xBE, 0xEF];
    assert data[1..][1..][1..] == [0xEF];
    assert data[1..][1..][1..][1..] == [];
    HexRoundTrip(data);
  }
}
