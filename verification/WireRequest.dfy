/** Request frames: the kernel's decoder, and every text that decodes. */
module WireRequest {
  import opened Wrappers
  import opened WireScan
  import opened WireGrammar

  const LABEL_MAX: nat := 32
  const IMAGE_PATH_MAX: nat := 128

  datatype Request =
    | Create(name: string, imagePath: Option<string>, cpuCount: Option<nat>, memoryMib: Option<nat>, bootCrc: Option<nat>)
    | Start(vmId: nat)
    | Stop(vmId: nat)
    | Delete(vmId: nat)
    | ListVms
    | ImageLoad(len: nat, crc: nat, bytesHex: string)

  /** What the decoder has collected so far. */
  datatype Fields = Fields(op: Option<string>, name: Option<string>, vmId: Option<nat>, imagePath: Option<string>,
                           cpuCount: Option<nat>, memoryMib: Option<nat>, bootCrc: Option<nat>,
                           len: Option<nat>, crc: Option<nat>, bytesHex: Option<string>)

  /** The keys the decoder knows; every other key's value is skipped. */
  datatype Field = OpField | LabelField | VmIdField | ImagePathField | CpuCountField | MemoryMibField
                 | BootCrcField | LenField | CrcField | BytesHexField | UnknownField

  function FieldOf(key: string): Field {
    if key == "op" then OpField
    else if key == "label" then LabelField
    else if key == "vm_id" then VmIdField
    else if key == "image_path" then ImagePathField
    else if key == "cpu_count" then CpuCountField
    else if key == "memory_mib" then MemoryMibField
    else if key == "boot_blob_crc32c" then BootCrcField
    else if key == "len" then LenField
    else if key == "crc32c" then CrcField
    else if key == "bytes_hex" then BytesHexField
    else UnknownField
  }

  const NO_FIELDS: Fields := Fields(None, None, None, None, None, None, None, None, None, None)

  // ----- the decoder as a function -------------------------------------------------

  /** An optional string or number: null stands for absent. */
  function ScanNullable<T>(buf: string, p: nat, other: Parse<T>): (r: Parse<Option<T>>)
  {
    if NullAt(buf, p) then Parsed(None, p + 4)
    else match other case Failed => Failed case Parsed(v, q) => Parsed(Some(v), q)
  }

  /** The value of a field, from behind the colon. */
  function ParseField(buf: string, pos: nat, field: Field, f: Fields): (r: Parse<Fields>)
    requires pos <= |buf|
    ensures r.Parsed? ==> pos <= r.pos <= |buf|
  {
    var p := SkipWs(buf, pos);
    match field
    case OpField => (match ScanString(buf, p) case Failed => Failed case Parsed(v, q) => Parsed(f.(op := Some(v)), q))
    case LabelField => (match ScanString(buf, p) case Failed => Failed case Parsed(v, q) => Parsed(f.(name := Some(v)), q))
    case VmIdField => (match ScanNumber(buf, p, U32_LIMIT) case Failed => Failed case Parsed(v, q) => Parsed(f.(vmId := Some(v)), q))
    case ImagePathField => (match ScanNullable(buf, p, ScanString(buf, p)) case Failed => Failed case Parsed(v, q) => Parsed(f.(imagePath := v), q))
    case CpuCountField => (match ScanNullable(buf, p, ScanNumber(buf, p, U32_LIMIT)) case Failed => Failed case Parsed(v, q) => Parsed(f.(cpuCount := v), q))
    case MemoryMibField => (match ScanNullable(buf, p, ScanNumber(buf, p, U64_LIMIT)) case Failed => Failed case Parsed(v, q) => Parsed(f.(memoryMib := v), q))
    case BootCrcField => (match ScanNullable(buf, p, ScanNumber(buf, p, U32_LIMIT)) case Failed => Failed case Parsed(v, q) => Parsed(f.(bootCrc := v), q))
    case LenField => (match ScanNumber(buf, p, U32_LIMIT) case Failed => Failed case Parsed(v, q) => Parsed(f.(len := Some(v)), q))
    case CrcField => (match ScanNumber(buf, p, U32_LIMIT) case Failed => Failed case Parsed(v, q) => Parsed(f.(crc := Some(v)), q))
    case BytesHexField => (match ScanString(buf, p) case Failed => Failed case Parsed(v, q) => Parsed(f.(bytesHex := Some(v)), q))
    case UnknownField => (match SkipValue(buf, pos) case Failed => Failed case Parsed(_, q) => Parsed(f, q))
  }

  /** After the value: a comma, or the closing brace. */
  function CloseMember(buf: string, value: Parse<Fields>): (r: Parse<(Fields, bool)>)
    requires value.Parsed? ==> value.pos <= |buf|
    ensures r.Parsed? ==> value.Parsed? && value.pos < r.pos <= |buf|
  {
    match value
    case Failed => Failed
    case Parsed(f, q) =>
      var e := SkipWs(buf, q);
      if e < |buf| && (buf[e] == ',' || buf[e] == '}') then Parsed((f, buf[e] == ','), e + 1) else Failed
  }

  /** One turn of the decoder's loop: the fields so far and whether another member must follow. */
  function ParseMember(buf: string, pos: nat, f: Fields): (r: Parse<(Fields, bool)>)
    requires pos <= |buf|
    ensures r.Parsed? ==> pos < r.pos <= |buf|
  {
    var p := SkipWs(buf, pos);
    if p < |buf| && buf[p] == '}' then Parsed((f, false), p + 1)
    else
      match ScanString(buf, p)
      case Failed => Failed
      case Parsed(key, q) =>
        var c := SkipWs(buf, q);
        if c >= |buf| || buf[c] != ':' then Failed
        else
          CloseMember(buf, ParseField(buf, c + 1, FieldOf(key), f))
  }

  /** The members of the object from pos on, up to and including the closing brace. */
  function DecodeFrom(buf: string, pos: nat, f: Fields): (r: Parse<Fields>)
    requires pos <= |buf|
    ensures r.Parsed? ==> pos < r.pos <= |buf|
    decreases |buf| - pos
  {
    match ParseMember(buf, pos, f)
    case Failed => Failed
    case Parsed(m, q) => if m.1 then DecodeFrom(buf, q, m.0) else Parsed(m.0, q)
  }

  /** Which request the collected fields make, if any. */
  function Assemble(f: Fields): Result<Request, HyperError> {
    match f.op
    case None => Err(Invalid)
    case Some(op) =>
      if op == "create" then
        if f.name.None? || |f.name.value| > LABEL_MAX then Err(Invalid)
        else if f.imagePath.Some? && |f.imagePath.value| > IMAGE_PATH_MAX then Err(Invalid)
        else Ok(Create(f.name.value, f.imagePath, f.cpuCount, f.memoryMib, f.bootCrc))
      else if op == "start" then (if f.vmId.None? then Err(Invalid) else Ok(Start(f.vmId.value)))
      else if op == "stop" then (if f.vmId.None? then Err(Invalid) else Ok(Stop(f.vmId.value)))
      else if op == "delete" then (if f.vmId.None? then Err(Invalid) else Ok(Delete(f.vmId.value)))
      else if op == "list" then Ok(ListVms)
      else if op == "image_load" then
        if f.len.None? || f.crc.None? || f.bytesHex.None? then Err(Invalid)
        else if |f.bytesHex.value| != 2 * f.len.value then Err(Invalid)
        else Ok(ImageLoad(f.len.value, f.crc.value, f.bytesHex.value))
      else Err(Invalid)
  }

  function Decode(frame: string): Result<Request, HyperError> {
    if frame == "" || frame[0] != '{' then Err(Invalid)
    else
      match DecodeFrom(frame, 1, NO_FIELDS)
      case Failed => Err(Invalid)
      case Parsed(f, p) => if SkipWs(frame, p) < |frame| then Err(Invalid) else Assemble(f)
  }

  // ----- the decoder as the kernel runs it --------------------------------------------

  method OptionalString(s: Scanner) returns (r: Result<Option<string>, HyperError>)
    requires s.Valid()
    modifies s
    ensures s.Valid() && Did(r, s.pos, ScanNullable(s.buf, old(s.pos), ScanString(s.buf, old(s.pos))))
  {
    var n := s.TryConsumeNull();
    if n {
      return Ok(None);
    }
    var v := s.String();
    r := if v.Err? then Err(v.error) else Ok(Some(v.value));
  }

  method OptionalNumber(s: Scanner, limit: nat) returns (r: Result<Option<nat>, HyperError>)
    requires s.Valid() && limit > 0
    modifies s
    ensures s.Valid() && Did(r, s.pos, ScanNullable(s.buf, old(s.pos), ScanNumber(s.buf, old(s.pos), limit)))
  {
    var n := s.TryConsumeNull();
    if n {
      return Ok(None);
    }
    var v := s.Number(limit);
    r := if v.Err? then Err(v.error) else Ok(Some(v.value));
  }

  /** The body of the decoder's match on the key. */
  method ReadField(s: Scanner, field: Field, f: Fields) returns (r: Result<Fields, HyperError>)
    requires s.Valid()
    modifies s
    ensures s.Valid() && Did(r, s.pos, ParseField(s.buf, old(s.pos), field, f))
  {
    hide ScanNullable, ScanString, ScanNumber, SkipValue, SkipWs;
    if field == OpField {
      s.SkipWhitespace();
      var v := s.String();
      r := if v.Err? then Err(v.error) else Ok(f.(op := Some(v.value)));
    } else if field == LabelField {
      s.SkipWhitespace();
      var v := s.String();
      r := if v.Err? then Err(v.error) else Ok(f.(name := Some(v.value)));
    } else if field == VmIdField {
      s.SkipWhitespace();
      var v := s.Number(U32_LIMIT);
      r := if v.Err? then Err(v.error) else Ok(f.(vmId := Some(v.value)));
    } else if field == ImagePathField {
      s.SkipWhitespace();
      var v := OptionalString(s);
      r := if v.Err? then Err(v.error) else Ok(f.(imagePath := v.value));
    } else if field == CpuCountField {
      s.SkipWhitespace();
      var v := OptionalNumber(s, U32_LIMIT);
      r := if v.Err? then Err(v.error) else Ok(f.(cpuCount := v.value));
    } else if field == MemoryMibField {
      s.SkipWhitespace();
      var v := OptionalNumber(s, U64_LIMIT);
      r := if v.Err? then Err(v.error) else Ok(f.(memoryMib := v.value));
    } else if field == BootCrcField {
      s.SkipWhitespace();
      var v := OptionalNumber(s, U32_LIMIT);
      r := if v.Err? then Err(v.error) else Ok(f.(bootCrc := v.value));
    } else if field == LenField {
      s.SkipWhitespace();
      var v := s.Number(U32_LIMIT);
      r := if v.Err? then Err(v.error) else Ok(f.(len := Some(v.value)));
    } else if field == CrcField {
      s.SkipWhitespace();
      var v := s.Number(U32_LIMIT);
      r := if v.Err? then Err(v.error) else Ok(f.(crc := Some(v.value)));
    } else if field == BytesHexField {
      s.SkipWhitespace();
      var v := s.String();
      r := if v.Err? then Err(v.error) else Ok(f.(bytesHex := Some(v.value)));
    } else {
      var v := s.SkipAnyValue();
      r := if v.Err? then Err(v.error) else Ok(f);
    }
  }

  method ReadMember(s: Scanner, f: Fields) returns (r: Result<(Fields, bool), HyperError>)
    requires s.Valid()
    modifies s
    ensures s.Valid() && Did(r, s.pos, ParseMember(s.buf, old(s.pos), f))
  {
    hide ParseField, FieldOf, ScanString, SkipWs;
    s.SkipWhitespace();
    var c := s.Peek();
    if c == Some('}') {
      var close := s.Expect('}');
      return Ok((f, false));
    }
    var key := s.String();
    if key.Err? {
      return Err(key.error);
    }
    s.SkipWhitespace();
    var colon := s.Expect(':');
    if colon.Err? {
      return Err(colon.error);
    }
    var g := ReadField(s, FieldOf(key.value), f);
    if g.Err? {
      return Err(g.error);
    }
    s.SkipWhitespace();
    c := s.Peek();
    if c == Some(',') {
      var comma := s.Expect(',');
      return Ok((g.value, true));
    }
    var close := s.Expect('}');
    r := if close.Err? then Err(close.error) else Ok((g.value, false));
  }

  method DecodeRequest(frame: string) returns (r: Result<Request, HyperError>)
    ensures r == Decode(frame)
  {
    hide ParseMember, SkipWs, Assemble;
    var s := new Scanner(frame);
    var open := s.Expect('{');
    if open.Err? {
      return Err(open.error);
    }
    var f := NO_FIELDS;
    var more := true;
    while more
      invariant s.Valid() && s.buf == frame && 1 <= s.pos
      invariant DecodeFrom(frame, 1, NO_FIELDS) == if more then DecodeFrom(frame, s.pos, f) else Parsed(f, s.pos)
      decreases more, |frame| - s.pos
    {
      var m := ReadMember(s, f);
      if m.Err? {
        return Err(m.error);
      }
      f, more := m.value.0, m.value.1;
    }
    s.SkipWhitespace();
    if s.pos < |frame| {
      return Err(Invalid);
    }
    r := Assemble(f);
  }
}
