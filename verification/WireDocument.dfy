/** What the decoder makes of a whole request line: for every escape-free JSON object, in any
    field order, with whitespace, nulls, repeated and unknown fields; and for every line the
    host prints, escapes included. */
module WireDocument {
  import opened Wrappers
  import opened WireScan
  import opened WireGrammar
  import opened WireRequest

  // ----- the meaning of a member, without a scanner ----------------------------------

  predicate AllDigits(s: string) { forall k :: 0 <= k < |s| ==> IsDigit(s[k]) }

  predicate IsNumeral(v: Json, limit: nat) {
    v.Literal? && AllDigits(v.text) && DecimalValue(v.text) < limit
  }

  const JSON_NULL: Json := Literal("null")

  /** Which values a field takes. */
  predicate Accepts(field: Field, v: Json) {
    WellFormed(v) &&
    match field
    case OpField | LabelField | BytesHexField => v.Str?
    case VmIdField | LenField | CrcField => IsNumeral(v, U32_LIMIT)
    case ImagePathField => v.Str? || v == JSON_NULL
    case CpuCountField | BootCrcField => v == JSON_NULL || IsNumeral(v, U32_LIMIT)
    case MemoryMibField => v == JSON_NULL || IsNumeral(v, U64_LIMIT)
    case UnknownField => true
  }

  function OptionalText(v: Json): Option<string> { if v.Str? then Some(v.chars) else None }

  function OptionalNumeral(v: Json): Option<nat> {
    if v.Literal? && AllDigits(v.text) then Some(DecimalValue(v.text)) else None
  }

  /** A field's value replaces what an earlier field of the same name left. */
  function Absorb(field: Field, v: Json, f: Fields): Fields {
    match field
    case OpField => f.(op := OptionalText(v))
    case LabelField => f.(name := OptionalText(v))
    case VmIdField => f.(vmId := OptionalNumeral(v))
    case ImagePathField => f.(imagePath := OptionalText(v))
    case CpuCountField => f.(cpuCount := OptionalNumeral(v))
    case MemoryMibField => f.(memoryMib := OptionalNumeral(v))
    case BootCrcField => f.(bootCrc := OptionalNumeral(v))
    case LenField => f.(len := OptionalNumeral(v))
    case CrcField => f.(crc := OptionalNumeral(v))
    case BytesHexField => f.(bytesHex := OptionalText(v))
    case UnknownField => f
  }

  function AbsorbAll(ms: seq<Member>, f: Fields): Fields {
    if ms == [] then f else AbsorbAll(ms[1..], Absorb(FieldOf(ms[0].key), ms[0].value, f))
  }

  predicate AcceptsAll(ms: seq<Member>) {
    forall m :: m in ms ==> Accepts(FieldOf(m.key), m.value)
  }

  /** The request an object stands for. */
  function Meaning(ms: seq<Member>): Result<Request, HyperError> {
    if AcceptsAll(ms) then Assemble(AbsorbAll(ms, NO_FIELDS)) else Err(Invalid)
  }

  // ----- members the theorem ranges over ------------------------------------------------

  /** A string body that meets a backslash before any quote. */
  predicate Escaped(s: string) {
    exists k :: 0 <= k < |s| && s[k] == '\\' && PlainText(s[..k])
  }

  /** Any escape-free value, or a string with escapes. */
  predicate Printable(v: Json) {
    WellFormed(v) || (v.Str? && Escaped(v.chars))
  }

  predicate MemberOk(m: Member) {
    Blank(m.before) && PlainText(m.key) && Blank(m.afterKey) && Blank(m.beforeValue) && Printable(m.value) && Blank(m.after)
  }

  // ----- scanning strings and numbers inside a buffer --------------------------------------

  lemma {:induction false} StringRestEscaped(pre: string, s: string, suf: string, start: nat, j: nat, k: nat)
    requires k < |s| && s[k] == '\\' && PlainText(s[..k]) && j <= k && start == |pre| + 1
    ensures StringRest(pre + Quoted(s) + suf, start, start + j) == Failed
    decreases k - j
  {
    assert (pre + Quoted(s) + suf)[start + j] == s[j];
    if j < k {
      assert s[j] == s[..k][j];
      StringRestEscaped(pre, s, suf, start, j + 1, k);
    }
  }

  lemma ScanStringEscaped(pre: string, s: string, suf: string)
    requires Escaped(s)
    ensures ScanString(pre + Quoted(s) + suf, |pre|) == Failed
  {
    var k :| 0 <= k < |s| && s[k] == '\\' && PlainText(s[..k]);
    assert (pre + Quoted(s) + suf)[|pre|] == '\"';
    StringRestEscaped(pre, s, suf, |pre| + 1, 0, k);
  }

  /** A string is read exactly when the value is a plain string. */
  lemma ScanStringExact(pre: string, v: Json, suf: string)
    requires Printable(v)
    ensures ScanString(pre + Text(v) + suf, |pre|)
         == if v.Str? && WellFormed(v) then Parsed(v.chars, |pre| + |Text(v)|) else Failed
  {
    if v.Str? {
      if WellFormed(v) { ScanStringPlain(pre, v.chars, suf); } else { ScanStringEscaped(pre, v.chars, suf); }
    } else {
      assert Text(v) != "" && Text(v)[0] != '\"';
      assert (pre + Text(v) + suf)[|pre|] == Text(v)[0];
    }
  }

  /** The scanner stopped in the middle of a literal: no member can end here. */
  ghost predicate Stuck(buf: string, q: nat) {
    q < |buf| && !IsDelimiter(buf[q])
  }

  lemma {:induction false} DigitsEndInLiteral(pre: string, t: string, suf: string, k: nat)
    requires k <= |t| && Ends(suf) && AllDigits(t[..k])
    ensures var d := DigitsEnd(pre + t + suf, |pre| + k) - |pre|;
      d <= |t| && AllDigits(t[..d]) && (d < |t| ==> !IsDigit(t[d]))
    decreases |t| - k
  {
    var buf := pre + t + suf;
    if k < |t| {
      assert buf[|pre| + k] == t[k];
      if IsDigit(t[k]) {
        assert t[..k + 1] == t[..k] + [t[k]];
        DigitsEndInLiteral(pre, t, suf, k + 1);
      }
    } else if suf != "" {
      assert buf[|pre| + k] == suf[0];
    }
  }

  lemma ScanLiteralNumber(pre: string, t: string, suf: string, limit: nat)
    requires LiteralText(t) && Ends(suf)
    ensures var r := ScanNumber(pre + t + suf, |pre|, limit);
      if AllDigits(t) && DecimalValue(t) < limit then r == Parsed(DecimalValue(t), |pre| + |t|)
      else r.Failed? || Stuck(pre + t + suf, r.pos)
  {
    hide DigitsEnd, DecimalValue;
    var buf := pre + t + suf;
    DigitsEndInLiteral(pre, t, suf, 0);
    var d := DigitsEnd(buf, |pre|) - |pre|;
    if d < |t| {
      assert buf[|pre| + d] == t[d] && !AllDigits(t);
    } else {
      assert t[..d] == t;
      assert buf[|pre|..|pre| + d] == t;
    }
  }

  lemma ScanNumberExact(pre: string, v: Json, suf: string, limit: nat)
    requires Printable(v) && Ends(suf)
    ensures var r := ScanNumber(pre + Text(v) + suf, |pre|, limit);
      if IsNumeral(v, limit) && WellFormed(v) then r == Parsed(DecimalValue(v.text), |pre| + |Text(v)|)
      else r.Failed? || Stuck(pre + Text(v) + suf, r.pos)
  {
    if v.Literal? {
      ScanLiteralNumber(pre, v.text, suf, limit);
    } else {
      var buf := pre + Text(v) + suf;
      assert Text(v) != "" && !IsDigit(Text(v)[0]);
      assert buf[|pre|] == Text(v)[0];
      assert DigitsEnd(buf, |pre|) == |pre|;
    }
  }

  lemma NullAtExact(pre: string, v: Json, suf: string)
    requires Printable(v) && Ends(suf)
    ensures var buf := pre + Text(v) + suf;
      NullAt(buf, |pre|) ==> v.Literal? && !AllDigits(v.text) && (v == JSON_NULL || Stuck(buf, |pre| + 4))
    ensures v == JSON_NULL ==> NullAt(pre + Text(v) + suf, |pre|)
  {
    var t := Text(v);
    var buf := pre + t + suf;
    if v == JSON_NULL {
      assert buf[|pre|..|pre| + 4] == t;
      assert !IsDigit(v.text[0]);
    } else if NullAt(buf, |pre|) {
      var w := buf[|pre|..|pre| + 4];
      assert t != "" && t[0] == buf[|pre|] == w[0] == 'n';
      assert v.Literal? && !IsDigit(v.text[0]);
      var j := if |t| < 4 then |t| else 3;
      assert buf[|pre| + j] == w[j];
      assert t[..4] == w;
      if |t| > 4 {
        assert buf[|pre| + 4] == t[4];
      }
    }
  }

  // ----- one member -------------------------------------------------------------------------

  /** The position where the value ends, or an outcome no member survives. */
  ghost predicate Read<T>(buf: string, r: Parse<T>, ok: bool, value: T, end: nat) {
    if ok then r == Parsed(value, end) else r.Failed? || Stuck(buf, r.pos)
  }

  lemma NullableExact<T>(pre: string, v: Json, suf: string, other: Parse<T>, ok: bool, value: T)
    requires Printable(v) && Ends(suf)
    requires v != JSON_NULL ==> Read(pre + Text(v) + suf, other, ok, value, |pre| + |Text(v)|)
    requires ok ==> v.Str? || (v.Literal? && AllDigits(v.text))
    ensures Read(pre + Text(v) + suf, ScanNullable(pre + Text(v) + suf, |pre|, other), ok || v == JSON_NULL,
                 if v == JSON_NULL then None else Some(value), |pre| + |Text(v)|)
  {
    NullAtExact(pre, v, suf);
  }

  lemma TextFieldExact(pre: string, w: string, field: Field, v: Json, suf: string, f: Fields)
    requires Blank(w) && Printable(v) && Ends(suf)
    requires field.OpField? || field.LabelField? || field.BytesHexField?
    ensures Read(pre + w + Text(v) + suf, ParseField(pre + w + Text(v) + suf, |pre|, field, f),
                 Accepts(field, v), Absorb(field, v, f), |pre| + |w| + |Text(v)|)
  {
    ValueStart(pre, w, v, suf);
    ScanStringExact(pre + w, v, suf);
    hide ScanString, ScanNumber, SkipValue, ScanNullable, SkipWs, Text, WellFormed, DecimalValue, AllDigits;
  }

  lemma NumberFieldExact(pre: string, w: string, field: Field, v: Json, suf: string, f: Fields)
    requires Blank(w) && Printable(v) && Ends(suf)
    requires field.VmIdField? || field.LenField? || field.CrcField?
    ensures Read(pre + w + Text(v) + suf, ParseField(pre + w + Text(v) + suf, |pre|, field, f),
                 Accepts(field, v), Absorb(field, v, f), |pre| + |w| + |Text(v)|)
  {
    ValueStart(pre, w, v, suf);
    ScanNumberExact(pre + w, v, suf, U32_LIMIT);
    hide ScanString, ScanNumber, SkipValue, ScanNullable, SkipWs, Text, WellFormed, DecimalValue, AllDigits;
  }

  lemma NullableTextFieldExact(pre: string, w: string, field: Field, v: Json, suf: string, f: Fields)
    requires Blank(w) && Printable(v) && Ends(suf)
    requires field.ImagePathField?
    ensures Read(pre + w + Text(v) + suf, ParseField(pre + w + Text(v) + suf, |pre|, field, f),
                 Accepts(field, v), Absorb(field, v, f), |pre| + |w| + |Text(v)|)
  {
    ValueStart(pre, w, v, suf);
    ScanStringExact(pre + w, v, suf);
    NullableExact(pre + w, v, suf, ScanString(pre + w + Text(v) + suf, |pre| + |w|),
                  v.Str? && WellFormed(v), if v.Str? then v.chars else "");
    hide ScanString, ScanNumber, SkipValue, ScanNullable, SkipWs, Text, WellFormed, DecimalValue, AllDigits;
  }

  lemma NullableNumberFieldExact(pre: string, w: string, field: Field, v: Json, suf: string, f: Fields)
    requires Blank(w) && Printable(v) && Ends(suf)
    requires field.CpuCountField? || field.MemoryMibField? || field.BootCrcField?
    ensures Read(pre + w + Text(v) + suf, ParseField(pre + w + Text(v) + suf, |pre|, field, f),
                 Accepts(field, v), Absorb(field, v, f), |pre| + |w| + |Text(v)|)
  {
    var limit := if field.MemoryMibField? then U64_LIMIT else U32_LIMIT;
    ValueStart(pre, w, v, suf);
    NullableNumeralExact(pre + w, v, suf, limit);
    hide ScanNumber, ScanNullable, SkipWs, Text, WellFormed, OptionalNumeral, IsNumeral, Stuck;
  }

  lemma NullableNumeralExact(pre: string, v: Json, suf: string, limit: nat)
    requires Printable(v) && Ends(suf) && limit > 0
    ensures Read(pre + Text(v) + suf, ScanNullable(pre + Text(v) + suf, |pre|, ScanNumber(pre + Text(v) + suf, |pre|, limit)),
                 WellFormed(v) && (v == JSON_NULL || IsNumeral(v, limit)), OptionalNumeral(v), |pre| + |Text(v)|)
  {
    ScanNumberExact(pre, v, suf, limit);
    if v == JSON_NULL {
      assert !IsDigit(v.text[0]);
    }
    var ok := IsNumeral(v, limit) && WellFormed(v);
    hide ScanNumber, ScanNullable, Text, DecimalValue, AllDigits;
    NullableExact(pre, v, suf, ScanNumber(pre + Text(v) + suf, |pre|, limit), ok, if ok then DecimalValue(v.text) else 0);
  }

  lemma UnknownFieldExact(pre: string, w: string, field: Field, v: Json, suf: string, f: Fields)
    requires Blank(w) && Printable(v) && Ends(suf)
    requires field.UnknownField?
    ensures Read(pre + w + Text(v) + suf, ParseField(pre + w + Text(v) + suf, |pre|, field, f),
                 Accepts(field, v), Absorb(field, v, f), |pre| + |w| + |Text(v)|)
  {
    var buf := pre + w + Text(v) + suf;
    if WellFormed(v) {
      SkipValueExact(pre, w, v, suf);
    } else {
      ValueStart(pre, w, v, suf);
      ScanStringExact(pre + w, v, suf);
      SkipFromBlank(buf, |pre|, |pre| + |w|);
      assert buf[|pre| + |w|] == '\"';
      assert SkipValue(buf, |pre| + |w|).Failed?;
    }
    hide ScanString, ScanNumber, SkipValue, ScanNullable, SkipWs, Text, WellFormed, DecimalValue, AllDigits;
  }

  /** Reading a field's value: exactly the accepted values are read, and with their meaning. */
  lemma FieldExact(pre: string, w: string, field: Field, v: Json, suf: string, f: Fields)
    requires Blank(w) && Printable(v) && Ends(suf)
    ensures Read(pre + w + Text(v) + suf, ParseField(pre + w + Text(v) + suf, |pre|, field, f),
                 Accepts(field, v), Absorb(field, v, f), |pre| + |w| + |Text(v)|)
  {
    hide ParseField, Read, Absorb, Accepts, Text, Printable;
    if field.UnknownField? { UnknownFieldExact(pre, w, field, v, suf, f); }
    else if field.OpField? || field.LabelField? || field.BytesHexField? { TextFieldExact(pre, w, field, v, suf, f); }
    else if field.VmIdField? || field.LenField? || field.CrcField? { NumberFieldExact(pre, w, field, v, suf, f); }
    else if field.ImagePathField? { NullableTextFieldExact(pre, w, field, v, suf, f); }
    else { NullableNumberFieldExact(pre, w, field, v, suf, f); }
  }

  lemma ValueStart(pre: string, w: string, v: Json, suf: string)
    requires Blank(w) && Printable(v)
    ensures SkipWs(pre + w + Text(v) + suf, |pre|) == |pre| + |w|
  {
    var t := Text(v);
    assert pre + w + t + suf == pre + w + (t + suf);
    SkipWsBlank(pre, w, t + suf);
    assert t != "" && !IsWs(t[0]);
    assert (pre + w + t + suf)[|pre| + |w|] == t[0];
  }

  lemma TokenAfter(pre: string, w: string, c: char, suf: string)
    requires Blank(w) && !IsWs(c)
    ensures SkipWs(pre + w + [c] + suf, |pre|) == |pre| + |w|
    ensures (pre + w + [c] + suf)[|pre| + |w|] == c
  {
    assert pre + w + [c] + suf == pre + w + ([c] + suf);
    SkipWsBlank(pre, w, [c] + suf);
  }

  function Head(m: Member): string { m.before + Quoted(m.key) + m.afterKey + ":" }

  function MemberText(m: Member): string { Head(m) + m.beforeValue + Text(m.value) + m.after }

  lemma QuoteFirst(pre: string, key: string, suf: string)
    ensures pre + Quoted(key) + suf == pre + ['\"'] + (key + "\"" + suf)
  {}

  lemma KeyExact(pre: string, before: string, key: string, suf: string)
    requires Blank(before) && PlainText(key)
    ensures var buf := pre + before + Quoted(key) + suf;
      && SkipWs(buf, |pre|) == |pre| + |before|
      && buf[|pre| + |before|] == '\"'
      && ScanString(buf, |pre| + |before|) == Parsed(key, |pre| + |before| + |Quoted(key)|)
  {
    hide SkipWs, ScanString, Blank, PlainText;
    QuoteFirst(pre + before, key, suf);
    TokenAfter(pre, before, '\"', key + "\"" + suf);
    ScanStringPlain(pre + before, key, suf);
  }

  /** From the start of a member to behind its colon. */
  lemma HeadExact(pre: string, m: Member, suf: string, f: Fields)
    requires MemberOk(m)
    ensures var buf := pre + Head(m) + suf;
      ParseMember(buf, |pre|, f) == CloseMember(buf, ParseField(buf, |pre| + |Head(m)|, FieldOf(m.key), f))
  {
    hide ScanString, ParseField, FieldOf, SkipWs, CloseMember, Blank, Quoted;
    var k := Quoted(m.key);
    var stem := pre + m.before + k;
    var buf := pre + Head(m) + suf;
    assert buf == stem + (m.afterKey + ":" + suf);
    KeyExact(pre, m.before, m.key, m.afterKey + ":" + suf);
    assert buf == stem + m.afterKey + [':'] + suf;
    TokenAfter(stem, m.afterKey, ':', suf);
  }

  /** From the end of the value to behind the comma or brace. */
  lemma CloseExact(stem: string, after: string, c: char, suf: string, value: Parse<Fields>, ok: bool, f: Fields)
    requires Blank(after) && (c == ',' || c == '}')
    requires value.Parsed? ==> value.pos <= |stem + after + [c] + suf|
    requires Read(stem + after + [c] + suf, value, ok, f, |stem|)
    ensures CloseMember(stem + after + [c] + suf, value)
         == if ok then Parsed((f, c == ','), |stem| + |after| + 1) else Failed
  {
    TokenAfter(stem, after, c, suf);
  }

  /** One turn of the decoder over one printed member. */
  lemma MemberExact(pre: string, m: Member, c: char, suf: string, f: Fields)
    requires MemberOk(m) && (c == ',' || c == '}')
    ensures ParseMember(pre + MemberText(m) + [c] + suf, |pre|, f)
         == if Accepts(FieldOf(m.key), m.value) then
              Parsed((Absorb(FieldOf(m.key), m.value, f), c == ','), |pre| + |MemberText(m)| + 1)
            else Failed
  {
    hide ScanString, ParseField, ParseMember, CloseMember, Accepts, Absorb, FieldOf, Text, SkipWs, Head, Read;
    var buf := pre + MemberText(m) + [c] + suf;
    var v, rest := Text(m.value), m.after + [c] + suf;
    assert Ends(rest) by { assert rest[0] == if m.after == "" then c else m.after[0]; }
    hide Ends, Blank;
    assert buf == pre + Head(m) + (m.beforeValue + v + rest);
    HeadExact(pre, m, m.beforeValue + v + rest, f);
    assert buf == (pre + Head(m)) + m.beforeValue + v + rest;
    FieldExact(pre + Head(m), m.beforeValue, FieldOf(m.key), m.value, rest, f);
    var stem := pre + Head(m) + m.beforeValue + v;
    assert buf == stem + m.after + [c] + suf;
    CloseExact(stem, m.after, c, suf, ParseField(buf, |pre| + |Head(m)|, FieldOf(m.key), f),
               Accepts(FieldOf(m.key), m.value), Absorb(FieldOf(m.key), m.value, f));
  }

  // ----- whole documents --------------------------------------------------------------------

  lemma {:induction false} MembersExact(pre: string, ms: seq<Member>, suf: string, f: Fields)
    requires ms != [] && forall m :: m in ms ==> MemberOk(m)
    ensures DecodeFrom(pre + MembersText(ms) + "}" + suf, |pre|, f)
         == if AcceptsAll(ms) then Parsed(AbsorbAll(ms, f), |pre| + |MembersText(ms)| + 1) else Failed
    decreases ms
  {
    hide ParseMember, MemberText, MembersText, MemberOk, Accepts, Absorb, FieldOf, AcceptsAll, AbsorbAll;
    var m := ms[0];
    var t := MemberText(m);
    var buf := pre + MembersText(ms) + "}" + suf;
    MembersTextHead(ms);
    AbsorbHead(ms, f);
    if |ms| == 1 {
      assert buf == pre + t + ['}'] + suf;
      MemberExact(pre, m, '}', suf, f);
    } else {
      var rest := MembersText(ms[1..]);
      assert buf == pre + t + [','] + (rest + "}" + suf);
      MemberExact(pre, m, ',', rest + "}" + suf, f);
      assert buf == (pre + t + ",") + rest + "}" + suf;
      MembersExact(pre + t + ",", ms[1..], suf, Absorb(FieldOf(m.key), m.value, f));
    }
  }

  lemma AbsorbHead(ms: seq<Member>, f: Fields)
    requires ms != []
    ensures AcceptsAll(ms) <==> Accepts(FieldOf(ms[0].key), ms[0].value) && (|ms| == 1 || AcceptsAll(ms[1..]))
    ensures |ms| == 1 ==> AbsorbAll(ms, f) == Absorb(FieldOf(ms[0].key), ms[0].value, f)
    ensures |ms| > 1 ==> AbsorbAll(ms, f) == AbsorbAll(ms[1..], Absorb(FieldOf(ms[0].key), ms[0].value, f))
  {
    hide Accepts, Absorb, FieldOf;
  }

  lemma MembersTextHead(ms: seq<Member>)
    requires ms != []
    ensures MembersText(ms) == MemberText(ms[0]) + (if |ms| == 1 then "" else "," + MembersText(ms[1..]))
  {
    hide Text;
  }

  /** Main result: a printed object decodes to what its members mean, whatever their order and
      layout, and is refused exactly when a known field has a value of the wrong kind or the
      collected fields make no request. */
  lemma DecodeObject(blank: string, ms: seq<Member>, trail: string)
    requires Blank(blank) && Blank(trail) && forall m :: m in ms ==> MemberOk(m)
    ensures Decode(Text(Obj(blank, ms)) + trail) == Meaning(ms)
  {
    hide ParseMember, SkipWs, Blank, AcceptsAll, AbsorbAll;
    var frame := Text(Obj(blank, ms)) + trail;
    assert frame[0] == '{';
    BlankTail(Text(Obj(blank, ms)), trail);
    if ms == [] {
      assert Text(Obj(blank, ms)) == "{" + blank + "}";
      EmptyObject(blank, trail, NO_FIELDS);
    } else {
      assert Text(Obj(blank, ms)) == "{" + MembersText(ms) + "}";
      MembersExact("{", ms, trail, NO_FIELDS);
    }
    hide MembersText, DecodeFrom, Text;
    Unfold(ms);
  }

  lemma Unfold(ms: seq<Member>)
    ensures ms == [] ==> AcceptsAll(ms) && AbsorbAll(ms, NO_FIELDS) == NO_FIELDS
  {}

  lemma BlankTail(stem: string, trail: string)
    requires Blank(trail)
    ensures SkipWs(stem + trail, |stem|) == |stem + trail|
  {
    assert stem + trail + "" == stem + trail;
    SkipWsBlank(stem, trail, "");
  }

  lemma EmptyObject(blank: string, trail: string, f: Fields)
    requires Blank(blank)
    ensures DecodeFrom("{" + blank + "}" + trail, 1, f) == Parsed(f, |blank| + 2)
  {
    assert "{" + blank + "}" + trail == "{" + blank + ['}'] + trail;
    TokenAfter("{", blank, '}', trail);
  }
}
