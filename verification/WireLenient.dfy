/** Every frame the decoder accepts. Beyond JSON it takes a comma before the closing brace, and for
    members of unknown name any stretch of bytes that its skipping passes. */
module WireLenient {
  import opened Wrappers
  import opened WireScan
  import opened WireGrammar
  import opened WireRequest
  import opened WireDocument

  // ----- the grammar ------------------------------------------------------------------------

  /** Inside a skipped container: a string, or any other byte. */
  datatype Piece = Byte(c: char) | Quote(chars: string)

  /** What can stand for the value of an unknown member. */
  datatype Stretch = Word(text: string) | Chars(chars: string) | Group(square: bool, pieces: seq<Piece>)

  datatype Token = Value(v: Json) | Skipped(stretch: Stretch)

  datatype Entry = Entry(before: string, key: string, afterKey: string, beforeValue: string, token: Token, after: string)

  /** The members up to the closing brace; behind a comma the brace may follow at once. */
  datatype Body = Closing(blank: string) | Last(entry: Entry) | More(entry: Entry, rest: Body)

  function Opener(square: bool): char { if square then '[' else '{' }

  function Closer(square: bool): char { if square then ']' else '}' }

  function PieceText(p: Piece): string { match p case Byte(c) => [c] case Quote(s) => Quoted(s) }

  function PiecesText(ps: seq<Piece>): string { if ps == [] then "" else PieceText(ps[0]) + PiecesText(ps[1..]) }

  predicate PieceOk(p: Piece) { match p case Byte(c) => c != '\"' case Quote(s) => PlainText(s) }

  /** The depth behind a piece; only brackets of the one kind count. */
  function Deeper(p: Piece, square: bool, depth: nat): nat
    requires depth > 0
  {
    if p == Byte(Opener(square)) then depth + 1 else if p == Byte(Closer(square)) then depth - 1 else depth
  }

  /** The last piece is the bracket that closes the depth open groups. */
  predicate Closes(ps: seq<Piece>, square: bool, depth: nat)
    decreases |ps|
  {
    if depth == 0 then ps == []
    else
      ps != [] && PieceOk(ps[0]) && Closes(ps[1..], square, Deeper(ps[0], square, depth))
  }

  predicate WordText(t: string) {
    (forall k :: 0 <= k < |t| ==> !IsDelimiter(t[k])) && (t != "" ==> t[0] !in "\"{[")
  }

  predicate StretchOk(s: Stretch) {
    match s
    case Word(t) => WordText(t)
    case Chars(t) => PlainText(t)
    case Group(square, ps) => Closes(ps, square, 1)
  }

  function StretchText(s: Stretch): string {
    match s
    case Word(t) => t
    case Chars(t) => Quoted(t)
    case Group(square, ps) => [Opener(square)] + PiecesText(ps)
  }

  const NOTHING: Token := Skipped(Word(""))

  predicate TokenOk(field: Field, t: Token) {
    match t
    case Value(v) => !field.UnknownField? && Accepts(field, v)
    case Skipped(s) => field.UnknownField? && StretchOk(s)
  }

  function TokenText(t: Token): string { match t case Value(v) => Text(v) case Skipped(s) => StretchText(s) }

  function Taken(field: Field, t: Token, f: Fields): Fields { match t case Value(v) => Absorb(field, v, f) case Skipped(_) => f }

  predicate EntryOk(e: Entry) {
    && Blank(e.before) && PlainText(e.key) && Blank(e.afterKey) && Blank(e.beforeValue) && Blank(e.after)
    && TokenOk(FieldOf(e.key), e.token) && (e.token == NOTHING ==> e.after == "")
  }

  function KeyText(e: Entry): string { e.before + Quoted(e.key) + e.afterKey + ":" }

  function EntryText(e: Entry): string { KeyText(e) + e.beforeValue + TokenText(e.token) + e.after }

  predicate BodyOk(b: Body) {
    match b
    case Closing(w) => Blank(w)
    case Last(e) => EntryOk(e)
    case More(e, rest) => EntryOk(e) && BodyOk(rest)
  }

  function BodyText(b: Body): string {
    match b
    case Closing(w) => w + "}"
    case Last(e) => EntryText(e) + "}"
    case More(e, rest) => EntryText(e) + "," + BodyText(rest)
  }

  function Collected(b: Body, f: Fields): Fields {
    match b
    case Closing(_) => f
    case Last(e) => Taken(FieldOf(e.key), e.token, f)
    case More(e, rest) => Collected(rest, Taken(FieldOf(e.key), e.token, f))
  }

  // ----- what the grammar generates is accepted ------------------------------------------------

  /** A blank makes no difference to a container scan. */
  lemma BlankStep(buf: string, pos: nat, square: bool, depth: nat)
    requires pos < |buf| && IsWs(buf[pos]) && depth > 0
    ensures SkipContainer(buf, pos, Opener(square), Closer(square), depth)
         == SkipContainer(buf, pos + 1, Opener(square), Closer(square), depth)
  {
    assert SkipWs(buf, pos) == SkipWs(buf, pos + 1);
  }

  ghost predicate Holds(buf: string, pos: nat, t: string) { pos + |t| <= |buf| && buf[pos..pos + |t|] == t }

  lemma HoldsSplit(buf: string, pos: nat, a: string, b: string)
    requires Holds(buf, pos, a + b)
    ensures Holds(buf, pos, a) && Holds(buf, pos + |a|, b)
  {
    var t := buf[pos..pos + |a + b|];
    assert t[..|a|] == a && t[|a|..] == b;
  }

  lemma {:induction false} GroupRead(buf: string, pos: nat, ps: seq<Piece>, square: bool, depth: nat)
    requires Closes(ps, square, depth) && Holds(buf, pos, PiecesText(ps))
    ensures SkipContainer(buf, pos, Opener(square), Closer(square), depth) == Parsed((), pos + |PiecesText(ps)|)
    decreases |ps|
  {
    hide SkipContainer, PieceText, PieceOk, Deeper, Opener, Closer, Closes, PiecesText, Holds;
    if depth == 0 {
      Nothing(buf, pos, ps, square);
    } else {
      Unfold(ps, square, depth);
      var t, rest := PieceText(ps[0]), PiecesText(ps[1..]);
      HoldsSplit(buf, pos, t, rest);
      PieceRead(buf, pos, ps[0], square, depth);
      GroupRead(buf, pos + |t|, ps[1..], square, Deeper(ps[0], square, depth));
    }
  }

  lemma Nothing(buf: string, pos: nat, ps: seq<Piece>, square: bool)
    requires Closes(ps, square, 0)
    ensures PiecesText(ps) == "" && SkipContainer(buf, pos, Opener(square), Closer(square), 0) == Parsed((), pos)
  {}

  lemma Unfold(ps: seq<Piece>, square: bool, depth: nat)
    requires Closes(ps, square, depth) && depth > 0
    ensures ps != [] && PieceOk(ps[0]) && Closes(ps[1..], square, Deeper(ps[0], square, depth))
    ensures PiecesText(ps) == PieceText(ps[0]) + PiecesText(ps[1..])
  {}

  lemma ByteStep(buf: string, pos: nat, square: bool, depth: nat)
    requires pos < |buf| && buf[pos] != '\"' && depth > 0
    ensures SkipContainer(buf, pos, Opener(square), Closer(square), depth)
         == SkipContainer(buf, pos + 1, Opener(square), Closer(square), Deeper(Byte(buf[pos]), square, depth))
  {
    hide ScanString;
    if IsWs(buf[pos]) { BlankStep(buf, pos, square, depth); }
  }

  lemma QuoteStep(buf: string, pos: nat, square: bool, depth: nat)
    requires ScanString(buf, pos).Parsed? && depth > 0
    ensures SkipContainer(buf, pos, Opener(square), Closer(square), depth)
         == SkipContainer(buf, ScanString(buf, pos).pos, Opener(square), Closer(square), depth)
  {
    assert buf[pos] == '\"' && SkipWs(buf, pos) == pos;
    hide ScanString, SkipWs;
  }

  lemma ScanAt(buf: string, pos: nat, s: string)
    requires PlainText(s) && Holds(buf, pos, Quoted(s))
    ensures ScanString(buf, pos) == Parsed(s, pos + |Quoted(s)|)
  {
    hide ScanString, PlainText, Quoted;
    var end := pos + |Quoted(s)|;
    assert buf == buf[..pos] + Quoted(s) + buf[end..];
    ScanStringPlain(buf[..pos], s, buf[end..]);
  }

  lemma ByteRead(buf: string, pos: nat, c: char, square: bool, depth: nat)
    requires c != '\"' && depth > 0 && Holds(buf, pos, [c])
    ensures SkipContainer(buf, pos, Opener(square), Closer(square), depth)
         == SkipContainer(buf, pos + 1, Opener(square), Closer(square), Deeper(Byte(c), square, depth))
  {
    hide SkipContainer, Opener, Closer, Deeper;
    assert buf[pos] == buf[pos..pos + 1][0] == c;
    ByteStep(buf, pos, square, depth);
  }

  lemma QuoteRead(buf: string, pos: nat, s: string, square: bool, depth: nat)
    requires PlainText(s) && depth > 0 && Holds(buf, pos, Quoted(s))
    ensures SkipContainer(buf, pos, Opener(square), Closer(square), depth)
         == SkipContainer(buf, pos + |Quoted(s)|, Opener(square), Closer(square), depth)
  {
    hide SkipContainer, Opener, Closer, ScanString, Quoted, PlainText, Holds;
    ScanAt(buf, pos, s);
    QuoteStep(buf, pos, square, depth);
  }

  lemma PieceRead(buf: string, pos: nat, p: Piece, square: bool, depth: nat)
    requires PieceOk(p) && depth > 0 && Holds(buf, pos, PieceText(p))
    ensures SkipContainer(buf, pos, Opener(square), Closer(square), depth)
      == SkipContainer(buf, pos + |PieceText(p)|, Opener(square), Closer(square), Deeper(p, square, depth))
  {
    hide SkipContainer, Opener, Closer, Holds;
    match p
    case Byte(c) => ByteRead(buf, pos, c, square, depth);
    case Quote(s) => QuoteRead(buf, pos, s, square, depth);
  }

  lemma {:induction false} WordRead(pre: string, t: string, suf: string, k: nat)
    requires WordText(t) && Ends(suf) && k <= |t|
    ensures LiteralEnd(pre + t + suf, |pre| + k) == |pre| + |t|
    decreases |t| - k
  {
    var buf := pre + t + suf;
    if k < |t| {
      assert buf[|pre| + k] == t[k];
      WordRead(pre, t, suf, k + 1);
    } else if suf != "" {
      assert buf[|pre| + k] == suf[0];
    }
  }

  lemma WordHere(pre: string, t: string, suf: string)
    requires WordText(t) && Ends(suf) && suf != "" && (t == "" ==> !IsWs(suf[0]))
    ensures SkipWs(pre + t + suf, |pre|) == |pre| && SkipValue(pre + t + suf, |pre|) == Parsed((), |pre| + |t|)
  {
    var buf := pre + t + suf;
    assert buf[|pre|] == if t == "" then suf[0] else t[0];
    WordRead(pre, t, suf, 0);
  }

  lemma SkipChars(buf: string, p: nat)
    requires ScanString(buf, p).Parsed?
    ensures SkipWs(buf, p) == p && SkipValue(buf, p) == Parsed((), ScanString(buf, p).pos)
  {
    assert buf[p] == '\"';
    hide ScanString;
  }

  lemma CharsHere(pre: string, t: string, suf: string)
    requires PlainText(t)
    ensures var buf := pre + Quoted(t) + suf;
      SkipWs(buf, |pre|) == |pre| && SkipValue(buf, |pre|) == Parsed((), |pre| + |Quoted(t)|)
  {
    hide ScanString, PlainText, Quoted, SkipWs, SkipValue;
    ScanStringPlain(pre, t, suf);
    SkipChars(pre + Quoted(t) + suf, |pre|);
  }

  lemma SkipGroup(buf: string, p: nat, square: bool)
    requires p < |buf| && buf[p] == Opener(square)
    ensures SkipWs(buf, p) == p && SkipValue(buf, p) == SkipContainer(buf, p + 1, Opener(square), Closer(square), 1)
  {
    hide SkipContainer;
  }

  lemma GroupAt(buf: string, pos: nat, square: bool, ps: seq<Piece>)
    requires Closes(ps, square, 1) && Holds(buf, pos, [Opener(square)] + PiecesText(ps))
    ensures SkipWs(buf, pos) == pos && SkipValue(buf, pos) == Parsed((), pos + 1 + |PiecesText(ps)|)
  {
    hide Closes, SkipContainer, SkipValue, SkipWs, PiecesText, Opener, Closer, Holds;
    HoldsSplit(buf, pos, [Opener(square)], PiecesText(ps));
    HoldsFirst(buf, pos, Opener(square));
    SkipGroup(buf, pos, square);
    GroupRead(buf, pos + 1, ps, square, 1);
  }

  lemma HoldsFirst(buf: string, pos: nat, c: char)
    requires Holds(buf, pos, [c])
    ensures pos < |buf| && buf[pos] == c
  {
    assert buf[pos] == buf[pos..pos + 1][0];
  }

  lemma GroupHere(pre: string, square: bool, ps: seq<Piece>, suf: string)
    requires Closes(ps, square, 1)
    ensures var buf := pre + ([Opener(square)] + PiecesText(ps)) + suf;
      SkipWs(buf, |pre|) == |pre| && SkipValue(buf, |pre|) == Parsed((), |pre| + 1 + |PiecesText(ps)|)
  {
    hide Closes, SkipValue, SkipWs, PiecesText, Opener, Holds;
    var t := [Opener(square)] + PiecesText(ps);
    HoldsMiddle(pre, t, suf);
    GroupAt(pre + t + suf, |pre|, square, ps);
  }

  lemma HoldsMiddle(pre: string, t: string, suf: string)
    ensures Holds(pre + t + suf, |pre|, t)
  {}

  lemma StretchHere(pre: string, s: Stretch, suf: string)
    requires StretchOk(s) && Ends(suf) && suf != "" && (s == Word("") ==> !IsWs(suf[0]))
    ensures var buf := pre + StretchText(s) + suf;
      SkipWs(buf, |pre|) == |pre| && SkipValue(buf, |pre|) == Parsed((), |pre| + |StretchText(s)|)
  {
    hide Closes, SkipValue, SkipWs, PiecesText, Opener, Quoted, WordText, PlainText;
    match s
    case Word(t) => WordHere(pre, t, suf);
    case Chars(t) => CharsHere(pre, t, suf);
    case Group(square, ps) => GroupHere(pre, square, ps, suf);
  }

  lemma StretchRead(pre: string, w: string, s: Stretch, suf: string)
    requires Blank(w) && StretchOk(s) && Ends(suf) && suf != "" && (s == Word("") ==> !IsWs(suf[0]))
    ensures SkipValue(pre + w + StretchText(s) + suf, |pre|) == Parsed((), |pre| + |w| + |StretchText(s)|)
  {
    hide StretchOk, Ends, SkipValue, StretchText, Blank;
    var t := StretchText(s);
    assert pre + w + t + suf == pre + w + (t + suf);
    SkipWsBlank(pre, w, t + suf);
    StretchHere(pre + w, s, suf);
    SkipFromBlank(pre + w + t + suf, |pre|, |pre| + |w|);
  }

  lemma TokenRead(pre: string, w: string, field: Field, t: Token, suf: string, f: Fields)
    requires Blank(w) && TokenOk(field, t) && Ends(suf) && suf != "" && (t == NOTHING ==> !IsWs(suf[0]))
    ensures ParseField(pre + w + TokenText(t) + suf, |pre|, field, f) == Parsed(Taken(field, t, f), |pre| + |w| + |TokenText(t)|)
  {
    hide Text, Accepts, Absorb, SkipValue, SkipWs, StretchOk, StretchText, Blank, Ends;
    match t
    case Value(v) =>
      assert Printable(v) by { AcceptedIsPrintable(field, v); }
      hide ParseField;
      FieldExact(pre, w, field, v, suf, f);
    case Skipped(s) => StretchRead(pre, w, s, suf);
  }

  lemma AcceptedIsPrintable(field: Field, v: Json)
    requires Accepts(field, v)
    ensures Printable(v)
  {}

  function HeadOnly(e: Entry): Member { Member(e.before, e.key, e.afterKey, "", Literal("0"), "") }

  /** One turn of the decoder over one entry. */
  lemma EntryRead(pre: string, e: Entry, c: char, suf: string, f: Fields)
    requires EntryOk(e) && (c == ',' || c == '}')
    ensures ParseMember(pre + EntryText(e) + [c] + suf, |pre|, f)
         == Parsed((Taken(FieldOf(e.key), e.token, f), c == ','), |pre| + |EntryText(e)| + 1)
  {
    hide ParseField, ParseMember, CloseMember, TokenOk, Taken, FieldOf, TokenText, Quoted;
    var buf := pre + EntryText(e) + [c] + suf;
    var t, rest := TokenText(e.token), e.after + [c] + suf;
    assert Ends(rest) && rest[0] == if e.after == "" then c else e.after[0];
    hide Ends;
    assert Head(HeadOnly(e)) == KeyText(e);
    assert MemberOk(HeadOnly(e)) by { assert LiteralText("0"); }
    hide MemberOk, Head, PlainText;
    EntryNest(pre, e, c, suf);
    HeadExact(pre, HeadOnly(e), e.beforeValue + t + rest, f);
    TokenRead(pre + KeyText(e), e.beforeValue, FieldOf(e.key), e.token, rest, f);
    hide Blank;
    CloseExact(pre + KeyText(e) + e.beforeValue + t, e.after, c, suf, ParseField(buf, |pre| + |KeyText(e)|, FieldOf(e.key), f),
               true, Taken(FieldOf(e.key), e.token, f));
  }

  lemma EntryNest(pre: string, e: Entry, c: char, suf: string)
    ensures var t, rest := TokenText(e.token), e.after + [c] + suf;
      pre + EntryText(e) + [c] + suf == pre + KeyText(e) + (e.beforeValue + t + rest)
      == (pre + KeyText(e)) + e.beforeValue + t + rest
      == (pre + KeyText(e) + e.beforeValue + t) + e.after + [c] + suf
  {
    hide TokenText, KeyText;
  }

  lemma {:induction false} BodyRead(pre: string, b: Body, suf: string, f: Fields)
    requires BodyOk(b)
    ensures DecodeFrom(pre + BodyText(b) + suf, |pre|, f) == Parsed(Collected(b, f), |pre| + |BodyText(b)|)
    decreases b
  {
    hide ParseMember, EntryOk, EntryText, Taken, FieldOf;
    match b
    case Closing(w) => ClosingRead(pre, w, suf, f);
    case Last(e) =>
      assert pre + BodyText(b) + suf == pre + EntryText(e) + ['}'] + suf;
      EntryRead(pre, e, '}', suf, f);
    case More(e, rest) =>
      var t := EntryText(e);
      MoreNest(pre, t, BodyText(rest), suf);
      EntryRead(pre, e, ',', BodyText(rest) + suf, f);
      BodyRead(pre + t + ",", rest, suf, Taken(FieldOf(e.key), e.token, f));
  }

  lemma MoreNest(pre: string, t: string, rest: string, suf: string)
    ensures pre + (t + "," + rest) + suf == pre + t + [','] + (rest + suf) == (pre + t + ",") + rest + suf
  {}

  lemma ClosingRead(pre: string, w: string, suf: string, f: Fields)
    requires Blank(w)
    ensures DecodeFrom(pre + (w + "}") + suf, |pre|, f) == Parsed(f, |pre| + |w| + 1)
  {
    assert pre + (w + "}") + suf == pre + w + ['}'] + suf;
    TokenAfter(pre, w, '}', suf);
    hide SkipWs;
  }

  // ----- what is accepted, the grammar generates ---------------------------------------------------

  lemma {:induction false} WsIsBlank(buf: string, pos: nat)
    requires pos <= |buf|
    ensures Blank(buf[pos..SkipWs(buf, pos)])
    ensures SkipWs(buf, pos) < |buf| ==> !IsWs(buf[SkipWs(buf, pos)])
    ensures SkipWs(buf, SkipWs(buf, pos)) == SkipWs(buf, pos)
    decreases |buf| - pos
  {
    if pos < |buf| && IsWs(buf[pos]) {
      WsIsBlank(buf, pos + 1);
      var p := SkipWs(buf, pos);
      assert buf[pos..p] == [buf[pos]] + buf[pos + 1..p];
    }
  }

  lemma {:induction false} StringRestInside(buf: string, start: nat, pos: nat)
    requires start <= pos <= |buf| && PlainText(buf[start..pos])
    ensures var r := StringRest(buf, start, pos);
      r.Parsed? ==> PlainText(r.value) && start < r.pos <= |buf| && buf[start..r.pos] == r.value + "\""
    decreases |buf| - pos
  {
    if pos < |buf| && buf[pos] == '\"' {
      assert buf[start..pos + 1] == buf[start..pos] + "\"";
    } else if pos < |buf| && buf[pos] != '\\' {
      assert buf[start..pos + 1] == buf[start..pos] + [buf[pos]];
      StringRestInside(buf, start, pos + 1);
    }
  }

  lemma StringInside(buf: string, pos: nat)
    ensures var r := ScanString(buf, pos);
      r.Parsed? ==> PlainText(r.value) && pos < r.pos <= |buf| && buf[pos..r.pos] == Quoted(r.value)
  {
    if pos < |buf| {
      StringRestInside(buf, pos + 1, pos + 1);
      var r := ScanString(buf, pos);
      if r.Parsed? {
        assert buf[pos..r.pos] == [buf[pos]] + buf[pos + 1..r.pos];
      }
    }
  }

  lemma {:induction false} GroupInside(buf: string, pos: nat, square: bool, depth: nat) returns (ps: seq<Piece>)
    requires pos <= |buf| && SkipContainer(buf, pos, Opener(square), Closer(square), depth).Parsed?
    ensures Closes(ps, square, depth)
    ensures var r := SkipContainer(buf, pos, Opener(square), Closer(square), depth);
      pos <= r.pos <= |buf| && buf[pos..r.pos] == PiecesText(ps)
    decreases |buf| - pos, depth
  {
    var o, c := Opener(square), Closer(square);
    var r := SkipContainer(buf, pos, o, c, depth);
    hide SkipContainer, PieceText, PieceOk, Deeper, Opener, Closer, Closes, PiecesText;
    if depth == 0 {
      ps := [];
      assert Closes([], square, 0) by { NoPieces(square); }
      Nothing(buf, pos, [], square);
      return;
    }
    var p, next, size := NextPiece(buf, pos, square, depth);
    var rest := GroupInside(buf, pos + size, square, next);
    ps := [p] + rest;
    Refold(p, rest, square, depth);
    SliceAt(buf, pos, pos + size, r.pos);
  }

  lemma NoPieces(square: bool)
    ensures Closes([], square, 0)
  {}

  lemma Refold(p: Piece, rest: seq<Piece>, square: bool, depth: nat)
    requires depth > 0 && PieceOk(p) && Closes(rest, square, Deeper(p, square, depth))
    ensures Closes([p] + rest, square, depth) && PiecesText([p] + rest) == PieceText(p) + PiecesText(rest)
  {
    hide PieceOk, Deeper, PieceText;
    assert ([p] + rest)[1..] == rest;
  }

  lemma SliceAt(buf: string, a: nat, b: nat, c: nat)
    requires a <= b <= c <= |buf|
    ensures buf[a..c] == buf[a..b] + buf[b..c]
  {}

  lemma NextPiece(buf: string, pos: nat, square: bool, depth: nat) returns (p: Piece, next: nat, size: nat)
    requires pos <= |buf| && depth > 0 && SkipContainer(buf, pos, Opener(square), Closer(square), depth).Parsed?
    ensures PieceOk(p) && 0 < size && pos + size <= |buf| && buf[pos..pos + size] == PieceText(p)
    ensures next == Deeper(p, square, depth)
    ensures SkipContainer(buf, pos, Opener(square), Closer(square), depth)
         == SkipContainer(buf, pos + size, Opener(square), Closer(square), next)
  {
    assert pos < |buf|;
    if buf[pos] == '\"' {
      StringInside(buf, pos);
      QuoteStep(buf, pos, square, depth);
      var s := ScanString(buf, pos);
      p, next, size := Quote(s.value), depth, s.pos - pos;
    } else {
      p, size := Byte(buf[pos]), 1;
      next := Deeper(p, square, depth);
      ByteStep(buf, pos, square, depth);
    }
  }

  lemma {:induction false} WordInside(buf: string, pos: nat)
    requires pos <= |buf|
    ensures forall k :: pos <= k < LiteralEnd(buf, pos) ==> !IsDelimiter(buf[k])
    decreases |buf| - pos
  {
    if pos < |buf| && !IsDelimiter(buf[pos]) {
      WordInside(buf, pos + 1);
    }
  }

  lemma GroupWhole(buf: string, p: nat, square: bool) returns (s: Stretch)
    requires p < |buf| && buf[p] == Opener(square) && SkipContainer(buf, p + 1, Opener(square), Closer(square), 1).Parsed?
    ensures var r := SkipContainer(buf, p + 1, Opener(square), Closer(square), 1);
      StretchOk(s) && s.Group? && p < r.pos <= |buf| && buf[p..r.pos] == StretchText(s)
  {
    hide SkipContainer, Closes, PiecesText, Opener, Closer;
    var r := SkipContainer(buf, p + 1, Opener(square), Closer(square), 1);
    var ps := GroupInside(buf, p + 1, square, 1);
    s := Group(square, ps);
    SliceAt(buf, p, p + 1, r.pos);
    assert buf[p..p + 1] == [Opener(square)];
  }

  lemma CharsWhole(buf: string, p: nat) returns (s: Stretch)
    requires ScanString(buf, p).Parsed?
    ensures var r := ScanString(buf, p);
      StretchOk(s) && s.Chars? && p < r.pos <= |buf| && buf[p..r.pos] == StretchText(s)
  {
    hide ScanString, PlainText, Quoted;
    StringInside(buf, p);
    s := Chars(ScanString(buf, p).value);
  }

  lemma WordWhole(buf: string, p: nat) returns (s: Stretch)
    requires p < |buf| && buf[p] !in "\"{["
    ensures StretchOk(s) && s == Word(buf[p..LiteralEnd(buf, p)])
  {
    WordInside(buf, p);
    hide LiteralEnd;
    s := Word(buf[p..LiteralEnd(buf, p)]);
  }

  /** A skipped value, from behind its blanks. */
  lemma StretchInside(buf: string, pos: nat) returns (s: Stretch)
    requires pos <= |buf| && SkipValue(buf, pos).Parsed?
    ensures var p, r := SkipWs(buf, pos), SkipValue(buf, pos);
      StretchOk(s) && pos <= p <= r.pos <= |buf| && buf[p..r.pos] == StretchText(s) && (s == Word("") ==> r.pos == p)
  {
    hide SkipWs, ScanString, SkipContainer, LiteralEnd, StretchOk;
    var p := SkipWs(buf, pos);
    if buf[p] == '\"' {
      hide StretchText;
      s := CharsWhole(buf, p);
    } else if buf[p] == '{' {
      hide StretchText;
      s := GroupWhole(buf, p, false);
    } else if buf[p] == '[' {
      hide StretchText;
      s := GroupWhole(buf, p, true);
    } else {
      s := WordWhole(buf, p);
    }
  }

  lemma {:induction false} DigitsInside(buf: string, pos: nat)
    requires pos < |buf| && DigitsEnd(buf, pos) > pos
    ensures LiteralText(buf[pos..DigitsEnd(buf, pos)]) && AllDigits(buf[pos..DigitsEnd(buf, pos)])
  {}

  lemma NumberInside(buf: string, pos: nat, limit: nat) returns (v: Json)
    requires pos <= |buf| && ScanNumber(buf, pos, limit).Parsed?
    ensures var r := ScanNumber(buf, pos, limit);
      && pos < r.pos <= |buf| && WellFormed(v) && IsNumeral(v, limit)
      && Text(v) == buf[pos..r.pos] && DecimalValue(v.text) == r.value && v != JSON_NULL
  {
    DigitsInside(buf, pos);
    v := Literal(buf[pos..DigitsEnd(buf, pos)]);
    assert !IsDigit("null"[0]);
  }

  /** The value of a field, from behind its blanks. */
  lemma TokenInside(buf: string, pos: nat, field: Field, f: Fields) returns (t: Token)
    requires pos <= |buf| && ParseField(buf, pos, field, f).Parsed?
    ensures var p, r := SkipWs(buf, pos), ParseField(buf, pos, field, f);
      && TokenOk(field, t) && pos <= p <= r.pos <= |buf| && buf[p..r.pos] == TokenText(t)
      && r.value == Taken(field, t, f) && (t == NOTHING ==> r.pos == p)
  {
    var p := SkipWs(buf, pos);
    match field {
      case UnknownField =>
        var s := StretchInside(buf, pos);
        t := Skipped(s);
      case OpField | LabelField | BytesHexField =>
        t := TextInside(buf, p, field, f);
      case VmIdField | LenField | CrcField =>
        var v := NumberInside(buf, p, U32_LIMIT);
        t := Value(v);
      case ImagePathField =>
        if NullAt(buf, p) {
          t := Value(JSON_NULL);
          assert LiteralText("null");
        } else {
          t := TextInside(buf, p, field, f);
        }
      case CpuCountField | BootCrcField =>
        t := NullableInside(buf, p, U32_LIMIT);
      case MemoryMibField =>
        t := NullableInside(buf, p, U64_LIMIT);
    }
  }

  lemma TextInside(buf: string, p: nat, field: Field, f: Fields) returns (t: Token)
    requires p <= |buf| && ScanString(buf, p).Parsed?
    ensures var r := ScanString(buf, p);
      t == Value(Str(r.value)) && PlainText(r.value) && p < r.pos <= |buf| && buf[p..r.pos] == Text(Str(r.value))
  {
    StringInside(buf, p);
    t := Value(Str(ScanString(buf, p).value));
  }

  lemma NullableInside(buf: string, p: nat, limit: nat) returns (t: Token)
    requires p <= |buf| && ScanNullable(buf, p, ScanNumber(buf, p, limit)).Parsed?
    ensures var r := ScanNullable(buf, p, ScanNumber(buf, p, limit));
      && p < r.pos <= |buf| && t.Value? && WellFormed(t.v) && (t.v == JSON_NULL || IsNumeral(t.v, limit))
      && buf[p..r.pos] == Text(t.v) && r.value == OptionalNumeral(t.v)
  {
    if NullAt(buf, p) {
      t := Value(JSON_NULL);
      assert LiteralText("null") && !IsDigit("null"[0]);
    } else {
      var v := NumberInside(buf, p, limit);
      t := Value(v);
    }
  }

  /** A key with its blanks and its colon. */
  lemma KeyInside(buf: string, pos: nat, e: Entry) returns (x: Entry)
    requires pos <= |buf|
    requires var p := SkipWs(buf, pos); var k := ScanString(buf, p);
      k.Parsed? && SkipWs(buf, k.pos) < |buf| && buf[SkipWs(buf, k.pos)] == ':'
    ensures var k := ScanString(buf, SkipWs(buf, pos)); var c := SkipWs(buf, k.pos);
      && pos < c < |buf| && buf[pos..c + 1] == KeyText(x)
      && x == e.(before := x.before, key := k.value, afterKey := x.afterKey)
      && Blank(x.before) && PlainText(x.key) && Blank(x.afterKey)
  {
    hide SkipWs, ScanString, Quoted, PlainText, Blank;
    var p := SkipWs(buf, pos);
    WsIsBlank(buf, pos);
    StringInside(buf, p);
    var k := ScanString(buf, p);
    WsIsBlank(buf, k.pos);
    var c := SkipWs(buf, k.pos);
    x := e.(before := buf[pos..p], key := k.value, afterKey := buf[k.pos..c]);
    SliceKey(buf, pos, p, k.pos, c);
  }

  lemma SliceKey(buf: string, a: nat, b: nat, c: nat, d: nat)
    requires a <= b <= c <= d < |buf| && buf[d] == ':'
    ensures buf[a..d + 1] == buf[a..b] + buf[b..c] + buf[c..d] + ":"
  {}

  /** A field's value with its blanks, and the byte behind it. */
  lemma ValueInside(buf: string, pos: nat, field: Field, f: Fields) returns (w: string, t: Token, after: string)
    requires pos <= |buf| && CloseMember(buf, ParseField(buf, pos, field, f)).Parsed?
    ensures var r := CloseMember(buf, ParseField(buf, pos, field, f));
      && pos < r.pos <= |buf| && Blank(w) && TokenOk(field, t) && Blank(after) && (t == NOTHING ==> after == "")
      && buf[pos..r.pos - 1] == w + TokenText(t) + after && buf[r.pos - 1] == (if r.value.1 then ',' else '}')
      && r.value.0 == Taken(field, t, f)
  {
    t := TokenInside(buf, pos, field, f);
    hide ParseField, TokenOk, Taken, TokenText, SkipWs;
    var v, s := SkipWs(buf, pos), ParseField(buf, pos, field, f);
    WsIsBlank(buf, pos);
    WsIsBlank(buf, s.pos);
    var q := SkipWs(buf, s.pos);
    hide Blank;
    w, after := buf[pos..v], buf[s.pos..q];
    SliceThree(buf, pos, v, s.pos, q);
  }

  lemma SliceThree(buf: string, a: nat, b: nat, c: nat, d: nat)
    requires a <= b <= c <= d <= |buf|
    ensures buf[a..d] == buf[a..b] + buf[b..c] + buf[c..d]
  {}

  /** One turn of the decoder: the closing brace, or an entry and the byte behind it. */
  lemma EntryInside(buf: string, pos: nat, f: Fields) returns (e: Option<Entry>)
    requires pos <= |buf| && ParseMember(buf, pos, f).Parsed?
    ensures var r := ParseMember(buf, pos, f);
      && pos < r.pos <= |buf|
      && match e
         case None => r.value == (f, false) && Blank(buf[pos..r.pos - 1]) && buf[r.pos - 1] == '}'
         case Some(x) =>
           EntryOk(x) && buf[pos..r.pos - 1] == EntryText(x) && buf[r.pos - 1] == (if r.value.1 then ',' else '}')
           && r.value.0 == Taken(FieldOf(x.key), x.token, f)
  {
    hide ParseField, CloseMember, SkipWs, ScanString, TokenOk, Taken, FieldOf, TokenText, PlainText, Blank, KeyText;
    var r, p := ParseMember(buf, pos, f), SkipWs(buf, pos);
    if p < |buf| && buf[p] == '}' {
      WsIsBlank(buf, pos);
      return None;
    }
    var k := ScanString(buf, p);
    var c := SkipWs(buf, k.pos);
    var w, t, after := ValueInside(buf, c + 1, FieldOf(k.value), f);
    var x := KeyInside(buf, pos, Entry("", "", "", w, t, after));
    assert buf[pos..r.pos - 1] == buf[pos..c + 1] + buf[c + 1..r.pos - 1];
    Join4(KeyText(x), w, TokenText(t), after);
    e := Some(x);
  }

  lemma Join4(k: string, w: string, t: string, a: string)
    ensures k + (w + t + a) == k + w + t + a
  {}

  lemma {:induction false} BodyInside(buf: string, pos: nat, f: Fields) returns (b: Body)
    requires pos <= |buf| && DecodeFrom(buf, pos, f).Parsed?
    ensures var r := DecodeFrom(buf, pos, f);
      BodyOk(b) && pos < r.pos <= |buf| && buf[pos..r.pos] == BodyText(b) && r.value == Collected(b, f)
    decreases |buf| - pos
  {
    hide ParseMember, EntryOk, EntryText, Taken, FieldOf;
    var m, r := ParseMember(buf, pos, f), DecodeFrom(buf, pos, f);
    var e := EntryInside(buf, pos, f);
    assert buf[pos..m.pos] == buf[pos..m.pos - 1] + [buf[m.pos - 1]];
    if e.None? {
      b := Closing(buf[pos..m.pos - 1]);
    } else if !m.value.1 {
      b := Last(e.value);
    } else {
      var rest := BodyInside(buf, m.pos, m.value.0);
      b := More(e.value, rest);
      assert buf[pos..r.pos] == buf[pos..m.pos] + buf[m.pos..r.pos];
    }
  }

  // ----- the frames ---------------------------------------------------------------------------------

  ghost predicate Spells(frame: string, req: Request) {
    exists b, trail ::
      BodyOk(b) && Blank(trail) && frame == "{" + BodyText(b) + trail && Assemble(Collected(b, NO_FIELDS)) == Ok(req)
  }

  /** Main result: the decoder accepts a frame, as a certain request, exactly when the frame is an
      opening brace, members of the lenient grammar up to their closing brace, and blanks, and the
      collected fields make that request. Every other frame is refused. */
  lemma AcceptedFrames(frame: string, req: Request)
    ensures Decode(frame) == Ok(req) <==> Spells(frame, req)
  {
    hide DecodeFrom, SkipWs, Assemble, Collected, BodyText, BodyOk, Blank;
    if Decode(frame) == Ok(req) {
      var r := DecodeFrom(frame, 1, NO_FIELDS);
      var b := BodyInside(frame, 1, NO_FIELDS);
      WsIsBlank(frame, r.pos);
      assert frame == "{" + frame[1..r.pos] + frame[r.pos..];
      assert SkipWs(frame, r.pos) == |frame|;
    }
    if Spells(frame, req) {
      var b, trail :| BodyOk(b) && Blank(trail) && frame == "{" + BodyText(b) + trail
                      && Assemble(Collected(b, NO_FIELDS)) == Ok(req);
      BodyRead("{", b, trail, NO_FIELDS);
      BlankTail("{" + BodyText(b), trail);
    }
  }

  /** Not JSON, and accepted: a comma before the closing brace, a member without a value, and a
      container closed by one bracket too many of the other kind. */
  lemma NotJsonYetAccepted()
    ensures Decode("{\"op\":\"list\",}") == Ok(ListVms)
    ensures Decode("{\"x\":,\"op\":\"list\"}") == Ok(ListVms)
    ensures Decode("{\"x\":[}],\"op\":\"list\"}") == Ok(ListVms)
  {
    ListOnly();
    hide *;
    TrailingComma();
    NoValue();
    CrossedBrackets();
  }

  const LIST_OP: Entry := Entry("", "op", "", "", Value(Str("list")), "")

  lemma ListOnly()
    ensures EntryOk(LIST_OP) && EntryText(LIST_OP) == "\"op\":\"list\""
    ensures forall f :: Taken(FieldOf(LIST_OP.key), LIST_OP.token, f) == f.(op := Some("list"))
  {}

  lemma TrailingComma()
    ensures Decode("{\"op\":\"list\",}") == Ok(ListVms)
  {
    ListOnly();
    hide Decode, EntryText, EntryOk, Taken;
    ListSpelled(More(LIST_OP, Closing("")), "{\"op\":\"list\",}");
  }

  lemma UnknownEntry(s: Stretch)
    requires StretchOk(s)
    ensures var e := Entry("", "x", "", "", Skipped(s), "");
      EntryOk(e) && EntryText(e) == "\"x\":" + StretchText(s) && forall f :: Taken(FieldOf(e.key), e.token, f) == f
  {
    hide StretchOk, StretchText;
    assert PlainText("x");
  }

  lemma LastText()
    ensures BodyText(Last(LIST_OP)) == "\"op\":\"list\"}"
  {
    ListOnly();
    hide EntryText;
  }

  lemma MoreText(e: Entry, rest: Body)
    ensures BodyText(More(e, rest)) == EntryText(e) + "," + BodyText(rest)
  {
    hide EntryText;
  }

  lemma UnknownFrame(s: Stretch)
    requires StretchOk(s)
    ensures "{" + BodyText(More(Entry("", "x", "", "", Skipped(s), ""), Last(LIST_OP))) == "{\"x\":" + StretchText(s) + ",\"op\":\"list\"}"
  {
    hide EntryText, BodyText, StretchText, EntryOk, Taken, FieldOf, StretchOk;
    UnknownEntry(s);
    LastText();
    MoreText(Entry("", "x", "", "", Skipped(s), ""), Last(LIST_OP));
    Around("\"x\":", StretchText(s), "\"op\":\"list\"}");
  }

  lemma Around(k: string, t: string, rest: string)
    ensures "{" + (k + t + "," + rest) == "{" + k + t + ("," + rest)
  {}

  /** An unknown member in front of the operation changes nothing, whatever is skipped as its value. */
  lemma UnknownFirst(s: Stretch, frame: string)
    requires StretchOk(s) && frame == "{\"x\":" + StretchText(s) + ",\"op\":\"list\"}"
    ensures Decode(frame) == Ok(ListVms)
  {
    ListOnly();
    UnknownEntry(s);
    UnknownFrame(s);
    hide Decode, EntryOk, StretchOk, StretchText, EntryText, BodyText, Taken, FieldOf;
    var e := Entry("", "x", "", "", Skipped(s), "");
    ListSpelled(More(e, Last(LIST_OP)), frame);
  }

  lemma NoValue()
    ensures Decode("{\"x\":,\"op\":\"list\"}") == Ok(ListVms)
  {
    hide Decode;
    UnknownFirst(Word(""), "{\"x\":,\"op\":\"list\"}");
  }

  lemma CrossedPieces()
    ensures Closes([Byte('}'), Byte(']')], true, 1) && PiecesText([Byte('}'), Byte(']')]) == "}]"
  {
    var ps := [Byte('}'), Byte(']')];
    assert ps[1..] == [Byte(']')] && ps[1..][1..] == [];
    assert Closes(ps[1..][1..], true, 0) && Closes(ps[1..], true, 1);
  }

  lemma CrossedBrackets()
    ensures Decode("{\"x\":[}],\"op\":\"list\"}") == Ok(ListVms)
  {
    hide Decode;
    var ps := [Byte('}'), Byte(']')];
    CrossedPieces();
    hide Closes, PiecesText;
    UnknownFirst(Group(true, ps), "{\"x\":[}],\"op\":\"list\"}");
  }

  lemma ListSpelled(b: Body, frame: string)
    requires BodyOk(b) && frame == "{" + BodyText(b) && Assemble(Collected(b, NO_FIELDS)) == Ok(ListVms)
    ensures Decode(frame) == Ok(ListVms)
  {
    hide Decode;
    assert Blank("") && frame == "{" + BodyText(b) + "";
    AcceptedFrames(frame, ListVms);
  }
}
