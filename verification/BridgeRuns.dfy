/** Whole sessions of the bridge: what a list says of a slot, and when the host can read it. */
module BridgeRuns {
  import opened Wrappers
  import opened WireScan
  import opened WireRequest
  import WireHost
  import opened WireReply
  import opened WireLine
  import WireGrammar
  import WireHostReply
  import opened WireStrict
  import opened Staging
  import opened Bridge
  import opened BridgeLoop
  import SerialLine

  /** A received line with what the VM manager answers during its turn. */
  datatype Exchange = Exchange(line: string, answers: Answers)

  type Session = seq<Exchange>

  ghost predicate SessionOk(s: Session) { forall x :: x in s ==> AnswersOk(x.answers) && '\n' !in x.line }

  /** The staging slot and the side tables since boot. */
  function HeldAfter(s: Session): Option<seq<Byte>> {
    if s == [] then None else SlotAfter(HeldAfter(s[..|s| - 1]), s[|s| - 1].line)
  }

  function SlotsAfter(s: Session): Tables {
    if s == [] then NO_LABELS else TablesAfter(SlotsAfter(s[..|s| - 1]), s[|s| - 1].line, s[|s| - 1].answers)
  }

  function ReplyAfter(s: Session, x: Exchange): Option<Reply>
    requires |x.answers.entries| == ROWS_MAX
  {
    ReplyTo(HeldAfter(s), SlotsAfter(s), x.line, x.answers)
  }

  function LineOf(r: Option<Reply>): string { if r.Some? then ReplyLine(r.value) else "" }

  /** Everything sent in a session: the reply lines of its turns, in order. */
  ghost function Transcript(s: Session): string
    requires SessionOk(s)
  {
    if s == [] then ""
    else
      assert s[|s| - 1] in s;
      Transcript(s[..|s| - 1]) + LineOf(ReplyAfter(s[..|s| - 1], s[|s| - 1]))
  }

  // ----- the loop over the bytes received -----------------------------------------------------------

  /** The lines of the stream from p on, each as the reader hands it over or refuses it; bytes behind
      the last newline are still waited on. */
  function Frames(rx: string, p: nat): seq<Result<string, HyperError>>
    requires p <= |rx|
    decreases |rx| - p
  {
    var e := SerialLine.LineEnd(rx, p);
    if e == |rx| then [] else [SerialLine.Framed(rx[p..e], MAX_FRAME_BYTES)] + Frames(rx, e + 1)
  }

  /** Lines as a host sends them, each behind a newline. */
  function Sent(lines: seq<string>): string
    decreases lines
  {
    if lines == [] then "" else lines[0] + "\n" + Sent(lines[1..])
  }

  lemma FirstFrame(before: string, l: string, rest: string)
    requires '\n' !in l && '\r' !in l
    ensures var next := before + l + "\n";
      && before + (l + "\n" + rest) == next + rest
      && Frames(next + rest, |before|) == [if |l| <= 12288 then Ok(l) else Err(Exhausted)] + Frames(next + rest, |next|)
  {
    var next := before + l + "\n";
    var rx := next + rest;
    Rejoined(before, l, rest);
    SerialLine.LineIsRead(before, l, rest, MAX_FRAME_BYTES);
    assert |next| == |before + l| + 1;
    hide SerialLine.Framed, SerialLine.LineEnd;
  }

  /** Lines without line breaks are taken one by one as they were sent, each refused exactly when it
      is longer than the receive buffer. */
  lemma {:induction false} FramesOfSent(before: string, lines: seq<string>, k: nat)
    requires forall l :: l in lines ==> '\n' !in l && '\r' !in l
    requires k < |lines|
    ensures var fs := Frames(before + Sent(lines), |before|);
      |fs| == |lines| && fs[k] == if |lines[k]| <= 12288 then Ok(lines[k]) else Err(Exhausted)
    decreases lines
  {
    var next, rest := before + lines[0] + "\n", Sent(lines[1..]);
    FirstFrame(before, lines[0], rest);
    hide Frames;
    if |lines| > 1 {
      FramesOfSent(next, lines[1..], if k > 0 then k - 1 else 0);
    } else {
      NothingFollows(next, rest, lines[1..]);
    }
  }

  lemma Rejoined(a: string, b: string, c: string)
    ensures a + (b + "\n" + c) == a + b + "\n" + c
  {}

  lemma NothingFollows(rx: string, rest: string, lines: seq<string>)
    requires rest == Sent(lines) && lines == []
    ensures Frames(rx + rest, |rx|) == []
  {
    assert rx + rest == rx;
  }

  /** The lines that fit, in order. */
  function Fitting(fs: seq<Result<string, HyperError>>): seq<string> {
    if fs == [] then [] else (if fs[0].Ok? then [fs[0].value] else []) + Fitting(fs[1..])
  }

  /** The k-th line that fits meets the k-th answers of the manager. */
  function SessionOf(lines: seq<string>, answers: seq<Answers>): Session
    requires |lines| == |answers|
  {
    seq(|lines|, k requires 0 <= k < |lines| => Exchange(lines[k], answers[k]))
  }

  lemma {:induction false} StoredOneLine(s: string)
    requires '\n' !in s
    ensures '\n' !in SerialLine.Stored(s)
  {
    if s != "" { StoredOneLine(s[1..]); }
  }

  lemma NextFrame(rx: string, p: nat)
    requires p <= |rx| && SerialLine.LineEnd(rx, p) < |rx|
    ensures var e := SerialLine.LineEnd(rx, p);
      var f := SerialLine.Framed(rx[p..e], MAX_FRAME_BYTES);
      && Fitting(Frames(rx, p)) == (if f.Ok? then [f.value] else []) + Fitting(Frames(rx, e + 1))
      && (f.Ok? ==> '\n' !in f.value)
  {
    var e := SerialLine.LineEnd(rx, p);
    hide SerialLine.LineEnd, SerialLine.Stored, Frames, Fitting;
    StoredOneLine(rx[p..e]);
    OneFrame(rx, p);
    FittingHead(SerialLine.Framed(rx[p..e], MAX_FRAME_BYTES), Frames(rx, e + 1));
  }

  lemma OneFrame(rx: string, p: nat)
    requires p <= |rx| && SerialLine.LineEnd(rx, p) < |rx|
    ensures var e := SerialLine.LineEnd(rx, p);
      Frames(rx, p) == [SerialLine.Framed(rx[p..e], MAX_FRAME_BYTES)] + Frames(rx, e + 1)
  {
    hide SerialLine.LineEnd, SerialLine.Framed;
  }

  lemma FittingHead(f: Result<string, HyperError>, rest: seq<Result<string, HyperError>>)
    ensures Fitting([f] + rest) == (if f.Ok? then [f.value] else []) + Fitting(rest)
  {
    assert ([f] + rest)[1..] == rest;
  }

  /** What the loop has done after some lines. */
  ghost predicate Served(kernel: Kernel, sent: string, lines: seq<string>, answers: seq<Answers>)
    reads kernel, kernel.staged, kernel.staged.bytes, kernel.tables, kernel.tables.names, kernel.tables.extras
  {
    && kernel.Valid() && |lines| <= |answers|
    && var s := SessionOf(lines, answers[..|lines|]);
    && SessionOk(s) && sent == Transcript(s)
    && kernel.staged.Held() == HeldAfter(s) && kernel.Slots() == SlotsAfter(s)
  }

  lemma SessionMore(lines: seq<string>, answers: seq<Answers>, line: string)
    requires |lines| < |answers| && SessionOk(SessionOf(lines, answers[..|lines|]))
    requires AnswersOk(answers[|lines|]) && '\n' !in line
    ensures var s, x := SessionOf(lines, answers[..|lines|]), Exchange(line, answers[|lines|]);
      && SessionOf(lines + [line], answers[..|lines| + 1]) == s + [x]
      && SessionOk(s + [x])
      && Transcript(s + [x]) == Transcript(s) + LineOf(ReplyAfter(s, x))
      && HeldAfter(s + [x]) == SlotAfter(HeldAfter(s), line)
      && SlotsAfter(s + [x]) == TablesAfter(SlotsAfter(s), line, x.answers)
  {
    hide AnswersOk, ReplyTo, TablesAfter, SlotAfter, LineOf;
    var s, x := SessionOf(lines, answers[..|lines|]), Exchange(line, answers[|lines|]);
    assert (s + [x])[..|s|] == s;
    assert forall y :: y in s + [x] <==> y in s || y == x;
  }

  /** One turn: the reply is sent and the session grows by one exchange. */
  method ServeLine(kernel: Kernel, ghost sent: string, ghost lines: seq<string>, ghost answers: seq<Answers>, line: string, a: Answers)
    returns (reply: string)
    requires Served(kernel, sent, lines, answers) && |lines| < |answers| && a == answers[|lines|] && AnswersOk(a) && '\n' !in line
    modifies kernel.staged, kernel.staged.bytes, kernel.tables.names, kernel.tables.extras, kernel.tx
    ensures Served(kernel, sent + reply, lines + [line], answers)
  {
    hide ReplyTo, TablesAfter, SlotAfter, ReplyLine, SessionOk, HeldAfter, SlotsAfter, Transcript, AnswersOk;
    SessionMore(lines, answers, line);
    var text, _, _ := kernel.Turn(line, a);
    reply := text;
  }

  /** Main result: the bridge loop over any stream of bytes, from boot. What is sent is exactly the
      replies to the lines that fit the receive buffer, in order; over-long lines get no reply and
      leave everything as it was. */
  method Serve(kernel: Kernel, uart: SerialLine.Uart, answers: seq<Answers>) returns (sent: string)
    requires kernel.Valid() && kernel.staged.Held() == None && kernel.Slots() == NO_LABELS
    requires uart.next == 0 && |answers| == |Fitting(Frames(uart.rx, 0))| && forall a :: a in answers ==> AnswersOk(a)
    modifies kernel.staged, kernel.staged.bytes, kernel.tables.names, kernel.tables.extras, kernel.tx, uart
    ensures var s := SessionOf(Fitting(Frames(uart.rx, 0)), answers);
      && SessionOk(s) && sent == Transcript(s)
      && kernel.Valid() && kernel.staged.Held() == HeldAfter(s) && kernel.Slots() == SlotsAfter(s)
  {
    hide Served, Fitting, Frames, SerialLine.LineEnd, SerialLine.Stored, AnswersOk;
    var rx := new char[MAX_FRAME_BYTES](_ => ' ');
    ghost var lines: seq<string> := [];
    var taken := 0;
    sent := "";
    assert Served(kernel, "", [], answers) by { NothingServed(kernel, answers); }
    while uart.HasLine()
      invariant uart.Valid() && rx.Length == MAX_FRAME_BYTES && fresh(rx)
      invariant Served(kernel, sent, lines, answers) && taken == |lines|
      invariant lines + Fitting(Frames(uart.rx, uart.next)) == Fitting(Frames(uart.rx, 0))
      decreases |uart.rx| - uart.next
    {
      NextFrame(uart.rx, uart.next);
      ghost var p := uart.next;
      var n := uart.ReadLine(rx);
      if n.Err? {
        continue;
      }
      var line := rx[..n.value];
      var reply := ServeLine(kernel, sent, lines, answers, line, answers[taken]);
      taken := taken + 1;
      sent := sent + reply;
      lines := lines + [line];
    }
    NoFrames(uart.rx, uart.next);
    assert lines + [] == lines && answers[..|answers|] == answers;
    AllServed(kernel, sent, lines, answers);
  }

  lemma NothingServed(kernel: Kernel, answers: seq<Answers>)
    requires kernel.Valid() && kernel.staged.Held() == None && kernel.Slots() == NO_LABELS
    ensures Served(kernel, "", [], answers)
  {
    assert SessionOf([], answers[..0]) == [];
  }

  lemma NoFrames(rx: string, p: nat)
    requires p <= |rx| && SerialLine.LineEnd(rx, p) == |rx|
    ensures Fitting(Frames(rx, p)) == []
  {
    hide SerialLine.LineEnd;
  }

  lemma AllServed(kernel: Kernel, sent: string, lines: seq<string>, answers: seq<Answers>)
    requires Served(kernel, sent, lines, answers) && |lines| == |answers|
    ensures var s := SessionOf(lines, answers);
      && SessionOk(s) && sent == Transcript(s)
      && kernel.Valid() && kernel.staged.Held() == HeldAfter(s) && kernel.Slots() == SlotsAfter(s)
  {
    hide HeldAfter, SlotsAfter, Transcript, SessionOk, SessionOf;
    assert answers[..|lines|] == answers;
  }

  // ----- a list echoes the last create of each slot ----------------------------------------------

  /** The manager answered this line's create with slot k. */
  predicate CreatesAt(x: Exchange, k: nat) {
    Decode(x.line).Ok? && Decode(x.line).value.Create? && x.answers.created == Ok(k)
  }

  predicate DeletesAt(x: Exchange, k: nat) { Decode(x.line) == Ok(Delete(k)) && x.answers.deleted.Ok? }

  predicate Touches(x: Exchange, k: nat) { CreatesAt(x, k) || DeletesAt(x, k) }

  /** Exchange j is the last one to touch slot k. */
  ghost predicate LastTouch(s: Session, j: nat, k: nat) {
    j < |s| && Touches(s[j], k) && forall i :: j < i < |s| ==> !Touches(s[i], k)
  }

  lemma {:induction false} SlotIsLastTouch(s: Session, j: nat, k: nat)
    requires k < ROWS_MAX && LastTouch(s, j, k)
    ensures SlotsAfter(s)[k] == if CreatesAt(s[j], k) then Brought(Decode(s[j].line).value) else FREE_SLOT
  {
    hide Decode;
    var n := |s| - 1;
    if j < n {
      assert !Touches(s[n], k);
      assert LastTouch(s[..n], j, k);
      SlotIsLastTouch(s[..n], j, k);
    }
  }

  lemma {:induction false} UntouchedIsFree(s: Session, k: nat)
    requires k < ROWS_MAX && forall x :: x in s ==> !Touches(x, k)
    ensures SlotsAfter(s)[k] == FREE_SLOT
  {
    hide Decode;
    if s != [] {
      assert !Touches(s[|s| - 1], k);
      UntouchedIsFree(s[..|s| - 1], k);
    }
  }

  /** Main result: in every session, a list reports each VM under the label and the extras of the
      last create the manager answered with its slot. */
  lemma ListEchoesLastCreate(s: Session, x: Exchange, j: nat, k: nat)
    requires AnswersOk(x.answers) && Decode(x.line) == Ok(ListVms)
    requires k < ROWS_MAX && LastTouch(s, j, k) && CreatesAt(s[j], k)
    ensures var created := Decode(s[j].line).value;
      && ReplyAfter(s, x).Some? && ReplyAfter(s, x).value.ListedReply?
      && var row := ReplyAfter(s, x).value.rows[k];
      if x.answers.entries[k].None? then row.None?
      else row == Some(Row(k, created.name, x.answers.entries[k].value.state, x.answers.entries[k].value.lastExit,
                           if created.imagePath.Some? then created.imagePath.value else "",
                           created.cpuCount, created.memoryMib, created.bootCrc))
  {
    ListReplies(s, x);
    hide Decode, KeepAlive, ReplyAfter, SlotsAfter;
    SlotIsLastTouch(s, j, k);
  }

  lemma ListReplies(s: Session, x: Exchange)
    requires AnswersOk(x.answers) && Decode(x.line) == Ok(ListVms)
    ensures ReplyAfter(s, x) == Some(Listing(x.answers.entries, SlotsAfter(s)))
  {
    hide Decode, KeepAlive;
    if KeepAlive(x.line) { KeepAliveIsNoRequest(x.line); }
  }

  // ----- what the host can read ---------------------------------------------------------------------

  predicate CleanSlot(s: Slot) { WireHost.Clean(s.name) && WireHost.Clean(s.extras.imagePath) }

  /** A line that brings in no control byte: not a create, or a create of clean text. */
  predicate CleanLine(line: string) {
    Decode(line).Ok? && Decode(line).value.Create? ==> CleanSlot(Brought(Decode(line).value))
  }

  /** No request the host prints brings in a control byte, whatever its strings hold. */
  lemma HostLinesAreClean(req: Request)
    requires WireHost.Typed(req)
    ensures CleanLine(WireHost.HostText(req))
  {
    WireHost.HostRoundTrip(req);
    hide Decode, WireHost.HostText;
    assert WireHost.Clean("");
  }

  lemma {:induction false} SlotsStayClean(s: Session)
    requires forall x :: x in s ==> CleanLine(x.line)
    ensures forall k :: 0 <= k < ROWS_MAX ==> CleanSlot(SlotsAfter(s)[k])
  {
    hide Decode, CleanSlot;
    assert CleanSlot(FREE_SLOT) by { FreeIsClean(); }
    if s != [] {
      assert CleanLine(s[|s| - 1].line);
      SlotsStayClean(s[..|s| - 1]);
    }
  }

  lemma FreeIsClean()
    ensures CleanSlot(FREE_SLOT)
  {}

  predicate SlotOk(s: Slot) { |s.name| <= LABEL_MAX && LineText(s.name) && ExtrasOk(s.extras) }

  lemma BroughtOk(line: string)
    requires '\n' !in line && Decode(line).Ok? && Decode(line).value.Create?
    ensures SlotOk(Brought(Decode(line).value))
  {
    DecodedIsSafe(line);
    hide Decode;
  }

  lemma FreeIsOk()
    ensures SlotOk(FREE_SLOT)
  {}

  lemma {:induction false} SlotsStayOk(s: Session)
    requires SessionOk(s)
    ensures forall k :: 0 <= k < ROWS_MAX ==> SlotOk(SlotsAfter(s)[k])
  {
    hide Decode, SlotOk, AnswersOk, Brought;
    FreeIsOk();
    if s != [] {
      var x := s[|s| - 1];
      assert x in s;
      SlotsStayOk(s[..|s| - 1]);
      if Decode(x.line).Ok? && Decode(x.line).value.Create? { BroughtOk(x.line); }
    }
  }

  lemma ListingEmittable(entries: seq<Option<VmEntry>>, t: Tables)
    requires |entries| == ROWS_MAX && forall k :: 0 <= k < ROWS_MAX && entries[k].Some? ==> OptFits(entries[k].value.lastExit, U32_LIMIT)
    requires forall k :: 0 <= k < ROWS_MAX ==> SlotOk(t[k])
    ensures Emittable(Listing(entries, t))
  {
    hide LineText, OptFits;
    var r := Listing(entries, t);
    forall k | 0 <= k < ROWS_MAX && r.rows[k].Some?
      ensures EmittableRow(r.rows[k].value) && TypedRow(r.rows[k].value)
    {
      assert SlotOk(t[k]);
    }
  }

  /** Every reply of a session can be encoded. */
  lemma RepliesEmittable(s: Session, x: Exchange)
    requires SessionOk(s) && AnswersOk(x.answers) && '\n' !in x.line
    ensures ReplyAfter(s, x).Some? ==> Emittable(ReplyAfter(s, x).value)
  {
    SlotsStayOk(s);
    DecodedIsSafe(x.line);
    hide Decode, SlotsAfter, SlotOk, HeldAfter, KeepAlive, Staged, Listing, TypedRow, EmittableRow;
    ListingEmittable(x.answers.entries, SlotsAfter(s));
  }

  lemma RepliesClean(s: Session, x: Exchange)
    requires AnswersOk(x.answers) && forall k :: 0 <= k < ROWS_MAX ==> CleanSlot(SlotsAfter(s)[k])
    ensures ReplyAfter(s, x).Some? ==> CleanReply(ReplyAfter(s, x).value)
  {
    hide Decode, SlotsAfter, WireHost.Clean, HeldAfter, KeepAlive, Staged;
  }

  /** Main result: the host can read the answer to a list exactly when every listed slot was last
      created with a label and a path free of control bytes. */
  lemma ListReadable(s: Session, x: Exchange, seen: Reply)
    requires SessionOk(s + [x]) && Decode(x.line) == Ok(ListVms)
    ensures ReplyAfter(s, x).Some?
    ensures Reads(ReplyLine(ReplyAfter(s, x).value), seen)
        <==> seen == WireHostReply.Seen(ReplyAfter(s, x).value)
             && forall k :: 0 <= k < ROWS_MAX && x.answers.entries[k].Some? ==> CleanSlot(SlotsAfter(s)[k])
  {
    assert x in s + [x];
    hide ReplyAfter, Decode, SlotsAfter, Reads, ReplyLine, Emittable, WireHost.Clean, WireHostReply.Seen, Listing, AnswersOk, CleanSlot, CleanReply;
    ListReplies(s, x);
    RepliesEmittable(s, x);
    CleanListing(x.answers.entries, SlotsAfter(s));
    HostReadsExactly(Listing(x.answers.entries, SlotsAfter(s)), seen);
  }

  lemma CleanListing(entries: seq<Option<VmEntry>>, t: Tables)
    requires |entries| == ROWS_MAX
    ensures CleanReply(Listing(entries, t)) <==> forall k :: 0 <= k < ROWS_MAX && entries[k].Some? ==> CleanSlot(t[k])
  {
    hide WireHost.Clean;
    var r := Listing(entries, t);
    assert forall k :: 0 <= k < ROWS_MAX && entries[k].Some? ==> (CleanRow(r.rows[k].value) <==> CleanSlot(t[k]));
    assert forall k :: 0 <= k < ROWS_MAX ==> (r.rows[k].Some? <==> entries[k].Some?);
  }

  /** Main result: when every received line brings in clean text only, as all lines the host
      prints do, the host can read every reply of the session. */
  lemma CleanSessionsAreReadable(s: Session, x: Exchange)
    requires SessionOk(s + [x]) && forall y :: y in s ==> CleanLine(y.line)
    requires ReplyAfter(s, x).Some?
    ensures var r := ReplyAfter(s, x).value; Reads(ReplyLine(r), WireHostReply.Seen(r))
  {
    hide Reads, ReplyLine;
    var r := ReplyAfter(s, x).value;
    SlotsStayClean(s);
    RepliesEmittable(s, x);
    RepliesClean(s, x);
    HostReadsExactly(r, WireHostReply.Seen(r));
  }
}
