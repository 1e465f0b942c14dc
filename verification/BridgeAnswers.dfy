/** What the host hears after each line of a session, kind by kind. */
module BridgeAnswers {
  import opened Wrappers
  import opened WireScan
  import opened WireRequest
  import opened WireReply
  import opened WireLine
  import WireHostReply
  import opened WireStrict
  import opened Staging
  import opened Bridge
  import opened BridgeLoop
  import opened BridgeRuns

  /** After the session so far, this line makes the kernel send one more line, which the host reads as
      this reply and nothing else. */
  ghost predicate Tells(s: Session, x: Exchange, r: Reply)
    requires SessionOk(s) && SessionOk(s + [x])
  {
    exists line :: Transcript(s + [x]) == Transcript(s) + line && forall y :: Reads(line, y) <==> y == r
  }

  /** A message as the host gets it: at most as long as the reply's buffer, and without control bytes. */
  function Heard(text: string): string {
    WireHostReply.Audible(if |text| > ERROR_MSG_MAX then text[..ERROR_MSG_MAX] else text)
  }

  lemma OneMore(s: Session, x: Exchange)
    requires SessionOk(s) && SessionOk(s + [x])
    ensures AnswersOk(x.answers) && '\n' !in x.line
    ensures Transcript(s + [x]) == Transcript(s) + LineOf(ReplyAfter(s, x))
    ensures HeldAfter(s + [x]) == SlotAfter(HeldAfter(s), x.line)
    ensures SlotsAfter(s + [x]) == TablesAfter(SlotsAfter(s), x.line, x.answers)
  {
    hide AnswersOk, ReplyTo, TablesAfter, SlotAfter, LineOf;
    assert x in s + [x];
    assert (s + [x])[..|s|] == s;
  }

  /** A reply that can be encoded and lists no control byte is heard. */
  lemma Replied(s: Session, x: Exchange, r: Reply)
    requires SessionOk(s) && SessionOk(s + [x]) && AnswersOk(x.answers)
    requires ReplyAfter(s, x) == Some(r) && CleanReply(r)
    ensures Tells(s, x, WireHostReply.Seen(r))
  {
    hide SessionOk, Transcript, ReplyAfter, Reads, ReplyLine, CleanReply, WireHostReply.Seen, AnswersOk;
    OneMore(s, x);
    assert Emittable(r) by { RepliesEmittable(s, x); }
    hide Emittable;
    forall y
      ensures Reads(ReplyLine(r), y) <==> y == WireHostReply.Seen(r)
    {
      HostReadsExactly(r, y);
    }
    assert Transcript(s + [x]) == Transcript(s) + ReplyLine(r);
  }

  lemma ErrorTold(s: Session, x: Exchange)
    requires SessionOk(s) && SessionOk(s + [x]) && AnswersOk(x.answers)
    requires ReplyAfter(s, x) == Some(ErrorReply(Truncated(x.answers.text)))
    ensures Tells(s, x, ErrorReply(Heard(x.answers.text)))
  {
    hide SessionOk, ReplyAfter, Tells, AnswersOk;
    Replied(s, x, ErrorReply(Truncated(x.answers.text)));
  }

  /** A line of blanks gets no answer. */
  lemma BlankLine(s: Session, x: Exchange)
    requires SessionOk(s) && SessionOk(s + [x]) && forall k :: 0 <= k < |x.line| ==> x.line[k] == ' ' || x.line[k] == '\t'
    ensures Transcript(s + [x]) == Transcript(s)
    ensures HeldAfter(s + [x]) == HeldAfter(s) && SlotsAfter(s + [x]) == SlotsAfter(s)
  {
    OneMore(s, x);
    KeepAliveIsNoRequest(x.line);
    hide Decode, Transcript, HeldAfter, SlotsAfter, SessionOk;
    assert Transcript(s) + "" == Transcript(s);
  }

  predicate Blanks(line: string) { forall k :: 0 <= k < |line| ==> line[k] == ' ' || line[k] == '\t' }

  /** Any other line that is no request gets an error, and nothing else happens. */
  lemma NoRequest(s: Session, x: Exchange)
    requires SessionOk(s) && SessionOk(s + [x]) && !Blanks(x.line) && Decode(x.line).Err?
    ensures Tells(s, x, ErrorReply(Heard(x.answers.text)))
    ensures HeldAfter(s + [x]) == HeldAfter(s) && SlotsAfter(s + [x]) == SlotsAfter(s)
  {
    OneMore(s, x);
    assert !KeepAlive(x.line);
    hide Decode, KeepAlive, Transcript, HeldAfter, SlotsAfter, SessionOk, Tells, AnswersOk;
    ErrorTold(s, x);
  }

  lemma Requested(s: Session, x: Exchange, req: Request)
    requires SessionOk(s) && SessionOk(s + [x]) && Decode(x.line) == Ok(req)
    ensures AnswersOk(x.answers)
    ensures ReplyAfter(s, x) == match Answered(HeldAfter(s), SlotsAfter(s), req, x.answers)
                                case Ok(r) => Some(r)
                                case Err(_) => Some(ErrorReply(Truncated(x.answers.text)))
    ensures SlotsAfter(s + [x]) == Recorded(SlotsAfter(s), req, x.answers)
  {
    OneMore(s, x);
    if KeepAlive(x.line) { KeepAliveIsNoRequest(x.line); }
    hide Decode, KeepAlive, Transcript, HeldAfter, SlotsAfter, SessionOk, Answered, Recorded;
  }

  /** Main result (start and stop): the host hears the id it named, and the state and exit reason the VM
      manager gave; when the manager refuses, an error. */
  lemma StateIsTold(s: Session, x: Exchange, id: nat)
    requires SessionOk(s) && SessionOk(s + [x]) && (Decode(x.line) == Ok(Start(id)) || Decode(x.line) == Ok(Stop(id)))
    ensures x.answers.moved.Ok? ==> Tells(s, x, StateReply(id, x.answers.moved.value.0, x.answers.moved.value.1))
    ensures x.answers.moved.Err? ==> Tells(s, x, ErrorReply(Heard(x.answers.text)))
    ensures SlotsAfter(s + [x]) == SlotsAfter(s)
  {
    Requested(s, x, Decode(x.line).value);
    hide Decode, SessionOk, ReplyAfter, Tells, SlotsAfter, HeldAfter, AnswersOk;
    if x.answers.moved.Ok? {
      Replied(s, x, StateReply(id, x.answers.moved.value.0, x.answers.moved.value.1));
    } else {
      ErrorTold(s, x);
    }
  }

  /** Main result (create): the host hears the slot the manager gave, and that slot holds the request's
      label and configuration afterwards, all others what they held; otherwise an error. */
  lemma CreationIsTold(s: Session, x: Exchange, req: Request)
    requires SessionOk(s) && SessionOk(s + [x]) && Decode(x.line) == Ok(req) && req.Create?
    ensures var path := if req.imagePath.Some? then req.imagePath.value else "";
      if x.answers.created.Ok? && x.answers.created.value < 4 then
        var k := x.answers.created.value;
        && Tells(s, x, CreatedReply(k))
        && SlotsAfter(s + [x])[k] == Slot(req.name, Extras(path, req.cpuCount, req.memoryMib, req.bootCrc))
        && forall j :: 0 <= j < 4 && j != k ==> SlotsAfter(s + [x])[j] == SlotsAfter(s)[j]
      else Tells(s, x, ErrorReply(Heard(x.answers.text))) && SlotsAfter(s + [x]) == SlotsAfter(s)
  {
    Requested(s, x, req);
    hide Decode, SessionOk, ReplyAfter, Tells, SlotsAfter, HeldAfter, AnswersOk;
    if x.answers.created.Ok? && x.answers.created.value < 4 {
      Replied(s, x, CreatedReply(x.answers.created.value));
    } else {
      ErrorTold(s, x);
    }
  }

  /** Main result (delete): the host hears the id it named, and that slot is empty afterwards; when the
      manager refuses, an error. */
  lemma DeletionIsTold(s: Session, x: Exchange, id: nat)
    requires SessionOk(s) && SessionOk(s + [x]) && Decode(x.line) == Ok(Delete(id))
    ensures if x.answers.deleted.Ok? then
        && Tells(s, x, DeletedReply(id))
        && (id < 4 ==> SlotsAfter(s + [x])[id] == Slot("", Extras("", None, None, None)))
        && forall j :: 0 <= j < 4 && j != id ==> SlotsAfter(s + [x])[j] == SlotsAfter(s)[j]
      else Tells(s, x, ErrorReply(Heard(x.answers.text))) && SlotsAfter(s + [x]) == SlotsAfter(s)
  {
    Requested(s, x, Delete(id));
    hide Decode, SessionOk, ReplyAfter, Tells, SlotsAfter, HeldAfter, AnswersOk;
    if x.answers.deleted.Ok? {
      Replied(s, x, DeletedReply(id));
    } else {
      ErrorTold(s, x);
    }
  }

  /** The staging slot of every session holds at most one page. */
  lemma {:induction false} HeldIsBounded(s: Session)
    ensures HeldAfter(s).Some? ==> 1 <= |HeldAfter(s).value| <= MAX_IMAGE_BYTES
  {
    hide Decode, BytesOf, Crc;
    if s != [] { HeldIsBounded(s[..|s| - 1]); }
  }

  /** Main result (upload): the host hears its own length and digest exactly when the staging slot holds
      bytes of that length and digest afterwards; otherwise it hears an error. */
  lemma UploadIsTold(s: Session, x: Exchange, len: nat, crc: nat, hex: string)
    requires SessionOk(s) && SessionOk(s + [x]) && Decode(x.line) == Ok(ImageLoad(len, crc, hex))
    ensures var held := HeldAfter(s + [x]);
      if held.Some? && |held.value| == len && Crc(held.value) == crc then Tells(s, x, ImageLoadedReply(len, crc))
      else Tells(s, x, ErrorReply(Heard(x.answers.text)))
    ensures SlotsAfter(s + [x]) == SlotsAfter(s)
  {
    Requested(s, x, ImageLoad(len, crc, hex));
    OneMore(s, x);
    HeldIsBounded(s);
    UploadDecides(HeldAfter(s), len, crc, hex);
    assert |hex| == 2 * len by { UploadLength(x.line, len, crc, hex); }
    assert HeldAfter(s + [x]) == Staged(HeldAfter(s), hex, len, crc).1;
    hide Decode, SessionOk, ReplyAfter, Tells, SlotsAfter, HeldAfter, AnswersOk, Staged, Crc;
    if Staged(HeldAfter(s), hex, len, crc).0.Ok? {
      Replied(s, x, ImageLoadedReply(len, crc));
    } else {
      ErrorTold(s, x);
    }
  }

  lemma UploadLength(line: string, len: nat, crc: nat, hex: string)
    requires Decode(line) == Ok(ImageLoad(len, crc, hex))
    ensures |hex| == 2 * len
  {
    hide DecodeFrom, SkipWs;
  }

  lemma UploadDecides(held: Option<seq<Byte>>, len: nat, crc: nat, hex: string)
    requires held.Some? ==> 1 <= |held.value| <= MAX_IMAGE_BYTES
    ensures |hex| == 2 * len ==>
      var (r, after) := Staged(held, hex, len, crc);
      r.Ok? <==> after.Some? && |after.value| == len && Crc(after.value) == crc
  {
    hide BytesOf, Crc;
  }

  /** Main result (list): with labels and paths free of control bytes, the host hears exactly the VMs the
      manager lists, by slot, each under the label and configuration its slot holds. */
  lemma ListIsTold(s: Session, x: Exchange)
    requires SessionOk(s) && SessionOk(s + [x]) && Decode(x.line) == Ok(ListVms)
    requires forall k :: 0 <= k < 4 && x.answers.entries[k].Some? ==> CleanSlot(SlotsAfter(s)[k])
    ensures AnswersOk(x.answers)
    ensures var t, es := SlotsAfter(s), x.answers.entries;
      Tells(s, x, ListedReply(RowOf(0, es[0], t[0]) + RowOf(1, es[1], t[1]) + RowOf(2, es[2], t[2]) + RowOf(3, es[3], t[3])))
  {
    Requested(s, x, ListVms);
    var r := Listing(x.answers.entries, SlotsAfter(s));
    CleanListing(x.answers.entries, SlotsAfter(s));
    FourSeen(x.answers.entries, SlotsAfter(s));
    hide Decode, SessionOk, ReplyAfter, Tells, SlotsAfter, HeldAfter, AnswersOk, Listing, CleanReply, CleanSlot, WireHostReply.Seen, RowOf;
    Replied(s, x, r);
  }

  /** The row of one slot, if a VM is there. */
  function RowOf(k: nat, entry: Option<VmEntry>, t: Slot): seq<Option<Row>> {
    if entry.None? then []
    else
      var e := entry.value;
      [Some(Row(k, t.name, e.state, e.lastExit, t.extras.imagePath, t.extras.cpuCount, t.extras.memoryMib, t.extras.bootCrc))]
  }

  lemma FourSeen(es: seq<Option<VmEntry>>, t: Tables)
    requires |es| == 4
    ensures WireHostReply.Seen(Listing(es, t))
         == ListedReply(RowOf(0, es[0], t[0]) + RowOf(1, es[1], t[1]) + RowOf(2, es[2], t[2]) + RowOf(3, es[3], t[3]))
  {
    var rows := Listing(es, t).rows;
    assert |rows| == 4;
    assert WireHostReply.Present(rows, 4) == [];
    assert WireHostReply.Present(rows, 3) == RowOf(3, es[3], t[3]);
    assert WireHostReply.Present(rows, 2) == RowOf(2, es[2], t[2]) + WireHostReply.Present(rows, 3);
    assert WireHostReply.Present(rows, 1) == RowOf(1, es[1], t[1]) + WireHostReply.Present(rows, 2);
    assert WireHostReply.Present(rows, 0) == RowOf(0, es[0], t[0]) + WireHostReply.Present(rows, 1);
  }
}
