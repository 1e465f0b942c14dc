/** The host-side VM controller: slots, lifecycle, and the digest that guards against a boot
    image changing between starts. */
module Controller {
  import opened Wrappers
  import Crc32c
  import opened Crc32cDivision
  import opened DriftPages
  import DiskFile
  import opened DiskImage
  import opened Lifecycle

  type Byte = Crc32c.Byte

  const MAX_VMS: nat := 4
  const BOOT_BLOB_LEN: nat := 4096

  datatype CelError = BadRequest | Full | IoFailed

  datatype Spec = Spec(name: string, imagePath: Option<string>, cpuCount: Option<nat>, memoryMib: Option<nat>)

  datatype Record = Record(id: nat, state: VmState, lastExit: Option<nat>, spec: Spec, blobLen: Option<nat>, blobCrc: Option<bv32>)

  predicate SpecOk(s: Spec) {
    && |s.name| <= 32
    && (s.cpuCount.Some? ==> 1 <= s.cpuCount.value <= 64)
    && (s.memoryMib.Some? ==> 1 <= s.memoryMib.value <= 1024 * 1024)
  }

  // ----- one record ------------------------------------------------------------------------

  /** What a start finds: the boot page when one was staged, and the kernel's echoed digest when
      it was shipped. */
  datatype Staging =
    | NotStaged
    | StageFailed
    | StagedPage(page: seq<Byte>, echo: Option<Result<bv32, CelError>>)

  /** Whether a start goes through: nothing was staged, or the page has the recorded digest (if
      there is one) and the kernel echoed it (if it was shipped). */
  predicate StartAllowed(r: Record, st: Staging) {
    r.state == Created &&
    match st
    case NotStaged => true
    case StageFailed => false
    case StagedPage(page, echo) =>
      && (r.blobCrc.Some? ==> r.blobCrc.value == Crc32c.Digest(page))
      && (echo.Some? ==> echo.value == Ok(Crc32c.Digest(page)))
  }

  function StartedRecord(r: Record, st: Staging): Record {
    if !StartAllowed(r, st) then r
    else
      var d := if st.StagedPage? then r.(blobLen := Some(|st.page|), blobCrc := Some(Crc32c.Digest(st.page))) else r;
      d.(state := Halted, lastExit := Some(12))
  }

  function ResetRecord(r: Record): Record { if Terminal(r.state) then r.(state := Created, lastExit := None) else r }

  function StoppedRecord(r: Record): Record { if Terminal(r.state) then r else r.(state := Stopped) }

  /** The first page of an image, clipped to its size, when all of it can be read. */
  ghost function BootPage(image: Image): Option<seq<Byte>>
    requires image.Valid()
  {
    var want := if image.VirtualSize() < BOOT_BLOB_LEN then image.VirtualSize() else BOOT_BLOB_LEN;
    if want == 0 || !image.Covers(0, want) then None
    else Some(seq(want, o requires 0 <= o < want => image.ByteAt(o).value))
  }

  ghost function StagingOf(stages: bool, ships: bool, found: Result<Image, CelError>, stored: bool, answer: Result<bv32, CelError>): Staging
    requires found.Ok? ==> found.value.Valid()
  {
    if !stages then NotStaged
    else if found.Err? || BootPage(found.value).None? || !stored then StageFailed
    else StagedPage(BootPage(found.value).value, if ships then Some(answer) else None)
  }

  /** stored is whether the page could be written and moved into place. */
  method StageBootBlob(image: Image, stored: bool) returns (r: Result<(seq<Byte>, bv32), CelError>)
    requires image.Valid()
    ensures r.Ok? <==> BootPage(image).Some? && stored
    ensures image.VirtualSize() == 0 ==> r == Err(BadRequest)
    ensures image.VirtualSize() > 0 ==>
      match BootPage(image)
      case None => r == Err(IoFailed)
      case Some(page) =>
        && r == (if stored then Ok((page, Crc32c.Digest(page))) else Err(IoFailed))
        && |page| == (if image.VirtualSize() < BOOT_BLOB_LEN then image.VirtualSize() else BOOT_BLOB_LEN)
        && forall o :: 0 <= o < |page| ==> image.ByteAt(o) == Some(page[o])
  {
    hide Crc32c.Digest;
    var virt := image.VirtualSize();
    if virt == 0 {
      return Err(BadRequest);
    }
    var want := if virt < BOOT_BLOB_LEN then virt else BOOT_BLOB_LEN;
    var buf := new Byte[want](_ => 0);
    var read := image.ReadExactAt(0, buf);
    if read.Err? {
      return Err(IoFailed);
    }
    var page := buf[..];
    assert page == BootPage(image).value;
    var crc := Crc32c.Checksum(page);
    if !stored {
      return Err(IoFailed);
    }
    r := Ok((page, crc));
  }

  // ----- the controller object -------------------------------------------------------------------

  function FirstEmpty(slots: seq<Option<Record>>): (r: Option<nat>)
    ensures r.Some? ==> r.value < |slots| && slots[r.value] == None && None !in slots[..r.value]
    ensures r.None? ==> None !in slots
    decreases |slots|
  {
    if slots == [] then None
    else if slots[0] == None then Some(0)
    else match FirstEmpty(slots[1..]) case None => None case Some(i) => assert slots[..i + 1] == [slots[0]] + slots[1..][..i]; Some(i + 1)
  }

  class Controller {
    var slots: seq<Option<Record>>
    /** Whether a stage root and a sink are bound. */
    const staging: bool
    const shipping: bool

    constructor (staging: bool, shipping: bool)
      ensures Valid() && slots == [None, None, None, None] && this.staging == staging && this.shipping == shipping
    {
      slots := [None, None, None, None];
      this.staging, this.shipping := staging, shipping;
    }

    ghost predicate Valid()
      reads this
    {
      |slots| == MAX_VMS && forall k :: 0 <= k < MAX_VMS && slots[k].Some? ==> slots[k].value.id == k && SpecOk(slots[k].value.spec)
    }

    predicate Holds(id: nat)
      reads this
    {
      id < |slots| && slots[id].Some?
    }

    method CreateVmWith(spec: Spec) returns (r: Result<nat, CelError>)
      requires Valid()
      modifies this
      ensures Valid()
      ensures !SpecOk(spec) ==> r == Err(BadRequest) && slots == old(slots)
      ensures SpecOk(spec) ==>
        match FirstEmpty(old(slots))
        case None => r == Err(Full) && slots == old(slots)
        case Some(i) => r == Ok(i) && slots == old(slots)[i := Some(Record(i, Created, None, spec, None, None))]
    {
      if |spec.name| > 32 {
        return Err(BadRequest);
      }
      if spec.cpuCount.Some? && (spec.cpuCount.value == 0 || spec.cpuCount.value > 64) {
        return Err(BadRequest);
      }
      if spec.memoryMib.Some? && (spec.memoryMib.value == 0 || spec.memoryMib.value > 1024 * 1024) {
        return Err(BadRequest);
      }
      for i := 0 to |slots|
        invariant Valid() && slots == old(slots) && None !in slots[..i]
      {
        if slots[i] == None {
          FirstEmptyAt(slots, i);
          slots := slots[i := Some(Record(i, Created, None, spec, None, None))];
          return Ok(i);
        }
      }
      assert slots[..|slots|] == slots;
      r := Err(Full);
    }

    /** found is what opening the image path yields, stored whether the page could be written, and
        answer what reading it back and shipping it to the kernel yields. */
    method StartVm(id: nat, found: Result<Image, CelError>, stored: bool, answer: Result<bv32, CelError>)
      returns (r: Result<VmState, CelError>)
      requires Valid() && (found.Ok? ==> found.value.Valid())
      modifies this
      ensures Valid()
      ensures !old(Holds(id)) ==> r == Err(BadRequest) && slots == old(slots)
      ensures old(Holds(id)) ==>
        var rec := old(slots)[id].value;
        var st := StagingOf(staging && rec.spec.imagePath.Some?, shipping, found, stored, answer);
        && (r.Ok? <==> StartAllowed(rec, st)) && (r.Ok? ==> r.value == Halted)
        && slots == old(slots)[id := Some(StartedRecord(rec, st))]
        && (r.Ok? ==>
              slots[id] == Some(Record(id, Halted, Some(12), rec.spec,
                                       if st.StagedPage? then Some(|st.page|) else rec.blobLen,
                                       if st.StagedPage? then Some(Crc32c.Digest(st.page)) else rec.blobCrc)))
        && (r.Err? ==> slots == old(slots))
    {
      hide Crc32c.Digest, BootPage;
      if !Holds(id) {
        return Err(BadRequest);
      }
      var rec := slots[id].value;
      assert slots == slots[id := Some(rec)];
      if Terminal(rec.state) {
        return Err(BadRequest);
      }
      if rec.state == Running {
        return Err(BadRequest);
      }
      if staging && rec.spec.imagePath.Some? {
        if found.Err? {
          return Err(found.error);
        }
        var d := StageBootBlob(found.value, stored);
        if d.Err? {
          return Err(d.error);
        }
        var page, crc := d.value.0, d.value.1;
        if rec.blobCrc.Some? && crc != rec.blobCrc.value {
          return Err(BadRequest);
        }
        if shipping {
          if answer.Err? {
            return Err(answer.error);
          }
          if answer.value != crc {
            return Err(BadRequest);
          }
        }
        rec := rec.(blobLen := Some(|page|), blobCrc := Some(crc));
      }
      rec := rec.(state := Halted, lastExit := Some(12));
      slots := slots[id := Some(rec)];
      r := Ok(rec.state);
    }

    method ResetVm(id: nat) returns (r: Result<VmState, CelError>)
      requires Valid()
      modifies this
      ensures Valid() && (r.Ok? <==> old(Holds(id)) && Terminal(old(slots)[id].value.state))
      ensures slots == if r.Ok? then old(slots)[id := Some(ResetRecord(old(slots)[id].value))] else old(slots)
      ensures r.Ok? ==> r.value == Created && slots[id] == Some(old(slots)[id].value.(state := Created, lastExit := None))
    {
      if !Holds(id) || !Terminal(slots[id].value.state) {
        return Err(BadRequest);
      }
      var rec := slots[id].value.(state := Created, lastExit := None);
      slots := slots[id := Some(rec)];
      r := Ok(rec.state);
    }

    method StopVm(id: nat) returns (r: Result<VmState, CelError>)
      requires Valid()
      modifies this
      ensures Valid() && (r.Ok? <==> old(Holds(id)))
      ensures slots == if r.Ok? then old(slots)[id := Some(StoppedRecord(old(slots)[id].value))] else old(slots)
      ensures r.Ok? ==>
        var was := old(slots)[id].value.state;
        && r.value == (if was == Halted || was == Stopped || was == Faulted then was else Stopped)
        && slots[id] == Some(old(slots)[id].value.(state := r.value))
    {
      if !Holds(id) {
        return Err(BadRequest);
      }
      var rec := slots[id].value;
      assert slots == slots[id := Some(rec)];
      if !Terminal(rec.state) {
        rec := rec.(state := Stopped);
        slots := slots[id := Some(rec)];
      }
      r := Ok(rec.state);
    }

    method DeleteVm(id: nat) returns (r: Result<(), CelError>)
      requires Valid()
      modifies this
      ensures Valid() && (r.Ok? <==> old(Holds(id)) && Terminal(old(slots)[id].value.state))
      ensures slots == if r.Ok? then old(slots)[id := None] else old(slots)
    {
      if !Holds(id) || !Terminal(slots[id].value.state) {
        return Err(BadRequest);
      }
      slots := slots[id := None];
      r := Ok(());
    }
  }

  lemma {:induction false} FirstEmptyAt(slots: seq<Option<Record>>, i: nat)
    requires i < |slots| && slots[i] == None && None !in slots[..i]
    ensures FirstEmpty(slots) == Some(i)
    decreases slots
  {
    if i > 0 {
      assert slots[..i][0] == slots[0];
      assert slots[1..][..i - 1] == slots[..i][1..];
      FirstEmptyAt(slots[1..], i - 1);
    }
  }

  // ----- drift ------------------------------------------------------------------------------------

  datatype Event = Start(st: Staging) | Reset | Halt

  function Apply(r: Record, e: Event): Record {
    match e
    case Start(st) => StartedRecord(r, st)
    case Reset => ResetRecord(r)
    case Halt => StoppedRecord(r)
  }

  function Run(r: Record, es: seq<Event>): Record
    decreases es
  {
    if es == [] then r else Run(Apply(r, es[0]), es[1..])
  }

  /** Once a digest is recorded, nothing but deleting the VM changes it. */
  lemma {:induction false} DigestSticks(r: Record, es: seq<Event>)
    requires r.blobCrc.Some?
    ensures Run(r, es).blobCrc == r.blobCrc && Run(r, es).spec == r.spec
    decreases es
  {
    hide Crc32c.Digest;
    if es != [] {
      DigestSticks(Apply(r, es[0]), es[1..]);
    }
  }

  /** The kernel, when the page was shipped to it, echoed the digest. */
  predicate Echoed(page: seq<Byte>, echo: Option<Result<bv32, CelError>>) {
    echo.Some? ==> echo.value == Ok(Crc32c.Digest(page))
  }

  /** Main result (drift): after a start that staged a page, and any starts, resets and stops since,
      a start that stages another page of whatever length goes through exactly when the VM is
      created, the kernel echoed the digest, and the pattern by which the pages differ is a multiple
      of the generator polynomial. A refused start changes nothing. */
  lemma DriftExactly(r: Record, page: seq<Byte>, echo: Option<Result<bv32, CelError>>, es: seq<Event>,
                     other: seq<Byte>, echo': Option<Result<bv32, CelError>>)
    requires StartAllowed(r, StagedPage(page, echo))
    ensures var now, st := Run(StartedRecord(r, StagedPage(page, echo)), es), StagedPage(other, echo');
      && (StartAllowed(now, st) <==> now.state == Created && Echoed(other, echo') && Divisible(Drift(page, other)))
      && (|page| == |other| ==>
            (StartAllowed(now, st) <==> now.state == Created && Echoed(other, echo') && Divisible(Change(page, other))))
      && (!StartAllowed(now, st) ==> StartedRecord(now, st) == now)
  {
    hide Run, Crc32c.Digest, Divisible, Drift, Change;
    DigestSticks(StartedRecord(r, StagedPage(page, echo)), es);
    SameDigestExactly(page, other);
    if |page| == |other| { UndetectedExactly(page, other); }
  }

  /** An equally long page that differs within 32 consecutive bits, or in an odd number of bits, is
      always refused. */
  lemma DriftIsRefused(r: Record, page: seq<Byte>, echo: Option<Result<bv32, CelError>>, es: seq<Event>,
                       drifted: seq<Byte>, echo': Option<Result<bv32, CelError>>, p: nat)
    requires StartAllowed(r, StagedPage(page, echo))
    requires |drifted| == |page| && drifted != page
    requires Crc32c.AgreeOutsideBurst(Crc32c.Bits(page), Crc32c.Bits(drifted), p) || Weight(Change(page, drifted)) % 2 == 1
    ensures var now := Run(StartedRecord(r, StagedPage(page, echo)), es);
      !StartAllowed(now, StagedPage(drifted, echo')) && StartedRecord(now, StagedPage(drifted, echo')) == now
  {
    hide Run, Crc32c.Digest, Crc32c.Bits, Weight, Change;
    DigestSticks(StartedRecord(r, StagedPage(page, echo)), es);
    if Weight(Change(page, drifted)) % 2 == 1 {
      OddChangesAreDetected(page, drifted);
    } else {
      Crc32c.BurstsAreDetected(page, drifted, p);
    }
  }

  /** Drift that the guard misses: after a start with the first page of either pair and a reset, a
      start with the second goes through. */
  lemma MissedDrift(r: Record)
    requires r.state == Created && r.blobCrc.None?
    ensures |BLANK_PAGE| == |TURNED_PAGE| && BLANK_PAGE != TURNED_PAGE && |SHORT_PAGE| != |LONG_PAGE|
    ensures StartAllowed(ResetRecord(StartedRecord(r, StagedPage(BLANK_PAGE, None))), StagedPage(TURNED_PAGE, None))
    ensures StartAllowed(ResetRecord(StartedRecord(r, StagedPage(SHORT_PAGE, None))), StagedPage(LONG_PAGE, None))
  {
    hide Crc32c.Digest;
    BlankDigest();
    TurnedDigest();
    ShortDigest();
    LongDigest();
    assert BLANK_PAGE[0] != TURNED_PAGE[0];
  }

  /** The unchanged page is always accepted again after a reset. */
  lemma SamePageRestarts(r: Record, page: seq<Byte>, echo: Option<Result<bv32, CelError>>)
    requires StartAllowed(r, StagedPage(page, echo))
    ensures StartAllowed(ResetRecord(StartedRecord(r, StagedPage(page, echo))), StagedPage(page, echo))
  {
    hide Crc32c.Digest;
  }

  /** Converting the backing image to another format, or laying it out anew, is no drift. */
  lemma SamePageSameBoot(a: Image, b: Image)
    requires a.Valid() && b.Valid() && a.Complete() && b.Complete() && a.Disk() == b.Disk()
    ensures BootPage(a) == BootPage(b)
  {
    var want := if a.VirtualSize() < BOOT_BLOB_LEN then a.VirtualSize() else BOOT_BLOB_LEN;
    assert |a.Disk()| == |b.Disk()|;
    assert forall o :: 0 <= o < want ==> a.ByteAt(o) == Some(a.Disk()[o]) && b.ByteAt(o) == Some(b.Disk()[o]);
    if want > 0 {
      assert BootPage(a).value == BootPage(b).value;
    }
  }
}
