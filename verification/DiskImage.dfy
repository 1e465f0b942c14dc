/** The common view of all image formats: a flat guest disk. */
module DiskImage {
  import opened Wrappers
  import opened Crc32c
  import opened Crc32cDivision
  import opened DiskFile
  import opened DiskVhdx
  import opened DiskVmdk
  import opened DiskQcow2

  /** A raw image is the file itself. */
  datatype RawImage = RawImage(file: File) {
    method ReadAt(offset: nat, buf: array<Byte>, lo: nat, hi: nat) returns (r: Result<nat, DiskError>)
      requires lo <= hi <= buf.Length
      modifies buf
      ensures OnlyChanged(buf, lo, hi)
      ensures r == Ok(Wanted(|file|, offset, hi - lo))
      ensures forall o :: offset <= o < offset + r.value ==> o < |file| && file[o] == buf[lo + o - offset]
    {
      if hi == lo {
        return Ok(0);
      }
      if offset >= |file| {
        return Ok(0);
      }
      var remaining := |file| - offset;
      var take := if hi - lo < remaining then hi - lo else remaining;
      var total := ReadLoop(file, offset, buf, lo, lo + take);
      r := Ok(total);
    }
  }

  datatype Image =
    | Raw(raw: RawImage)
    | Qcow2(qcow2: Qcow2Image)
    | Vmdk(vmdk: VmdkImage)
    | Vhdx(vhdx: VhdxImage)
  {
    ghost predicate Valid() {
      match this
      case Raw(_) => true
      case Qcow2(i) => i.Valid()
      case Vmdk(i) => i.Valid()
      case Vhdx(i) => i.Valid()
    }

    function VirtualSize(): nat {
      match this
      case Raw(i) => |i.file|
      case Qcow2(i) => i.size
      case Vmdk(i) => i.virtualSize
      case Vhdx(i) => i.virtualSize
    }

    /** The guest-visible byte at o, when the image can serve it. */
    function ByteAt(o: nat): Option<Byte>
      requires Valid()
    {
      match this
      case Raw(i) => if o < |i.file| then Some(i.file[o]) else None
      case Qcow2(i) => i.ByteAt(o)
      case Vmdk(i) => i.ByteAt(o)
      case Vhdx(i) => i.ByteAt(o)
    }

    /** Every byte of [from, to) can be served. */
    ghost predicate Covers(from: nat, to: nat)
      requires Valid()
    {
      forall o :: from <= o < to ==> ByteAt(o).Some?
    }

    ghost predicate Complete()
      requires Valid()
    {
      Covers(0, VirtualSize())
    }

    /** The flat disk a complete image stands for. */
    ghost function Disk(): (d: seq<Byte>)
      requires Valid() && Complete()
      ensures |d| == VirtualSize()
      ensures forall o :: 0 <= o < |d| ==> ByteAt(o) == Some(d[o])
    {
      seq(VirtualSize(), o requires 0 <= o < VirtualSize() => ByteAt(o).value)
    }

    // ----- the layout, block by block ------------------------------------------------

    function Backing(): File {
      match this
      case Raw(i) => i.file
      case Qcow2(i) => i.file
      case Vmdk(i) => i.file
      case Vhdx(i) => i.file
    }

    /** The unit the format allocates in; a raw file is one unit. */
    function Unit(): (n: nat)
      requires Valid()
      ensures n > 0
    {
      match this
      case Raw(i) => |i.file| + 1
      case Qcow2(i) => i.clusterSize
      case Vmdk(i) => i.GrainBytes()
      case Vhdx(i) => i.blockSize
    }

    function Locate(unit: nat): Option<Option<nat>>
      requires Valid()
    {
      match this
      case Raw(i) => Some(Some(0))
      case Qcow2(i) => i.Locate(unit)
      case Vmdk(i) => i.Locate(unit)
      case Vhdx(i) => i.Locate(unit)
    }

    /** A unit holds a stretch of the disk: a hole for zeros, else a copy in the file. */
    ghost predicate UnitHolds(unit: nat, stretch: seq<Byte>)
      requires Valid()
    {
      match Locate(unit)
      case None => stretch == []
      case Some(None) => forall k :: 0 <= k < |stretch| ==> stretch[k] == 0
      case Some(Some(base)) => stretch == [] || (base + |stretch| <= |Backing()| && stretch == Backing()[base..base + |stretch|])
    }

    /** The image lays out disk d: every unit holds its stretch of it. */
    ghost predicate LaysOut(d: seq<Byte>)
      requires Valid()
    {
      && |d| == VirtualSize()
      && forall unit: nat, end: nat :: unit * Unit() <= end <= |d| && end <= unit * Unit() + Unit()
           ==> UnitHolds(unit, d[unit * Unit()..end])
    }

    lemma ByteAtInUnit(unit: nat, k: nat)
      requires Valid() && k < Unit() && unit * Unit() + k < VirtualSize()
      ensures ByteAt(unit * Unit() + k) ==
        match Locate(unit)
        case None => None
        case Some(None) => Some(0)
        case Some(Some(base)) => if base + k < |Backing()| then Some(Backing()[base + k]) else None
    {
      var u := Unit();
      var o := unit * u + k;
      DivUnique(o, u, unit, k);
      if Raw? {
        assert unit == 0 by { MulStrict(0, unit, u); }
        assert o == k;
      }
      hide Unit, Locate, Backing, VirtualSize, ByteAt, Valid;
      ByteInItsUnit(o, unit, k);
    }

    lemma ByteInItsUnit(o: nat, unit: nat, k: nat)
      requires Valid() && o < VirtualSize() && o / Unit() == unit && o % Unit() == k
      requires Raw? ==> unit == 0 && o == k
      ensures ByteAt(o) ==
        match Locate(unit)
        case None => None
        case Some(None) => Some(0)
        case Some(Some(base)) => if base + k < |Backing()| then Some(Backing()[base + k]) else None
    {
      hide Qcow2Image.Locate, VmdkImage.Locate, VhdxImage.Locate, VmdkImage.GrainBytes;
    }

    static lemma DivModOf(o: nat, u: nat)
      requires u > 0
      ensures o == (o / u) * u + o % u && o % u < u
    {}

    lemma LaidOutByte(d: seq<Byte>, o: nat)
      requires Valid() && LaysOut(d) && o < |d|
      ensures ByteAt(o) == Some(d[o])
    {
      hide ByteAt, Locate, Backing, UnitHolds, Valid, VirtualSize, Unit;
      var u := Unit();
      var unit, k := o / u, o % u;
      DivModOf(o, u);
      ByteAtInUnit(unit, k);
      var stretch := d[unit * u..o + 1];
      assert UnitHolds(unit, stretch);
      UnitMakesByte(unit, stretch, k);
      hide LaysOut;
      assert stretch[k] == d[o];
    }

    lemma UnitMakesByte(unit: nat, stretch: seq<Byte>, k: nat)
      requires Valid() && UnitHolds(unit, stretch) && k < |stretch|
      ensures match Locate(unit)
        case None => false
        case Some(None) => stretch[k] == 0
        case Some(Some(base)) => base + k < |Backing()| && Backing()[base + k] == stretch[k]
    {
      hide Locate, Backing;
    }

    /** Byte k of a unit is this one. */
    ghost predicate UnitByte(unit: nat, k: nat, b: Byte)
      requires Valid()
    {
      match Locate(unit)
      case None => false
      case Some(None) => b == 0
      case Some(Some(base)) => base + k < |Backing()| && b == Backing()[base + k]
    }

    lemma CompleteByte(unit: nat, k: nat)
      requires Valid() && Complete()
      requires k < Unit() && unit * Unit() + k < VirtualSize()
      ensures UnitByte(unit, k, Disk()[unit * Unit() + k])
    {
      hide ByteAt, Locate, Unit, VirtualSize, Backing;
      ByteAtInUnit(unit, k);
      ByteOfDisk(unit * Unit() + k);
      hide Valid, Complete, Disk;
    }

    lemma ByteOfDisk(o: nat)
      requires Valid() && Complete() && o < VirtualSize()
      ensures ByteAt(o) == Some(Disk()[o])
    {
      hide ByteAt, Valid, VirtualSize;
    }

    lemma BytesMakeUnit(unit: nat, stretch: seq<Byte>)
      requires Valid() && forall k :: 0 <= k < |stretch| ==> UnitByte(unit, k, stretch[k])
      ensures UnitHolds(unit, stretch)
    {
      hide Locate, Backing;
      if stretch != [] {
        assert UnitByte(unit, |stretch| - 1, stretch[|stretch| - 1]);
        if Locate(unit).Some? && Locate(unit).value.Some? {
          var base := Locate(unit).value.value;
          assert stretch == Backing()[base..base + |stretch|];
        }
      }
    }

    lemma CompleteUnit(unit: nat, end: nat)
      requires Valid() && Complete()
      requires unit * Unit() <= end <= VirtualSize() && end <= unit * Unit() + Unit()
      ensures UnitHolds(unit, Disk()[unit * Unit()..end])
    {
      hide ByteAt, Locate, Unit, VirtualSize, Backing, UnitByte, UnitHolds;
      var from := unit * Unit();
      var stretch := Disk()[from..end];
      forall k | 0 <= k < |stretch|
        ensures UnitByte(unit, k, stretch[k])
      {
        CompleteByte(unit, k);
      }
      BytesMakeUnit(unit, stretch);
    }

    /** Reading byte by byte and laying out block by block are the same thing: the image
        serves exactly disk d if and only if its units hold d. */
    lemma LayoutIsDisk(d: seq<Byte>)
      requires Valid()
      ensures LaysOut(d) <==> Complete() && Disk() == d
    {
      hide ByteAt, Locate, Unit, VirtualSize, Backing, UnitHolds;
      if LaysOut(d) {
        forall o | 0 <= o < |d|
          ensures ByteAt(o) == Some(d[o])
        {
          LaidOutByte(d, o);
        }
        assert Complete();
        assert Disk() == d;
      }
      if Complete() && Disk() == d {
        forall unit: nat, end: nat | unit * Unit() <= end <= |d| && end <= unit * Unit() + Unit()
          ensures UnitHolds(unit, d[unit * Unit()..end])
        {
          CompleteUnit(unit, end);
        }
      }
    }

    /** The disk holds these bytes from this offset on. */
    ghost predicate Holds(from: nat, bytes: seq<Byte>)
      requires Valid()
    {
      forall k :: 0 <= k < |bytes| ==> ByteAt(from + k) == Some(bytes[k])
    }

    lemma HoldsInBuffer(from: nat, buf: array<Byte>, lo: nat, n: nat)
      requires Valid() && lo + n <= buf.Length
      requires forall o :: from <= o < from + n ==> ByteAt(o) == Some(buf[lo + o - from])
      ensures Holds(from, buf[lo..lo + n])
    {
      hide ByteAt;
    }

    lemma HoldsConcat(from: nat, a: seq<Byte>, b: seq<Byte>)
      requires Valid() && Holds(from, a) && Holds(from + |a|, b)
      ensures Holds(from, a + b)
    {
      hide ByteAt;
      forall k | 0 <= k < |a + b|
        ensures ByteAt(from + k) == Some((a + b)[k])
      {
        if k >= |a| {
          assert ByteAt(from + |a| + (k - |a|)) == Some(b[k - |a|]);
        }
      }
    }

    lemma HoldsCovers(from: nat, bytes: seq<Byte>)
      requires Valid() && Holds(from, bytes)
      ensures Covers(from, from + |bytes|)
    {
      hide ByteAt;
      forall o | from <= o < from + |bytes|
        ensures ByteAt(o).Some?
      {
        assert ByteAt(from + (o - from)) == Some(bytes[o - from]);
      }
    }

    lemma HoldsAll(bytes: seq<Byte>)
      requires Valid() && |bytes| == VirtualSize() && Holds(0, bytes)
      ensures Complete() && Disk() == bytes
    {
      hide ByteAt, VirtualSize;
      HoldsCovers(0, bytes);
      forall o | 0 <= o < |bytes|
        ensures Disk()[o] == bytes[o]
      {
        assert ByteAt(0 + o) == Some(bytes[o]);
      }
    }

    /** What a read left in the buffer: never past the end, never a wrong byte, failing only when some
        byte cannot be served, and not empty-handed while the first one can. */
    ghost predicate Delivered(r: Result<nat, DiskError>, offset: nat, buf: array<Byte>, lo: nat, hi: nat)
      requires Valid() && lo <= hi <= buf.Length
      reads buf
    {
      var want := Wanted(VirtualSize(), offset, hi - lo);
      && (r.Ok? ==> r.value <= want && forall o :: offset <= o < offset + r.value ==> ByteAt(o) == Some(buf[lo + o - offset]))
      && (Covers(offset, offset + want) ==> r.Ok?)
      && (want > 0 && ByteAt(offset).Some? ==> r != Ok(0))
    }

    method ReadRaw(offset: nat, buf: array<Byte>, lo: nat, hi: nat) returns (r: Result<nat, DiskError>)
      requires Valid() && Raw? && lo <= hi <= buf.Length
      modifies buf
      ensures OnlyChanged(buf, lo, hi) && Delivered(r, offset, buf, lo, hi)
    {
      r := raw.ReadAt(offset, buf, lo, hi);
    }

    method ReadQcow2(offset: nat, buf: array<Byte>, lo: nat, hi: nat) returns (r: Result<nat, DiskError>)
      requires Valid() && Qcow2? && lo <= hi <= buf.Length
      modifies buf
      ensures OnlyChanged(buf, lo, hi) && Delivered(r, offset, buf, lo, hi)
    {
      LocateNothing(offset);
      hide Qcow2Image.ByteAt, Qcow2Image.Locate;
      r := qcow2.ReadAt(offset, buf, lo, hi);
    }

    method ReadVmdk(offset: nat, buf: array<Byte>, lo: nat, hi: nat) returns (r: Result<nat, DiskError>)
      requires Valid() && Vmdk? && lo <= hi <= buf.Length
      modifies buf
      ensures OnlyChanged(buf, lo, hi) && Delivered(r, offset, buf, lo, hi)
    {
      if Covers(offset, offset + Wanted(VirtualSize(), offset, hi - lo)) {
        CoversMeans(offset, offset + Wanted(VirtualSize(), offset, hi - lo));
      }
      hide VmdkImage.ByteAt, Covers;
      r := vmdk.ReadAt(offset, buf, lo, hi);
    }

    method ReadVhdx(offset: nat, buf: array<Byte>, lo: nat, hi: nat) returns (r: Result<nat, DiskError>)
      requires Valid() && Vhdx? && lo <= hi <= buf.Length
      modifies buf
      ensures OnlyChanged(buf, lo, hi) && Delivered(r, offset, buf, lo, hi)
    {
      if Covers(offset, offset + Wanted(VirtualSize(), offset, hi - lo)) {
        CoversMeans(offset, offset + Wanted(VirtualSize(), offset, hi - lo));
      }
      hide VhdxImage.ByteAt, Covers;
      r := vhdx.ReadAt(offset, buf, lo, hi);
    }

    /** The contract every format meets: partial reads allowed, never past the end, never
        a wrong byte, and no empty-handed return while there is something to serve. */
    method ReadAt(offset: nat, buf: array<Byte>, lo: nat, hi: nat) returns (r: Result<nat, DiskError>)
      requires Valid() && lo <= hi <= buf.Length
      modifies buf
      ensures OnlyChanged(buf, lo, hi)
      ensures r.Ok? ==> r.value <= Wanted(VirtualSize(), offset, hi - lo)
      ensures r.Ok? ==> Holds(offset, buf[lo..lo + r.value])
      ensures Covers(offset, offset + Wanted(VirtualSize(), offset, hi - lo)) ==> r.Ok?
      ensures Wanted(VirtualSize(), offset, hi - lo) > 0 && ByteAt(offset).Some? ==> r != Ok(0)
    {
      hide ByteAt, VirtualSize, Covers, Holds, Valid;
      match this {
        case Raw(_) => r := ReadRaw(offset, buf, lo, hi);
        case Qcow2(_) => r := ReadQcow2(offset, buf, lo, hi);
        case Vmdk(_) => r := ReadVmdk(offset, buf, lo, hi);
        case Vhdx(_) => r := ReadVhdx(offset, buf, lo, hi);
      }
      if r.Ok? {
        HoldsInBuffer(offset, buf, lo, r.value);
      }
    }

    lemma LocateNothing(offset: nat)
      requires Valid() && Qcow2?
      ensures qcow2.Locate(offset / qcow2.clusterSize).None? ==> ByteAt(offset).None?
    {
      hide Qcow2Image.Locate;
    }

    lemma CoversMeans(from: nat, to: nat)
      requires Valid() && Covers(from, to)
      ensures Vmdk? ==> forall o :: from <= o < to ==> vmdk.ByteAt(o).Some?
      ensures Vhdx? ==> forall o :: from <= o < to ==> vhdx.ByteAt(o).Some?
    {
      forall o | from <= o < to
        ensures Vmdk? ==> vmdk.ByteAt(o).Some?
        ensures Vhdx? ==> vhdx.ByteAt(o).Some?
      {
        assert ByteAt(o).Some?;
      }
    }

    lemma CompleteCovers(from: nat, to: nat)
      requires Valid() && Complete() && from < to <= VirtualSize()
      ensures Covers(from, to) && ByteAt(from).Some?
    {
      hide ByteAt, VirtualSize;
    }

    /** Fill the whole buffer: succeeds exactly when the request lies on the disk and
        every byte of it can be served. */
    method ReadExactAt(start: nat, buf: array<Byte>) returns (r: Result<(), DiskError>)
      requires Valid()
      modifies buf
      ensures r.Ok? <==> buf.Length == 0 || (start + buf.Length <= VirtualSize() && Covers(start, start + buf.Length))
      ensures r.Ok? ==> Holds(start, buf[..])
    {
      hide ByteAt, VirtualSize, Holds;
      HoldsNothing(start);
      var offset, at := start, 0;
      assert buf[..0] == [];
      while at < buf.Length
        invariant at <= buf.Length && offset == start + at
        invariant at > 0 ==> offset <= VirtualSize()
        invariant Holds(start, buf[..at])
        decreases buf.Length - at
      {
        ghost var done := buf[..at];
        var n := ReadAt(offset, buf, at, buf.Length);
        if n.Err? {
          return Err(n.error);
        }
        if n.value == 0 {
          return Err(BadImage);
        }
        assert buf[..at] == done;
        HoldsConcat(start, done, buf[at..at + n.value]);
        assert buf[..at + n.value] == done + buf[at..at + n.value];
        offset := offset + n.value;
        at := at + n.value;
      }
      assert buf[..at] == buf[..];
      HoldsCovers(start, buf[..]);
      r := Ok(());
    }

    lemma HoldsNothing(from: nat)
      requires Valid()
      ensures Holds(from, [])
    {}

    /** The bytes of one request of the digest: at most a buffer full. */
    method NextChunk(offset: nat, buf: array<Byte>) returns (r: Result<seq<Byte>, DiskError>)
      requires Valid() && offset < VirtualSize() && buf.Length == 0x1_0000
      modifies buf
      ensures r.Err? ==> !Complete()
      ensures r.Ok? ==> 0 < |r.value| <= VirtualSize() - offset && Holds(offset, r.value)
    {
      hide ByteAt, VirtualSize, Holds, Complete, Covers, Valid;
      var want := if buf.Length < VirtualSize() - offset then buf.Length else VirtualSize() - offset;
      if Complete() {
        CompleteCovers(offset, offset + want);
      }
      var n := ReadAt(offset, buf, 0, want);
      if n.Err? {
        return Err(n.error);
      }
      if n.value == 0 {
        return Err(BadImage);
      }
      r := Ok(buf[..n.value]);
    }

    /** The streaming digest of the whole virtual disk, in 64 KiB requests. */
    method FullImageCrc32c() returns (r: Result<bv32, DiskError>)
      requires Valid()
      ensures r.Ok? <==> VirtualSize() > 0 && Complete()
      ensures r.Ok? ==> r.value == Digest(Disk())
    {
      var total := VirtualSize();
      if total == 0 {
        return Err(BadImage);
      }
      var buf := new Byte[0x1_0000];
      var crc := ALL_ONES;
      ghost var seen: seq<Byte> := [];
      var offset := 0;
      ContinueNothing(ALL_ONES);
      HoldsNothing(0);
      hide ByteAt, VirtualSize, Continue, Holds, Xor, Complete, Covers, Disk, Valid;
      while offset < total
        invariant |seen| == offset <= total == VirtualSize()
        invariant Holds(0, seen)
        invariant crc == Continue(ALL_ONES, seen)
        decreases total - offset
      {
        var chunk := NextChunk(offset, buf);
        if chunk.Err? {
          return Err(chunk.error);
        }
        crc := ContinueLoop(crc, chunk.value);
        ContinueConcat(ALL_ONES, seen, chunk.value);
        HoldsConcat(0, seen, chunk.value);
        seen := seen + chunk.value;
        offset := offset + |chunk.value|;
      }
      HoldsAll(seen);
      var d := Finish(crc);
      r := Ok(d);
    }
  }

  method Finish(crc: bv32) returns (d: bv32)
    ensures d == Xor(crc, ALL_ONES)
  {
    d := crc ^ ALL_ONES;
  }

  lemma ContinueNothing(s: bv32)
    ensures Continue(s, []) == s
  {}

  /** Equal guest disks have equal digests whatever the formats and sizes; others have equal digests
      exactly when the pattern by which they differ is a multiple of the generator polynomial; a
      change of up to 32 consecutive bits never goes unnoticed. */
  lemma DigestsAreContentStable(a: Image, b: Image)
    requires a.Valid() && b.Valid() && a.Complete() && b.Complete()
    ensures a.VirtualSize() == b.VirtualSize() && (forall o :: 0 <= o < a.VirtualSize() ==> a.ByteAt(o) == b.ByteAt(o))
            ==> Digest(a.Disk()) == Digest(b.Disk())
    ensures Digest(a.Disk()) == Digest(b.Disk()) <==> Divisible(Drift(a.Disk(), b.Disk()))
    ensures a.VirtualSize() == b.VirtualSize() && a.Disk() != b.Disk()
            && (exists p: nat :: AgreeOutsideBurst(Bits(a.Disk()), Bits(b.Disk()), p))
            ==> Digest(a.Disk()) != Digest(b.Disk())
  {
    hide Image.ByteAt, Digest, Bits, Divisible, Drift;
    SameDigestExactly(a.Disk(), b.Disk());
    if a.VirtualSize() == b.VirtualSize() {
      if forall o :: 0 <= o < a.VirtualSize() ==> a.ByteAt(o) == b.ByteAt(o) {
        assert a.Disk() == b.Disk();
      }
      if p: nat :| a.Disk() != b.Disk() && AgreeOutsideBurst(Bits(a.Disk()), Bits(b.Disk()), p) {
        BurstsAreDetected(a.Disk(), b.Disk(), p);
      }
    }
  }
}
