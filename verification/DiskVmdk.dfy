/** Read-only monolithicSparse VMDK images: grain directory, grain tables, grains. */
module DiskVmdk {
  import opened Wrappers
  import opened Crc32c
  import opened DiskFile

  datatype Header = Header(capacity: nat, grainSectors: nat, descriptorOffset: nat, descriptorSize: nat,
                           gtesPerGt: nat, gdOffset: nat, overhead: nat, compress: nat)

  predicate PowerOfTwo(n: nat)
    decreases n
  {
    n == 1 || (n > 1 && n % 2 == 0 && PowerOfTwo(n / 2))
  }

  predicate Acceptable(h: Header) {
    && h.compress == 0
    && 8 <= h.grainSectors <= 0x10_0000 && PowerOfTwo(h.grainSectors)
    && h.gtesPerGt > 0 && PowerOfTwo(h.gtesPerGt)
    && h.gdOffset != 0 && h.overhead != 0
    && (h.descriptorSize != 0 ==> h.descriptorOffset + h.descriptorSize <= U64_MAX)
  }

  function DirectoryEntries(h: Header): nat
    requires h.gtesPerGt * h.grainSectors > 0
  {
    DivCeil(h.capacity, h.gtesPerGt * h.grainSectors)
  }

  datatype VmdkImage = VmdkImage(file: File, virtualSize: nat, grainSectors: nat, gtesPerGt: nat, gd: seq<nat>) {
    ghost predicate Valid() {
      grainSectors > 0 && gtesPerGt > 0
    }

    function GrainBytes(): (n: nat)
      requires Valid()
      ensures n > 0
    {
      grainSectors * SECTOR
    }

    /** The grain table that lists a grain, and the place in that table. */
    function GtOf(grain: nat): nat
      requires Valid()
    {
      grain / gtesPerGt
    }

    function GteOf(grain: nat): (k: nat)
      requires Valid()
      ensures k < gtesPerGt
    {
      grain % gtesPerGt
    }

    /** Where a grain lives: a file position, a hole, or nowhere readable. */
    function Locate(grain: nat): Option<Option<nat>>
      requires Valid()
    {
      var gdEntry := if GtOf(grain) < |gd| then gd[GtOf(grain)] else 0;
      if gdEntry <= 1 then Some(None)
      else if gdEntry * SECTOR + gtesPerGt * 4 > |file| then None
      else
        var gte := Le(file, gdEntry * SECTOR + GteOf(grain) * 4, 4);
        if gte <= 1 then Some(None) else Some(Some(gte * SECTOR))
    }

    function Served(at: Option<Option<nat>>, intra: nat): Option<Byte> {
      match at
      case None => None
      case Some(None) => Some(0)
      case Some(Some(base)) => if base + intra < |file| then Some(file[base + intra]) else None
    }

    /** The guest-visible byte at o, when the image can serve it. */
    function ByteAt(o: nat): Option<Byte>
      requires Valid()
    {
      Served(Locate(o / GrainBytes()), o % GrainBytes())
    }

    lemma ChunkBytes(cur: nat, intra: nat, chunk: nat, at: Option<Option<nat>>)
      requires Valid() && at == Locate(cur / GrainBytes())
      requires intra == cur % GrainBytes() && intra + chunk <= GrainBytes()
      ensures forall o :: cur <= o < cur + chunk ==> ByteAt(o) == Served(at, intra + (o - cur))
    {
      hide Locate, Served, GrainBytes;
      forall o | cur <= o < cur + chunk
        ensures o / GrainBytes() == cur / GrainBytes() && o % GrainBytes() == intra + (o - cur)
      {
        SameBlock(cur, o - cur, GrainBytes());
      }
    }

    /** Read one whole grain table. */
    method LoadGt(gtSector: nat) returns (r: Result<seq<nat>, DiskError>)
      requires Valid()
      ensures r.Ok? <==> gtSector * SECTOR + gtesPerGt * 4 <= |file|
      ensures r.Ok? ==> |r.value| == gtesPerGt
      ensures r.Ok? ==> forall k :: 0 <= k < gtesPerGt ==> r.value[k] == Le(file, gtSector * SECTOR + k * 4, 4)
    {
      var off := gtSector * SECTOR;
      if off + gtesPerGt * 4 > |file| {
        return Err(Storage);
      }
      var gt := LoadWords(file, off, gtesPerGt);
      r := Ok(gt);
    }

    /** The loop of read_at: one grain-bounded chunk after another. */
    method ReadAt(offset: nat, buf: array<Byte>, lo: nat, hi: nat) returns (r: Result<nat, DiskError>)
      requires Valid() && lo <= hi <= buf.Length
      modifies buf
      ensures OnlyChanged(buf, lo, hi)
      ensures r.Ok? <==> forall o :: offset <= o < offset + Wanted(virtualSize, offset, hi - lo) ==> ByteAt(o).Some?
      ensures r.Ok? ==> r.value == Wanted(virtualSize, offset, hi - lo)
      ensures r.Ok? ==> forall o :: offset <= o < offset + r.value ==> ByteAt(o) == Some(buf[lo + o - offset])
    {
      if hi == lo || offset >= virtualSize {
        return Ok(0);
      }
      var max := virtualSize - offset;
      var want := if hi - lo < max then hi - lo else max;
      hide ByteAt;
      var grainBytes := GrainBytes();
      var filled, cur := 0, offset;
      while filled < want
        invariant filled <= want && cur == offset + filled
        invariant OnlyChanged(buf, lo, hi)
        invariant forall o :: offset <= o < cur ==> ByteAt(o) == Some(buf[lo + o - offset])
        decreases want - filled
      {
        var intra := cur % grainBytes;
        var chunk := if want - filled < grainBytes - intra then want - filled else grainBytes - intra;
        var c := ReadChunk(cur, intra, buf, lo + filled, lo + filled + chunk);
        if c.Err? {
          return Err(c.error);
        }
        filled := filled + chunk;
        cur := cur + chunk;
      }
      r := Ok(filled);
    }

    /** The loop body of read_at. */
    method ReadChunk(cur: nat, intra: nat, buf: array<Byte>, lo: nat, hi: nat) returns (r: Result<(), DiskError>)
      requires Valid() && lo < hi <= buf.Length
      requires intra == cur % GrainBytes() && intra + (hi - lo) <= GrainBytes()
      modifies buf
      ensures OnlyChanged(buf, lo, hi)
      ensures r.Ok? ==> forall o :: cur <= o < cur + (hi - lo) ==> ByteAt(o) == Some(buf[lo + o - cur])
      ensures r.Err? ==> exists o :: cur <= o < cur + (hi - lo) && ByteAt(o).None?
    {
      var grainIdx := cur / GrainBytes();
      ghost var at := Locate(grainIdx);
      ChunkBytes(cur, intra, hi - lo, at);
      hide ByteAt, Locate, GrainBytes;
      r := ReadGrain(grainIdx, intra, buf, lo, hi);
      assert ByteAt(cur) == Served(at, intra);
      assert ByteAt(cur + (hi - lo) - 1) == Served(at, intra + (hi - lo) - 1);
    }

    /** Where a grain lives, from the directory and its grain table. */
    method FindGrain(grain: nat) returns (r: Result<Option<nat>, DiskError>)
      requires Valid()
      ensures Locate(grain) == if r.Ok? then Some(r.value) else None
    {
      var gtIdx := GtOf(grain);
      var gteIdx := GteOf(grain);
      hide GtOf, GteOf;
      var gdEntry := if gtIdx < |gd| then gd[gtIdx] else 0;
      if gdEntry == 0 || gdEntry == 1 {
        return Ok(None);
      }
      var gt := LoadGt(gdEntry);
      if gt.Err? {
        return Err(gt.error);
      }
      var gte := gt.value[gteIdx];
      r := Ok(if gte == 0 || gte == 1 then None else Some(gte * SECTOR));
    }

    method ReadGrain(grain: nat, intra: nat, buf: array<Byte>, lo: nat, hi: nat) returns (r: Result<(), DiskError>)
      requires Valid() && lo < hi <= buf.Length
      modifies buf
      ensures OnlyChanged(buf, lo, hi)
      ensures r.Ok? ==> forall k :: intra <= k < intra + (hi - lo) ==> Served(Locate(grain), k) == Some(buf[lo + k - intra])
      ensures r.Err? ==> Served(Locate(grain), intra).None? || Served(Locate(grain), intra + (hi - lo) - 1).None?
    {
      hide Locate;
      var at := FindGrain(grain);
      if at.Err? {
        return Err(at.error);
      }
      if at.value.None? {
        Fill(buf, lo, hi);
      } else {
        var ok := ReadExact(file, at.value.value + intra, buf, lo, hi);
        if !ok {
          return Err(Storage);
        }
      }
      r := Ok(());
    }
  }

  method LoadWords(file: File, off: nat, count: nat) returns (words: seq<nat>)
    requires off + count * 4 <= |file|
    ensures |words| == count
    ensures forall k :: 0 <= k < count ==> off + k * 4 + 4 <= |file| && words[k] == Le(file, off + k * 4, 4)
  {
    hide Le;
    words := [];
    for i := 0 to count
      invariant |words| == i
      invariant forall k :: 0 <= k < i ==> off + k * 4 + 4 <= |file| && words[k] == Le(file, off + k * 4, 4)
    {
      words := words + [Le(file, off + i * 4, 4)];
    }
  }

  /** The part of open after the header was parsed: validate it and load the directory. */
  method OpenWith(file: File, h: Header) returns (r: Result<VmdkImage, DiskError>)
    ensures r.Ok? ==> Opened(r.value, file, h)
    ensures r.Ok? <==> Acceptable(h) && h.gdOffset * SECTOR + DirectoryEntries(h) * 4 <= |file|
  {
    if h.compress != 0 {
      return Err(BadImage);
    }
    if h.grainSectors < 8 || h.grainSectors > 0x10_0000 || !PowerOfTwo(h.grainSectors) {
      return Err(BadImage);
    }
    if h.gtesPerGt == 0 || !PowerOfTwo(h.gtesPerGt) {
      return Err(BadImage);
    }
    if h.gdOffset == 0 {
      return Err(BadImage);
    }
    if h.overhead == 0 {
      return Err(BadImage);
    }
    if h.descriptorSize != 0 && h.descriptorOffset + h.descriptorSize > U64_MAX {
      return Err(BadImage);
    }
    var sectorsPerGt := h.gtesPerGt * h.grainSectors;
    var numGts := DivCeil(h.capacity, sectorsPerGt);
    var off := h.gdOffset * SECTOR;
    if off + numGts * 4 > |file| {
      return Err(Storage);
    }
    var gd := LoadWords(file, off, numGts);
    var size := if h.capacity * SECTOR <= U64_MAX then h.capacity * SECTOR else U64_MAX;
    r := Ok(VmdkImage(file, size, h.grainSectors, h.gtesPerGt, gd));
  }

  ghost predicate Opened(img: VmdkImage, file: File, h: Header) {
    && Acceptable(h) && img.Valid()
    && img.file == file && img.grainSectors == h.grainSectors && img.gtesPerGt == h.gtesPerGt
    && img.virtualSize == (if h.capacity * SECTOR <= U64_MAX then h.capacity * SECTOR else U64_MAX)
    && |img.gd| == DirectoryEntries(h)
    && forall k :: 0 <= k < |img.gd| ==>
         h.gdOffset * SECTOR + k * 4 + 4 <= |file| && img.gd[k] == Le(file, h.gdOffset * SECTOR + k * 4, 4)
  }

  /** No in-range offset falls back to the directory's default entry. */
  lemma OpenedDirectoryCovers(img: VmdkImage, file: File, h: Header, o: nat)
    requires Opened(img, file, h) && o < img.virtualSize
    ensures o / img.GrainBytes() / img.gtesPerGt < |img.gd|
  {
    var grain := o / img.GrainBytes();
    var span := h.gtesPerGt * h.grainSectors;
    DivBelowCeil(o / SECTOR, h.capacity, span);
    DivDiv(o, SECTOR, h.grainSectors);
    DivDiv(o / SECTOR, h.grainSectors, h.gtesPerGt);
  }

  /** Dividing twice is dividing by the product. */
  lemma DivDiv(o: nat, a: nat, b: nat)
    requires a > 0 && b > 0
    ensures b * a > 0 && o / (b * a) == o / a / b
  {
    var q, r, low := o / a / b, o / a % b, o % a;
    TwoSteps(o, a, b);
    BelowProduct(r, a, b, low);
    DivUnique(o, b * a, q, r * a + low);
  }

  lemma TwoSteps(o: nat, a: nat, b: nat)
    requires a > 0 && b > 0
    ensures o == (o / a / b) * (b * a) + ((o / a % b) * a + o % a) && o / a % b < b && o % a < a
  {
    DivMod(o, a);
    DivMod(o / a, b);
    Regroup(o / a / b, b, o / a % b, a);
  }

  lemma BelowProduct(r: nat, a: nat, b: nat, low: nat)
    requires r < b && low < a
    ensures r * a + low < b * a && b * a > 0
  {
    MulStrict(r, b, a);
    assert (r + 1) * a == r * a + a;
  }

  lemma DivMod(n: nat, d: nat)
    requires d > 0
    ensures n == (n / d) * d + n % d && n % d < d
  {}

  lemma Regroup(q: nat, b: nat, r: nat, a: nat)
    ensures (q * b + r) * a == q * (b * a) + r * a
  {
  }
}
