/** Read-only dynamic and fixed VHDX images ([MS-VHDX]): the block allocation table and
    the read path through it. */
module DiskVhdx {
  import opened Wrappers
  import opened Crc32c
  import opened DiskFile

  const MEGABYTE: nat := 0x10_0000
  const CHUNK_SECTORS: nat := 0x80_0000

  /** The metadata items the reader keeps. */
  datatype Metadata = Metadata(virtualSize: nat, blockSize: nat, sectorSize: nat, hasParent: bool)

  predicate Acceptable(m: Metadata) {
    && !m.hasParent
    && m.blockSize > 0 && m.blockSize % MEGABYTE == 0
    && (m.sectorSize == 512 || m.sectorSize == 4096)
    && ChunkRatio(m) > 0
  }

  function ChunkRatio(m: Metadata): nat
    requires m.blockSize > 0
  {
    CHUNK_SECTORS * m.sectorSize / m.blockSize
  }

  function PayloadBlocks(m: Metadata): nat
    requires m.blockSize > 0
  {
    DivCeil(m.virtualSize, m.blockSize)
  }

  /** Payload entries plus one sector-bitmap entry per started chunk. */
  function BatEntries(m: Metadata): nat
    requires m.blockSize > 0 && ChunkRatio(m) > 0
  {
    PayloadBlocks(m) + DivCeil(PayloadBlocks(m), ChunkRatio(m))
  }

  /** One sector-bitmap entry is skipped after every ratio payload entries. */
  function BatIndex(block: nat, ratio: nat): nat
    requires ratio > 0
  {
    block + block / ratio
  }

  /** [MS-VHDX] section 2.5: every (ratio + 1)-st entry is a sector bitmap. */
  predicate IsBitmapSlot(idx: nat, ratio: nat)
    requires ratio > 0
  {
    idx % (ratio + 1) == ratio
  }

  lemma BatIndexShape(block: nat, ratio: nat)
    requires ratio > 0
    ensures BatIndex(block, ratio) == (block / ratio) * (ratio + 1) + block % ratio
    ensures BatIndex(block, ratio) / (ratio + 1) == block / ratio
    ensures BatIndex(block, ratio) % (ratio + 1) == block % ratio
  {
    var q, r := block / ratio, block % ratio;
    assert q * (ratio + 1) == q * ratio + q;
    DivUnique(BatIndex(block, ratio), ratio + 1, q, r);
  }

  /** Payload lookups never land on a sector bitmap, never share a slot, and stay inside
      the table that open sized. */
  lemma BatIndexSound(m: Metadata, block: nat, other: nat)
    requires m.blockSize > 0 && ChunkRatio(m) > 0
    ensures !IsBitmapSlot(BatIndex(block, ChunkRatio(m)), ChunkRatio(m))
    ensures BatIndex(block, ChunkRatio(m)) == BatIndex(other, ChunkRatio(m)) <==> block == other
    ensures block < PayloadBlocks(m) ==> BatIndex(block, ChunkRatio(m)) < BatEntries(m)
  {
    var ratio := ChunkRatio(m);
    BatIndexShape(block, ratio);
    BatIndexShape(other, ratio);
    assert block == (block / ratio) * ratio + block % ratio;
    assert other == (other / ratio) * ratio + other % ratio;
    if block < PayloadBlocks(m) {
      DivBelowCeil(block, PayloadBlocks(m), ratio);
    }
  }

  /** The sizing is one slot more than the last lookup needs. */
  lemma BatSizing(m: Metadata)
    requires m.blockSize > 0 && ChunkRatio(m) > 0 && PayloadBlocks(m) > 0
    ensures BatEntries(m) == BatIndex(PayloadBlocks(m) - 1, ChunkRatio(m)) + 2
  {
    var n, ratio := PayloadBlocks(m), ChunkRatio(m);
    var q, r := (n - 1) / ratio, (n - 1) % ratio;
    assert n + ratio - 1 == (q + 1) * ratio + r;
    DivUnique(n + ratio - 1, ratio, q + 1, r);
  }

  datatype VhdxImage = VhdxImage(file: File, virtualSize: nat, blockSize: nat, bat: seq<nat>, chunkRatio: nat) {
    ghost predicate Valid() {
      blockSize > 0 && chunkRatio > 0
    }

    /** What the table says about a block: a file position, a hole, or an error. */
    function Locate(block: nat): Option<Option<nat>>
      requires Valid()
    {
      var idx := BatIndex(block, chunkRatio);
      if idx >= |bat| then None
      else
        var state := bat[idx] % 8;
        if state <= 3 then Some(None)
        else if state == 6 then Some(Some(bat[idx] / MEGABYTE * MEGABYTE))
        else None
    }

    /** The guest-visible byte at o, when the image can serve it. */
    function ByteAt(o: nat): Option<Byte>
      requires Valid()
    {
      Served(Locate(o / blockSize), o % blockSize)
    }

    function Served(at: Option<Option<nat>>, intra: nat): Option<Byte> {
      match at
      case None => None
      case Some(None) => Some(0)
      case Some(Some(base)) => if base + intra < |file| then Some(file[base + intra]) else None
    }

    /** The loop of read_at: one block-bounded chunk after another. */
    method ReadAt(offset: nat, buf: array<Byte>, lo: nat, hi: nat) returns (r: Result<nat, DiskError>)
      requires Valid() && lo <= hi <= buf.Length
      modifies buf
      ensures OnlyChanged(buf, lo, hi)
      ensures r.Ok? <==> forall o :: offset <= o < offset + Wanted(virtualSize, offset, hi - lo) ==> ByteAt(o).Some?
      ensures r.Ok? ==> r.value == Wanted(virtualSize, offset, hi - lo)
      ensures r.Ok? ==> forall o :: offset <= o < offset + r.value ==> ByteAt(o) == Some(buf[lo + o - offset])
    {
      if hi == lo || offset >= virtualSize {
        return Ok(0);
      }
      var max := virtualSize - offset;
      var want := if hi - lo < max then hi - lo else max;
      hide ByteAt;
      var filled, cur := 0, offset;
      while filled < want
        invariant filled <= want && cur == offset + filled
        invariant OnlyChanged(buf, lo, hi)
        invariant forall o :: offset <= o < cur ==> ByteAt(o) == Some(buf[lo + o - offset])
        decreases want - filled
      {
        var intra := cur % blockSize;
        var chunk := if want - filled < blockSize - intra then want - filled else blockSize - intra;
        var c := ReadChunk(cur, intra, buf, lo + filled, lo + filled + chunk);
        if c.Err? {
          return Err(c.error);
        }
        filled := filled + chunk;
        cur := cur + chunk;
      }
      r := Ok(filled);
    }

    /** The loop body of read_at. */
    method ReadChunk(cur: nat, intra: nat, buf: array<Byte>, lo: nat, hi: nat) returns (r: Result<(), DiskError>)
      requires Valid() && lo < hi <= buf.Length
      requires intra == cur % blockSize && intra + (hi - lo) <= blockSize
      modifies buf
      ensures OnlyChanged(buf, lo, hi)
      ensures r.Ok? ==> forall o :: cur <= o < cur + (hi - lo) ==> ByteAt(o) == Some(buf[lo + o - cur])
      ensures r.Err? ==> exists o :: cur <= o < cur + (hi - lo) && ByteAt(o).None?
    {
      var blockIdx := cur / blockSize;
      ghost var at := Locate(blockIdx);
      ChunkBytes(cur, intra, hi - lo, at);
      hide ByteAt;
      var batIdx := blockIdx + blockIdx / chunkRatio;
      if batIdx >= |bat| {
        assert ByteAt(cur).None?;
        return Err(BadImage);
      }
      var entry := bat[batIdx];
      var state := entry % 8;
      if state <= 3 {
        Fill(buf, lo, hi);
      } else if state == 6 {
        var blockOff := entry / MEGABYTE * MEGABYTE;
        var ok := ReadExact(file, blockOff + intra, buf, lo, hi);
        if !ok {
          assert ByteAt(cur + (hi - lo) - 1).None?;
          return Err(Storage);
        }
      } else {
        assert ByteAt(cur).None?;
        return Err(BadImage);
      }
      r := Ok(());
    }

    /** All bytes of a chunk share their block, hence their fate. */
    lemma ChunkBytes(cur: nat, intra: nat, chunk: nat, at: Option<Option<nat>>)
      requires Valid() && at == Locate(cur / blockSize)
      requires intra == cur % blockSize && intra + chunk <= blockSize
      ensures forall o :: cur <= o < cur + chunk ==> ByteAt(o) == Served(at, intra + (o - cur))
    {
      hide Locate, Served;
      forall o | cur <= o < cur + chunk
        ensures o / blockSize == cur / blockSize && o % blockSize == intra + (o - cur)
      {
        SameBlock(cur, o - cur, blockSize);
      }
    }
  }

  method LoadBat(file: File, off: nat, total: nat) returns (bat: seq<nat>)
    requires off + total * 8 <= |file|
    ensures |bat| == total
    ensures forall k :: 0 <= k < total ==> off + 8 * k + 8 <= |file| && bat[k] == Le(file, off + 8 * k, 8)
  {
    hide Le;
    bat := [];
    for i := 0 to total
      invariant |bat| == i
      invariant forall k :: 0 <= k < i ==> off + 8 * k + 8 <= |file| && bat[k] == Le(file, off + 8 * k, 8)
    {
      bat := bat + [Le(file, off + 8 * i, 8)];
    }
  }

  /** The part of open that follows the region and metadata tables: size the BAT, check it
      against its region, and load it. */
  method OpenWith(file: File, m: Metadata, batOffset: nat, batLength: nat) returns (r: Result<VhdxImage, DiskError>)
    ensures r.Ok? <==> Acceptable(m) && BatEntries(m) * 8 <= batLength && batOffset + BatEntries(m) * 8 <= |file|
    ensures r.Ok? ==> Opened(r.value, file, m, batOffset)
  {
    if m.hasParent {
      return Err(BadImage);
    }
    if m.blockSize == 0 || m.blockSize % MEGABYTE != 0 {
      return Err(BadImage);
    }
    if m.sectorSize != 512 && m.sectorSize != 4096 {
      return Err(BadImage);
    }
    var chunkRatio := CHUNK_SECTORS * m.sectorSize / m.blockSize;
    if chunkRatio == 0 {
      return Err(BadImage);
    }
    var pbCount := DivCeil(m.virtualSize, m.blockSize);
    var chunkCount := DivCeil(pbCount, chunkRatio);
    var total := pbCount + chunkCount;
    if total * 8 > batLength {
      return Err(BadImage);
    }
    if batOffset + total * 8 > |file| {
      return Err(Storage);
    }
    var bat := LoadBat(file, batOffset, total);
    r := Ok(VhdxImage(file, m.virtualSize, m.blockSize, bat, chunkRatio));
  }

  ghost predicate Opened(img: VhdxImage, file: File, m: Metadata, batOffset: nat) {
    && Acceptable(m) && img.Valid()
    && img.file == file && img.virtualSize == m.virtualSize && img.blockSize == m.blockSize
    && img.chunkRatio == ChunkRatio(m) && |img.bat| == BatEntries(m)
    && forall k :: 0 <= k < |img.bat| ==>
         batOffset + 8 * k + 8 <= |file| && img.bat[k] == Le(file, batOffset + 8 * k, 8)
  }

  /** In an opened image no in-range offset falls off the table: a byte that cannot be
      served is in a block of an unsupported state or lies past the end of the file. */
  lemma OpenedTableCovers(img: VhdxImage, file: File, m: Metadata, batOffset: nat, o: nat)
    requires Opened(img, file, m, batOffset) && o < img.virtualSize
    ensures var idx := BatIndex(o / img.blockSize, img.chunkRatio);
      && idx < |img.bat| && !IsBitmapSlot(idx, img.chunkRatio)
      && (img.ByteAt(o).None? <==>
            var state := img.bat[idx] % 8;
            state in {4, 5, 7} || (state == 6 && img.bat[idx] / MEGABYTE * MEGABYTE + o % img.blockSize >= |file|))
  {
    DivBelowCeil(o, m.virtualSize, m.blockSize);
    BatIndexSound(m, o / img.blockSize, 0);
  }
}
