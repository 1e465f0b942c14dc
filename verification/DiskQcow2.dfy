/** Read-only qcow2 v2/v3 images: the two-level cluster map and its read path, which
    serves at most one cluster per call. */
module DiskQcow2 {
  import opened Wrappers
  import opened Crc32c
  import opened DiskFile

  datatype Header = Header(version: nat, clusterBits: nat, size: nat, cryptMethod: nat, backingFileOffset: nat,
                           l1Size: nat, l1TableOffset: nat, incompatible: nat)

  function Pow2(n: nat): (p: nat)
    ensures p > 0
  {
    if n == 0 then 1 else 2 * Pow2(n - 1)
  }

  /** The bit with the given weight is set. */
  predicate BitSet(w: nat, weight: nat)
    requires weight > 0
  {
    w / weight % 2 == 1
  }

  const COMPRESSED: nat := 0x4000_0000_0000_0000

  predicate Acceptable(h: Header) {
    && (h.version == 2 || h.version == 3)
    && 9 <= h.clusterBits <= 21
    && h.cryptMethod == 0 && h.backingFileOffset == 0
    && h.l1TableOffset != 0 && h.l1TableOffset % 512 == 0
    && (h.version >= 3 ==> !BitSet(h.incompatible, 8) && !BitSet(h.incompatible, 16))
  }

  /** Bits 55:9 of an entry. */
  function OffsetBits(entry: nat): nat {
    entry / 512 % 0x8000_0000_0000 * 512
  }

  lemma ClusterSizes(bits: nat)
    requires 9 <= bits
    ensures Pow2(bits) % 8 == 0 && Pow2(bits) >= 512
  {
    if bits == 9 {
      assert Pow2(9) == 2 * Pow2(8) == 4 * Pow2(7) == 8 * Pow2(6) == 16 * Pow2(5) == 32 * Pow2(4);
      assert Pow2(4) == 16;
    } else {
      ClusterSizes(bits - 1);
    }
  }

  datatype Qcow2Image = Qcow2Image(file: File, version: nat, clusterSize: nat, size: nat, l1: seq<nat>) {
    ghost predicate Valid() {
      clusterSize >= 8
    }

    /** The L1 slot that covers a cluster, and the slot in its L2 table. */
    function L1Of(cluster: nat): nat
      requires Valid()
    {
      cluster / (clusterSize / 8)
    }

    function L2Of(cluster: nat): nat
      requires Valid()
    {
      cluster % (clusterSize / 8)
    }

    /** Where a cluster lives: a file position, a hole, or nowhere supported. */
    function Locate(cluster: nat): Option<Option<nat>>
      requires Valid()
    {
      if L1Of(cluster) >= |l1| then None
      else
        var l2 := OffsetBits(l1[L1Of(cluster)]);
        if l2 == 0 then Some(None)
        else if l2 + L2Of(cluster) * 8 + 8 > |file| then None
        else
          var entry := Be(file, l2 + L2Of(cluster) * 8, 8);
          if BitSet(entry, COMPRESSED) then None
          else if (version >= 3 && entry % 2 == 1) || OffsetBits(entry) == 0 then Some(None)
          else Some(Some(OffsetBits(entry)))
    }

    function Served(at: Option<Option<nat>>, intra: nat): Option<Byte> {
      match at
      case None => None
      case Some(None) => Some(0)
      case Some(Some(base)) => if base + intra < |file| then Some(file[base + intra]) else None
    }

    function ByteAt(o: nat): Option<Byte>
      requires Valid()
    {
      Served(Locate(o / clusterSize), o % clusterSize)
    }

    lemma ChunkBytes(cur: nat, intra: nat, chunk: nat, at: Option<Option<nat>>)
      requires Valid() && at == Locate(cur / clusterSize)
      requires intra == cur % clusterSize && intra + chunk <= clusterSize
      ensures forall o :: cur <= o < cur + chunk ==> ByteAt(o) == Served(at, intra + (o - cur))
    {
      hide Locate, Served;
      forall o | cur <= o < cur + chunk
        ensures o / clusterSize == cur / clusterSize && o % clusterSize == intra + (o - cur)
      {
        SameBlock(cur, o - cur, clusterSize);
      }
    }

    /** One call serves the rest of one cluster at most; data past the end of the file
        shortens it, an unsupported cluster fails it. */
    method ReadAt(offset: nat, buf: array<Byte>, lo: nat, hi: nat) returns (r: Result<nat, DiskError>)
      requires Valid() && lo <= hi <= buf.Length
      modifies buf
      ensures OnlyChanged(buf, lo, hi)
      ensures r.Err? <==> hi > lo && offset < size && Locate(offset / clusterSize).None?
      ensures r.Ok? ==> r.value <= Wanted(size, offset, hi - lo)
      ensures r.Ok? ==> forall o :: offset <= o < offset + r.value ==> ByteAt(o) == Some(buf[lo + o - offset])
      ensures r == Ok(0) ==> hi == lo || offset >= size || ByteAt(offset).None?
    {
      if hi == lo {
        return Ok(0);
      }
      if offset >= size {
        return Ok(0);
      }
      var remaining := size - offset;
      var max := if hi - lo < remaining then hi - lo else remaining;
      var intra := offset % clusterSize;
      var take := if max < clusterSize - intra then max else clusterSize - intra;
      r := ReadWithin(offset, intra, buf, lo, lo + take);
    }

    method ReadWithin(offset: nat, intra: nat, buf: array<Byte>, lo: nat, hi: nat) returns (r: Result<nat, DiskError>)
      requires Valid() && lo < hi <= buf.Length
      requires intra == offset % clusterSize && intra + (hi - lo) <= clusterSize
      modifies buf
      ensures OnlyChanged(buf, lo, hi)
      ensures r.Err? <==> Locate(offset / clusterSize).None?
      ensures r.Ok? ==> r.value <= hi - lo
      ensures r.Ok? ==> forall o :: offset <= o < offset + r.value ==> ByteAt(o) == Some(buf[lo + o - offset])
      ensures r == Ok(0) ==> ByteAt(offset).None?
    {
      var clusterIdx := offset / clusterSize;
      ghost var at := Locate(clusterIdx);
      ChunkBytes(offset, intra, hi - lo, at);
      hide ByteAt, Locate;
      r := ReadCluster(clusterIdx, intra, buf, lo, hi);
      assert ByteAt(offset) == Served(at, intra);
    }

    /** The rest of read_at, for the cluster the request starts in. */
    method ReadCluster(cluster: nat, intra: nat, buf: array<Byte>, lo: nat, hi: nat) returns (r: Result<nat, DiskError>)
      requires Valid() && lo < hi <= buf.Length
      modifies buf
      ensures OnlyChanged(buf, lo, hi)
      ensures r.Err? <==> Locate(cluster).None?
      ensures r.Ok? ==> r.value <= hi - lo
      ensures r.Ok? ==> forall k :: intra <= k < intra + r.value ==> Served(Locate(cluster), k) == Some(buf[lo + k - intra])
      ensures r == Ok(0) ==> Served(Locate(cluster), intra).None?
    {
      var l1Index := L1Of(cluster);
      var l2Index := L2Of(cluster);
      hide L1Of, L2Of, OffsetBits, BitSet, Be;
      if l1Index >= |l1| {
        return Err(BadImage);
      }
      var l2Offset := OffsetBits(l1[l1Index]);
      if l2Offset == 0 {
        Fill(buf, lo, hi);
        return Ok(hi - lo);
      }
      if l2Offset + l2Index * 8 + 8 > |file| {
        return Err(Storage);
      }
      var l2Entry := Be(file, l2Offset + l2Index * 8, 8);
      if BitSet(l2Entry, COMPRESSED) {
        return Err(BadImage);
      }
      if version >= 3 && l2Entry % 2 == 1 {
        Fill(buf, lo, hi);
        return Ok(hi - lo);
      }
      var dataOffset := OffsetBits(l2Entry);
      if dataOffset == 0 {
        Fill(buf, lo, hi);
        return Ok(hi - lo);
      }
      var total := ReadLoop(file, dataOffset + intra, buf, lo, hi);
      r := Ok(total);
    }
  }

  /** Repeat reads until the range is full or a read returns nothing: what is copied is
      the part of the range inside the file. */
  method ReadLoop(file: File, off: nat, buf: array<Byte>, lo: nat, hi: nat) returns (total: nat)
    requires lo < hi <= buf.Length
    modifies buf
    ensures OnlyChanged(buf, lo, hi)
    ensures total == Wanted(|file|, off, hi - lo)
    ensures forall j :: lo <= j < lo + total ==> off + j - lo < |file| && buf[j] == file[off + j - lo]
  {
    total := 0;
    while total < hi - lo
      invariant total <= hi - lo && (total > 0 ==> off + total <= |file|)
      invariant OnlyChanged(buf, lo, hi)
      invariant forall j :: lo <= j < lo + total ==> off + j - lo < |file| && buf[j] == file[off + j - lo]
      decreases hi - lo - total
    {
      ghost var before := buf[..];
      var n := ReadSome(file, off + total, buf, lo + total, hi);
      if n == 0 {
        break;
      }
      total := total + n;
    }
  }

  /** The part of open after the header was parsed: validate it and load the L1 table. */
  method OpenWith(file: File, h: Header) returns (r: Result<Qcow2Image, DiskError>)
    ensures r.Ok? <==> Acceptable(h) && h.l1TableOffset + h.l1Size * 8 <= |file|
    ensures r.Ok? ==> Opened(r.value, file, h)
  {
    if h.version != 2 && h.version != 3 {
      return Err(BadImage);
    }
    if h.clusterBits < 9 || h.clusterBits > 21 {
      return Err(BadImage);
    }
    if h.cryptMethod != 0 {
      return Err(BadImage);
    }
    if h.backingFileOffset != 0 {
      return Err(BadImage);
    }
    if h.l1TableOffset == 0 || h.l1TableOffset % 512 != 0 {
      return Err(BadImage);
    }
    if h.version >= 3 && (BitSet(h.incompatible, 8) || BitSet(h.incompatible, 16)) {
      return Err(BadImage);
    }
    if h.l1TableOffset + h.l1Size * 8 > |file| {
      return Err(Storage);
    }
    var l1: seq<nat> := [];
    for i := 0 to h.l1Size
      invariant |l1| == i
      invariant forall k :: 0 <= k < i ==> l1[k] == Be(file, h.l1TableOffset + k * 8, 8)
    {
      l1 := l1 + [Be(file, h.l1TableOffset + i * 8, 8)];
    }
    ClusterSizes(h.clusterBits);
    r := Ok(Qcow2Image(file, h.version, Pow2(h.clusterBits), h.size, l1));
  }

  ghost predicate Opened(img: Qcow2Image, file: File, h: Header) {
    && Acceptable(h) && img.Valid()
    && img.file == file && img.version == h.version && img.size == h.size
    && img.clusterSize == Pow2(h.clusterBits) && |img.l1| == h.l1Size
    && h.l1TableOffset + h.l1Size * 8 <= |file|
    && forall k :: 0 <= k < |img.l1| ==> img.l1[k] == Be(file, h.l1TableOffset + k * 8, 8)
  }
}
