/** Where the bytes of a guest disk lie in the image file, format by format, down to the bytes of the
    table entries. */
module DiskOnFile {
  import opened Wrappers
  import opened Crc32c
  import opened DiskFile
  import Q = DiskQcow2
  import K = DiskVmdk
  import X = DiskVhdx

  /** The byte at off as a number. */
  function Num(file: File, off: nat): (n: nat)
    ensures n < 256
  {
    if off < |file| then file[off] as nat else 0
  }

  /** The guest byte k bytes into a place of the file: zero in a hole, and none where nothing can be
      read. */
  function Behind(file: File, place: Option<Option<nat>>, k: nat): Option<Byte> {
    match place
    case None => None
    case Some(None) => Some(0)
    case Some(Some(base)) => if base + k < |file| then Some(file[base + k]) else None
  }

  // ----- words -----------------------------------------------------------------------------------

  lemma BigEndian(file: File, off: nat)
    requires off + 8 <= |file|
    ensures Be(file, off, 8) ==
      Num(file, off) * 0x100_0000_0000_0000 + Num(file, off + 1) * 0x1_0000_0000_0000 + Num(file, off + 2) * 0x100_0000_0000
      + Num(file, off + 3) * 0x1_0000_0000 + Num(file, off + 4) * 0x100_0000 + Num(file, off + 5) * 0x1_0000
      + Num(file, off + 6) * 0x100 + Num(file, off + 7)
  {
    hide Num;
    BeStep(file, off, 8);
    BeStep(file, off, 7);
    BeStep(file, off, 6);
    BeStep(file, off, 5);
    BeStep(file, off, 4);
    BeStep(file, off, 3);
    BeStep(file, off, 2);
    BeStep(file, off, 1);
    hide Be;
    assert Be(file, off, 0) == 0 by { BeNothing(file, off); }
  }

  lemma BeNothing(file: File, off: nat)
    requires off <= |file|
    ensures Be(file, off, 0) == 0 && Le(file, off, 0) == 0
  {}

  lemma BeStep(file: File, off: nat, n: nat)
    requires n > 0 && off + n <= |file|
    ensures Be(file, off, n) == 256 * Be(file, off, n - 1) + Num(file, off + n - 1)
  {}

  lemma LeStep(file: File, off: nat, n: nat)
    requires n > 0 && off + n <= |file|
    ensures Le(file, off, n) == Num(file, off) + 256 * Le(file, off + 1, n - 1)
  {}

  lemma LittleEndian4(file: File, off: nat)
    requires off + 4 <= |file|
    ensures Le(file, off, 4)
         == Num(file, off) + Num(file, off + 1) * 0x100 + Num(file, off + 2) * 0x1_0000 + Num(file, off + 3) * 0x100_0000
  {
    hide Num, Le;
    LeStep(file, off, 4);
    LeStep(file, off + 1, 3);
    LeStep(file, off + 2, 2);
    LeStep(file, off + 3, 1);
    BeNothing(file, off + 4);
  }

  lemma LittleEndian8(file: File, off: nat)
    requires off + 8 <= |file|
    ensures Le(file, off, 8) == Le(file, off, 4) + Le(file, off + 4, 4) * 0x1_0000_0000
  {
    hide Num, Le;
    LeStep(file, off, 8);
    LeStep(file, off + 1, 7);
    LeStep(file, off + 2, 6);
    LeStep(file, off + 3, 5);
    LeStep(file, off, 4);
    LeStep(file, off + 1, 3);
    LeStep(file, off + 2, 2);
    LeStep(file, off + 3, 1);
    BeNothing(file, off + 4);
  }

  /** The disk byte number b of block a, counted in blocks of n. */
  lemma InBlock(a: nat, n: nat, b: nat)
    requires b < n
    ensures (a * n + b) / n == a && (a * n + b) % n == b
  {
    DivUnique(a * n + b, n, a, b);
  }

  // ----- qcow2 ---------------------------------------------------------------------------------------

  /** Bits 55:9 of the big-endian word at off: its second to sixth byte, and the seventh without its
      lowest bit. */
  function Pointer(file: File, off: nat): nat {
    Num(file, off + 1) * 0x1_0000_0000_0000 + Num(file, off + 2) * 0x100_0000_0000 + Num(file, off + 3) * 0x1_0000_0000
    + Num(file, off + 4) * 0x100_0000 + Num(file, off + 5) * 0x1_0000 + Num(file, off + 6) / 2 * 0x200
  }

  /** Bit 62, and bit 0, of the big-endian word at off. */
  predicate Compressed(file: File, off: nat) { Num(file, off) / 64 % 2 == 1 }

  predicate ReadsZero(file: File, off: nat) { Num(file, off + 7) % 2 == 1 }

  lemma BitsOfWord(b0: nat, mid: nat, b6: nat, b7: nat)
    requires b0 < 256 && mid < 0x100_0000_0000 && b6 < 256 && b7 < 256
    ensures var w := b0 * 0x100_0000_0000_0000 + mid * 0x1_0000 + b6 * 0x100 + b7;
      && Q.OffsetBits(w) == mid * 0x1_0000 + b6 / 2 * 0x200
      && Q.BitSet(w, Q.COMPRESSED) == (b0 / 64 % 2 == 1)
      && w % 2 == b7 % 2
  {
    var w := b0 * 0x100_0000_0000_0000 + mid * 0x1_0000 + b6 * 0x100 + b7;
    var low := (b6 % 2) * 0x100 + b7;
    var field := mid * 0x80 + b6 / 2;
    assert w == (b0 * 0x8000_0000_0000 + field) * 512 + low;
    DivUnique(w, 512, b0 * 0x8000_0000_0000 + field, low);
    DivUnique(b0 * 0x8000_0000_0000 + field, 0x8000_0000_0000, b0, field);
    var rest := (b0 % 64) * 0x100_0000_0000_0000 + mid * 0x1_0000 + b6 * 0x100 + b7;
    assert w == (b0 / 64) * Q.COMPRESSED + rest;
    DivUnique(w, Q.COMPRESSED, b0 / 64, rest);
  }

  lemma EntryBits(file: File, off: nat)
    requires off + 8 <= |file|
    ensures var w := Be(file, off, 8);
      && Q.OffsetBits(w) == Pointer(file, off) && Q.BitSet(w, Q.COMPRESSED) == Compressed(file, off)
      && (w % 2 == 1 <==> ReadsZero(file, off))
  {
    BigEndian(file, off);
    var b0, b1, b2, b3 := Num(file, off), Num(file, off + 1), Num(file, off + 2), Num(file, off + 3);
    var b4, b5, b6, b7 := Num(file, off + 4), Num(file, off + 5), Num(file, off + 6), Num(file, off + 7);
    var mid := b1 * 0x1_0000_0000 + b2 * 0x100_0000 + b3 * 0x1_0000 + b4 * 0x100 + b5;
    assert Pointer(file, off) == mid * 0x1_0000 + b6 / 2 * 0x200 by { hide Num, Be, Q.OffsetBits, Q.BitSet; }
    assert Be(file, off, 8) == b0 * 0x100_0000_0000_0000 + mid * 0x1_0000 + b6 * 0x100 + b7 by { hide Num, Be, Q.OffsetBits, Q.BitSet; }
    hide Num, Be, Q.OffsetBits, Q.BitSet, Pointer;
    BitsOfWord(b0, mid, b6, b7);
  }

  /** The place that entry j of L2 table i lists, from the file's own bytes. No L1 entry: refused. No
      table: a hole. Entry outside the file, or compressed: refused. Zero flag, or no data: a hole. */
  function Qcow2Place(file: File, h: Q.Header, i: nat, j: nat): Option<Option<nat>> {
    var table := Pointer(file, h.l1TableOffset + 8 * i);
    var entry := table + 8 * j;
    if i >= h.l1Size then None
    else if table == 0 then Some(None)
    else if entry + 8 > |file| || Compressed(file, entry) then None
    else if (h.version >= 3 && ReadsZero(file, entry)) || Pointer(file, entry) == 0 then Some(None)
    else Some(Some(Pointer(file, entry)))
  }

  /** Main result (qcow2): byte k of the cluster in place j of the i-th group of clusters, a group
      having an eighth of a cluster's bytes as many clusters, is byte k behind the place that entry j
      of L2 table i lists. */
  lemma Qcow2ByteOnFile(img: Q.Qcow2Image, file: File, h: Q.Header, i: nat, j: nat, k: nat, cluster: nat, o: nat)
    requires Q.Opened(img, file, h) && j < img.clusterSize / 8 && k < img.clusterSize
    requires cluster == i * (img.clusterSize / 8) + j && o == cluster * img.clusterSize + k
    ensures img.ByteAt(o) == Behind(file, Qcow2Place(file, h, i, j), k)
  {
    hide Q.Opened, Qcow2Place, Behind, Q.Qcow2Image.Locate, Q.Qcow2Image.ByteAt;
    InBlock(cluster, img.clusterSize, k);
    Qcow2Byte(img, o, cluster, k);
    InBlock(i, img.clusterSize / 8, j);
    Qcow2Located(img, file, h, i, j, cluster);
  }

  lemma Qcow2Byte(img: Q.Qcow2Image, o: nat, cluster: nat, k: nat)
    requires img.Valid() && o / img.clusterSize == cluster && o % img.clusterSize == k
    ensures img.ByteAt(o) == Behind(img.file, img.Locate(cluster), k)
  {
    hide Q.Qcow2Image.Locate;
  }

  lemma Qcow2Located(img: Q.Qcow2Image, file: File, h: Q.Header, i: nat, j: nat, cluster: nat)
    requires Q.Opened(img, file, h) && cluster / (img.clusterSize / 8) == i && cluster % (img.clusterSize / 8) == j
    ensures img.file == file && img.Locate(cluster) == Qcow2Place(file, h, i, j)
  {
    hide Q.Qcow2Image.L1Of, Q.Qcow2Image.L2Of, Pointer, Compressed, ReadsZero, Q.OffsetBits, Q.BitSet, Be, Q.Pow2, Q.Acceptable;
    Qcow2Slots(img, cluster);
    if i < h.l1Size {
      assert img.l1[i] == Be(file, h.l1TableOffset + i * 8, 8);
      EntryBits(file, h.l1TableOffset + 8 * i);
      var entry := Pointer(file, h.l1TableOffset + 8 * i) + 8 * j;
      if entry + 8 <= |file| { EntryBits(file, entry); }
    }
  }

  lemma Qcow2Slots(img: Q.Qcow2Image, cluster: nat)
    requires img.Valid()
    ensures img.L1Of(cluster) == cluster / (img.clusterSize / 8) && img.L2Of(cluster) == cluster % (img.clusterSize / 8)
  {}

  // ----- VMDK -----------------------------------------------------------------------------------------

  /** The little-endian word of four bytes at off. */
  function Word(file: File, off: nat): nat {
    Num(file, off) + Num(file, off + 1) * 0x100 + Num(file, off + 2) * 0x1_0000 + Num(file, off + 3) * 0x100_0000
  }

  /** The place that entry j of grain table i lists. No directory entry, no table or no grain: a hole.
      Table outside the file: refused. */
  function VmdkPlace(file: File, h: K.Header, entries: nat, i: nat, j: nat): Option<Option<nat>> {
    var table := Word(file, h.gdOffset * SECTOR + 4 * i);
    var grain := Word(file, table * SECTOR + 4 * j);
    if i >= entries || table <= 1 then Some(None)
    else if table * SECTOR + 4 * h.gtesPerGt > |file| then None
    else if grain <= 1 then Some(None)
    else Some(Some(grain * SECTOR))
  }

  lemma VmdkLocated(img: K.VmdkImage, file: File, h: K.Header, i: nat, j: nat, grain: nat)
    requires K.Opened(img, file, h) && grain / h.gtesPerGt == i && grain % h.gtesPerGt == j
    ensures img.file == file && img.Locate(grain) == VmdkPlace(file, h, |img.gd|, i, j)
  {
    hide K.VmdkImage.GtOf, K.VmdkImage.GteOf, Word, Le, K.Acceptable, K.DirectoryEntries;
    VmdkSlots(img, grain);
    if i < |img.gd| {
      assert img.gd[i] == Le(file, h.gdOffset * SECTOR + i * 4, 4);
      WordIs(file, h.gdOffset * SECTOR + 4 * i);
      var table := Word(file, h.gdOffset * SECTOR + 4 * i);
      if table * SECTOR + 4 * h.gtesPerGt <= |file| { WordIs(file, table * SECTOR + 4 * j); }
    }
  }

  lemma VmdkSlots(img: K.VmdkImage, grain: nat)
    requires img.Valid()
    ensures img.GtOf(grain) == grain / img.gtesPerGt && img.GteOf(grain) == grain % img.gtesPerGt
  {}

  lemma VmdkByte(img: K.VmdkImage, o: nat, grain: nat, k: nat)
    requires img.Valid() && o / (img.grainSectors * SECTOR) == grain && o % (img.grainSectors * SECTOR) == k
    ensures img.ByteAt(o) == Behind(img.file, img.Locate(grain), k)
  {
    hide K.VmdkImage.Locate;
  }

  lemma WordIs(file: File, off: nat)
    requires off + 4 <= |file|
    ensures Le(file, off, 4) == Word(file, off)
  {
    LittleEndian4(file, off);
    hide Le, Num;
  }

  /** Main result (VMDK): byte k of the grain in place j of the i-th group of grains is byte k behind the
      place that entry j of grain table i lists. */
  lemma VmdkByteOnFile(img: K.VmdkImage, file: File, h: K.Header, i: nat, j: nat, k: nat, grain: nat, o: nat)
    requires K.Opened(img, file, h) && j < h.gtesPerGt && k < h.grainSectors * SECTOR
    requires grain == i * h.gtesPerGt + j && o == grain * (h.grainSectors * SECTOR) + k
    ensures img.ByteAt(o) == Behind(file, VmdkPlace(file, h, |img.gd|, i, j), k)
  {
    hide VmdkPlace, Behind, K.VmdkImage.Locate, K.VmdkImage.ByteAt, K.Acceptable, K.DirectoryEntries;
    InBlock(grain, h.grainSectors * SECTOR, k);
    VmdkByte(img, o, grain, k);
    InBlock(i, h.gtesPerGt, j);
    VmdkLocated(img, file, h, i, j, grain);
  }

  // ----- VHDX -------------------------------------------------------------------------------------------

  /** The megabyte number in bits 63:20 of the little-endian word at off, in bytes. */
  function Megabytes(file: File, off: nat): nat {
    Num(file, off + 2) / 16 * 0x10_0000 + Num(file, off + 3) * 0x100_0000 + Word(file, off + 4) * 0x1_0000_0000
  }

  lemma BitsOfBat(b0: nat, b1: nat, b2: nat, b3: nat, high: nat)
    requires b0 < 256 && b1 < 256 && b2 < 256 && b3 < 256
    ensures var w := b0 + b1 * 0x100 + b2 * 0x1_0000 + b3 * 0x100_0000 + high * 0x1_0000_0000;
      w % 8 == b0 % 8 && w / X.MEGABYTE * X.MEGABYTE == b2 / 16 * 0x10_0000 + b3 * 0x100_0000 + high * 0x1_0000_0000
  {
    BatParts(b0, b1, b2, b3, high, b0 / 8, b0 % 8, b2 / 16, b2 % 16);
  }

  lemma BatParts(b0: nat, b1: nat, b2: nat, b3: nat, high: nat, h0: nat, l0: nat, h2: nat, l2: nat)
    requires b0 < 256 && b1 < 256 && b0 == 8 * h0 + l0 && l0 < 8 && b2 == 16 * h2 + l2 && l2 < 16
    ensures var w := b0 + b1 * 0x100 + b2 * 0x1_0000 + b3 * 0x100_0000 + high * 0x1_0000_0000;
      w % 8 == l0 && w / X.MEGABYTE * X.MEGABYTE == h2 * 0x10_0000 + b3 * 0x100_0000 + high * 0x1_0000_0000
  {
    var w := b0 + b1 * 0x100 + b2 * 0x1_0000 + b3 * 0x100_0000 + high * 0x1_0000_0000;
    DivUnique(w, 8, h0 + b1 * 0x20 + b2 * 0x2000 + b3 * 0x20_0000 + high * 0x2000_0000, l0);
    DivUnique(w, X.MEGABYTE, h2 + b3 * 0x10 + high * 0x1000, b0 + b1 * 0x100 + l2 * 0x1_0000);
  }

  lemma BatBits(file: File, off: nat)
    requires off + 8 <= |file|
    ensures var w := Le(file, off, 8); w % 8 == Num(file, off) % 8 && w / X.MEGABYTE * X.MEGABYTE == Megabytes(file, off)
  {
    LittleEndian8(file, off);
    WordIs(file, off);
    WordIs(file, off + 4);
    BitsOfBat(Num(file, off), Num(file, off + 1), Num(file, off + 2), Num(file, off + 3), Word(file, off + 4));
    assert Word(file, off) == Num(file, off) + Num(file, off + 1) * 0x100 + Num(file, off + 2) * 0x1_0000 + Num(file, off + 3) * 0x100_0000;
    hide Le, Num, Word;
  }

  /** The place that block j of chunk c has, from its table entry: behind c chunks of payload entries
      with one sector bitmap entry each. No entry, or a block in no known state: refused. A block that
      is absent: a hole. One that is fully present: its megabyte. */
  function VhdxPlace(file: File, bat: nat, entries: nat, slot: nat): Option<Option<nat>> {
    var state := Num(file, bat + 8 * slot) % 8;
    if slot >= entries then None
    else if state <= 3 then Some(None)
    else if state == 6 then Some(Some(Megabytes(file, bat + 8 * slot)))
    else None
  }

  lemma VhdxLocated(img: X.VhdxImage, file: File, m: X.Metadata, bat: nat, block: nat, slot: nat)
    requires X.Opened(img, file, m, bat) && slot == X.BatIndex(block, img.chunkRatio)
    ensures img.file == file && img.Locate(block) == VhdxPlace(file, bat, |img.bat|, slot)
  {
    hide Num, Megabytes, Le, X.BatIndex, X.Acceptable, X.BatEntries, X.ChunkRatio;
    if slot < |img.bat| {
      assert img.bat[slot] == Le(file, bat + 8 * slot, 8);
      BatBits(file, bat + 8 * slot);
    }
  }

  lemma VhdxByte(img: X.VhdxImage, o: nat, block: nat, k: nat)
    requires img.Valid() && o / img.blockSize == block && o % img.blockSize == k
    ensures img.ByteAt(o) == Behind(img.file, img.Locate(block), k)
  {
    hide X.VhdxImage.Locate;
  }

  /** Main result (VHDX): byte k of block j of chunk c is byte k behind the place of that block. */
  lemma VhdxByteOnFile(img: X.VhdxImage, file: File, m: X.Metadata, bat: nat, c: nat, j: nat, k: nat, block: nat, slot: nat, o: nat)
    requires X.Opened(img, file, m, bat) && j < img.chunkRatio && k < m.blockSize
    requires block == c * img.chunkRatio + j && slot == c * (img.chunkRatio + 1) + j && o == block * m.blockSize + k
    ensures img.ByteAt(o) == Behind(file, VhdxPlace(file, bat, |img.bat|, slot), k)
  {
    hide VhdxPlace, Behind, X.VhdxImage.Locate, X.VhdxImage.ByteAt, X.Acceptable, X.BatEntries, X.ChunkRatio, X.BatIndex;
    InBlock(block, m.blockSize, k);
    VhdxByte(img, o, block, k);
    InBlock(c, img.chunkRatio, j);
    X.BatIndexShape(block, img.chunkRatio);
    VhdxLocated(img, file, m, bat, block, slot);
  }

  // ----- sizes -----------------------------------------------------------------------------------------

  /** The sizes the headers stand for: 512 bytes to 2 MiB for a qcow2 cluster, and 128 blocks of 32 MiB
      to a chunk of VHDX with sectors of 512 bytes. */
  lemma Sizes()
    ensures Q.Pow2(9) == 512 && Q.Pow2(16) == 0x1_0000 && Q.Pow2(21) == 0x20_0000
    ensures X.ChunkRatio(X.Metadata(0, 0x200_0000, 512, false)) == 128
    ensures X.ChunkRatio(X.Metadata(0, 0x200_0000, 4096, false)) == 1024
  {
    assert Q.Pow2(4) == 16 && Q.Pow2(8) == 256;
    assert Q.Pow2(12) == 4096 && Q.Pow2(16) == 65536;
    assert Q.Pow2(20) == 0x10_0000;
  }

  lemma OneOrEven(k: nat)
    ensures Q.Pow2(k) == 1 || (Q.Pow2(k) > 1 && Q.Pow2(k) % 2 == 0)
  {}

  lemma HalfAndDouble(n: nat)
    requires n > 1 && n % 2 == 0
    ensures (exists k: nat :: n == Q.Pow2(k)) <==> exists k: nat :: n / 2 == Q.Pow2(k)
  {
    if k: nat :| n / 2 == Q.Pow2(k) {
      Doubled(k);
      assert n == Q.Pow2(k + 1);
    }
    if k: nat :| n == Q.Pow2(k) {
      assert k != 0;
      var j: nat := k - 1;
      Doubled(j);
      assert n / 2 == Q.Pow2(j);
    }
  }

  lemma Doubled(k: nat)
    ensures Q.Pow2(k + 1) == 2 * Q.Pow2(k)
  {}

  /** The test on VMDK grain and table sizes. */
  lemma {:induction false} PowersOfTwo(n: nat)
    ensures K.PowerOfTwo(n) <==> exists k: nat :: n == Q.Pow2(k)
  {
    if n > 1 && n % 2 == 0 {
      PowersOfTwo(n / 2);
      HalfAndDouble(n);
    } else if n == 1 {
      assert n == Q.Pow2(0);
    } else {
      forall k: nat
        ensures n != Q.Pow2(k)
      {
        OneOrEven(k);
      }
    }
  }
}
