/** The 64-bit words of an extended page table (Intel SDM volume 3, section 28.2)
    and the bit manipulation that packs and unpacks them. */
module EptEntries {
  type Word = bv64

  datatype Address = Address(bits: bv64)

  predicate Fits52(a: Address) { a.bits & 0xFFF0_0000_0000_0000 == 0 }

  /** A physical address has at most 52 bits. */
  type PhysAddr = a: Address | Fits52(a) witness Address(0)

  /** The declared flag bits: R, W, X (2:0), memory type (5:3 = 6), ignore-PAT (6). */
  predicate Declared(f: bv64) { f & 0xFFFF_FFFF_FFFF_FF88 == 0 }

  type Flags = f: bv64 | Declared(f) witness 0

  const ADDR_MASK: bv64 := 0x000F_FFFF_FFFF_F000
  const NON_LEAF_RWX: bv64 := 7
  /** Bits 47:12: the part of a guest address the four table indices depend on. */
  const PAGE_MASK: bv64 := 0x0000_FFFF_FFFF_F000
  const OFFSET_MASK: bv64 := 0xFFF

  predicate Present(entry: Word) { entry & 7 != 0 }

  /** At least one of read, write and execute. */
  predicate GrantsAccess(f: Flags) { f & 7 != 0 }

  predicate Aligned(a: PhysAddr) { a.bits & OFFSET_MASK == 0 }

  function AddrOf(entry: Word): PhysAddr { Address(entry & ADDR_MASK) }

  function TableEntry(pa: PhysAddr): Word { pa.bits | NON_LEAF_RWX }

  function LeafEntry(hpa: PhysAddr, flags: Flags): Word { (hpa.bits & ADDR_MASK) | flags }

  function PageOf(gpa: Address): PhysAddr { Address(gpa.bits & PAGE_MASK) }

  function AtOffset(page: PhysAddr, gpa: PhysAddr): PhysAddr {
    Address(page.bits | (gpa.bits & OFFSET_MASK))
  }

  /** A nine-bit table index as a position in a frame. */
  function AsIndex(w: bv64): (i: nat)
    requires w & 0x1FF == w
    ensures i < 512
  {
    (w as bv9) as nat
  }

  // The four nine-bit slices of a guest address.
  function Slice0(a: Address): (w: bv64) ensures w & 0x1FF == w { MaskNine(a.bits >> 12); (a.bits >> 12) & 0x1FF }
  function Slice1(a: Address): (w: bv64) ensures w & 0x1FF == w { MaskNine(a.bits >> 21); (a.bits >> 21) & 0x1FF }
  function Slice2(a: Address): (w: bv64) ensures w & 0x1FF == w { MaskNine(a.bits >> 30); (a.bits >> 30) & 0x1FF }
  function Slice3(a: Address): (w: bv64) ensures w & 0x1FF == w { MaskNine(a.bits >> 39); (a.bits >> 39) & 0x1FF }

  function Reassemble(s0: bv64, s1: bv64, s2: bv64, s3: bv64): bv64 {
    (s0 << 12) | (s1 << 21) | (s2 << 30) | (s3 << 39)
  }

  /** The indices in walk order, root table first. */
  function PathOf(gpa: Address): (path: seq<nat>)
    ensures |path| == 4
  {
    [AsIndex(Slice3(gpa)), AsIndex(Slice2(gpa)), AsIndex(Slice1(gpa)), AsIndex(Slice0(gpa))]
  }

  lemma PathInRange(gpa: Address)
    ensures forall k :: 0 <= k < 4 ==> PathOf(gpa)[k] < 512
  {
    hide AsIndex, Slice0, Slice1, Slice2, Slice3;
    var path := PathOf(gpa);
    assert path[0] < 512 && path[1] < 512 && path[2] < 512 && path[3] < 512;
  }

  lemma MaskNine(w: bv64)
    ensures (w & 0x1FF) & 0x1FF == w & 0x1FF
  {}

  lemma TableEntryRoundTrip(pa: PhysAddr)
    requires Aligned(pa)
    ensures Present(TableEntry(pa)) && AddrOf(TableEntry(pa)) == pa
  {}

  lemma RawLeaf(h: Word, f: Word)
    ensures ((h & ADDR_MASK) | f) & ADDR_MASK == (h & ADDR_MASK) | (f & ADDR_MASK)
    ensures ((h & ADDR_MASK) | f) & 7 == f & 7
  {}

  lemma RawAligned(h: Word)
    requires h & OFFSET_MASK == 0 && h & 0xFFF0_0000_0000_0000 == 0
    ensures h & ADDR_MASK == h
  {}

  lemma RawFlags(h: Word, f: Word)
    requires f & 0xFFFF_FFFF_FFFF_FF88 == 0
    ensures h | (f & ADDR_MASK) == h
  {}

  lemma LeafEntryRoundTrip(hpa: PhysAddr, flags: Flags)
    requires Aligned(hpa) && GrantsAccess(flags)
    ensures Present(LeafEntry(hpa, flags)) && AddrOf(LeafEntry(hpa, flags)) == hpa
  {
    assert Fits52(hpa) && Declared(flags);
    RawLeaf(hpa.bits, flags);
    RawAligned(hpa.bits);
    RawFlags(hpa.bits, flags);
  }

  lemma ZeroAbsent()
    ensures !Present(0)
  {}

  lemma AsIndexInjective(v: bv64, w: bv64)
    requires v & 0x1FF == v && w & 0x1FF == w
    ensures AsIndex(v) == AsIndex(w) <==> v == w
  {
    if AsIndex(v) == AsIndex(w) {
      assert v as bv9 == w as bv9;
    }
  }

  lemma RawSlices(a: bv64)
    ensures ((a >> 12) & 0x1FF) == (((a & PAGE_MASK) >> 12) & 0x1FF)
    ensures ((a >> 21) & 0x1FF) == (((a & PAGE_MASK) >> 21) & 0x1FF)
    ensures ((a >> 30) & 0x1FF) == (((a & PAGE_MASK) >> 30) & 0x1FF)
    ensures ((a >> 39) & 0x1FF) == (((a & PAGE_MASK) >> 39) & 0x1FF)
  {}

  lemma RawReassemble(a: bv64)
    ensures (((a >> 12) & 0x1FF) << 12) | (((a >> 21) & 0x1FF) << 21)
          | (((a >> 30) & 0x1FF) << 30) | (((a >> 39) & 0x1FF) << 39) == a & PAGE_MASK
  {}

  lemma SlicesOfPage(a: Address)
    ensures Slice0(a) == Slice0(PageOf(a)) && Slice1(a) == Slice1(PageOf(a))
    ensures Slice2(a) == Slice2(PageOf(a)) && Slice3(a) == Slice3(PageOf(a))
  { RawSlices(a.bits); }

  lemma PageFromSlices(a: Address)
    ensures Reassemble(Slice0(a), Slice1(a), Slice2(a), Slice3(a)) == PageOf(a).bits
  { RawReassemble(a.bits); }

  /** Two guest addresses take the same path exactly when bits 47:12 agree. */
  lemma PathIsPage(a: Address, b: Address)
    ensures PathOf(a) == PathOf(b) <==> PageOf(a) == PageOf(b)
  {
    hide AsIndex, PageOf, Slice0, Slice1, Slice2, Slice3, Reassemble;
    AsIndexInjective(Slice0(a), Slice0(b));
    AsIndexInjective(Slice1(a), Slice1(b));
    AsIndexInjective(Slice2(a), Slice2(b));
    AsIndexInjective(Slice3(a), Slice3(b));
    SlicesOfPage(a);
    SlicesOfPage(b);
    PageFromSlices(a);
    PageFromSlices(b);
    if PathOf(a) == PathOf(b) {
      assert PathOf(a)[0] == PathOf(b)[0] && PathOf(a)[1] == PathOf(b)[1];
      assert PathOf(a)[2] == PathOf(b)[2] && PathOf(a)[3] == PathOf(b)[3];
    }
  }

  lemma PathOfPage(gpa: Address)
    ensures PathOf(PageOf(gpa)) == PathOf(gpa)
  {
    assert (gpa.bits & PAGE_MASK) & PAGE_MASK == gpa.bits & PAGE_MASK;
    PathIsPage(PageOf(gpa), gpa);
    hide PathOf;
  }

  // ----- where the indices and the offset sit in an address ---------------------------------------

  /** Bits 47 down to 48 - 9k: what the first k indices are read from. */
  function TopMask(k: nat): bv64
    requires 1 <= k <= 4
  {
    if k == 1 then 0x0000_FF80_0000_0000
    else if k == 2 then 0x0000_FFFF_C000_0000
    else if k == 3 then 0x0000_FFFF_FFE0_0000
    else 0x0000_FFFF_FFFF_F000
  }

  lemma AsIndexValue(w: bv64)
    requires w & 0x1FF == w
    ensures AsIndex(w) == w as nat
  {}

  /** The index used at each level, root first, is the number in bits 47:39, 38:30, 29:21 and 20:12. */
  lemma IndicesFromTheTop(gpa: Address)
    ensures PathOf(gpa)[0] == ((gpa.bits >> 39) & 0x1FF) as nat && PathOf(gpa)[1] == ((gpa.bits >> 30) & 0x1FF) as nat
    ensures PathOf(gpa)[2] == ((gpa.bits >> 21) & 0x1FF) as nat && PathOf(gpa)[3] == ((gpa.bits >> 12) & 0x1FF) as nat
  {
    PathByParts(gpa);
    hide PathOf, AsIndex;
    MaskNine(gpa.bits >> 39);
    AsIndexValue((gpa.bits >> 39) & 0x1FF);
    MaskNine(gpa.bits >> 30);
    AsIndexValue((gpa.bits >> 30) & 0x1FF);
    MaskNine(gpa.bits >> 21);
    AsIndexValue((gpa.bits >> 21) & 0x1FF);
    MaskNine(gpa.bits >> 12);
    AsIndexValue((gpa.bits >> 12) & 0x1FF);
  }

  lemma PathByParts(gpa: Address)
    ensures var w3, w2, w1, w0 := (gpa.bits >> 39) & 0x1FF, (gpa.bits >> 30) & 0x1FF, (gpa.bits >> 21) & 0x1FF, (gpa.bits >> 12) & 0x1FF;
      && w3 & 0x1FF == w3 && w2 & 0x1FF == w2 && w1 & 0x1FF == w1 && w0 & 0x1FF == w0
      && PathOf(gpa) == [AsIndex(w3), AsIndex(w2), AsIndex(w1), AsIndex(w0)]
  {
    MaskNine(gpa.bits >> 39);
    MaskNine(gpa.bits >> 30);
    MaskNine(gpa.bits >> 21);
    MaskNine(gpa.bits >> 12);
    hide AsIndex;
  }

  /** The address with only its bits from 47 down to 48 - 9k. */
  function Top(gpa: Address, k: nat): Address
    requires 1 <= k <= 4
  {
    Address(gpa.bits & TopMask(k))
  }

  lemma RawTop1(a: bv64)
    ensures a & 0x0000_FF80_0000_0000 == ((a >> 39) & 0x1FF) << 39
    ensures ((a & 0x0000_FF80_0000_0000) >> 39) & 0x1FF == (a >> 39) & 0x1FF
  {}

  lemma RawTop2(a: bv64)
    ensures a & 0x0000_FFFF_C000_0000 == (((a >> 39) & 0x1FF) << 39) | (((a >> 30) & 0x1FF) << 30)
    ensures ((a & 0x0000_FFFF_C000_0000) >> 39) & 0x1FF == (a >> 39) & 0x1FF
    ensures ((a & 0x0000_FFFF_C000_0000) >> 30) & 0x1FF == (a >> 30) & 0x1FF
  {}

  lemma RawTop3(a: bv64)
    ensures a & 0x0000_FFFF_FFE0_0000 == (((a >> 39) & 0x1FF) << 39) | (((a >> 30) & 0x1FF) << 30) | (((a >> 21) & 0x1FF) << 21)
    ensures ((a & 0x0000_FFFF_FFE0_0000) >> 39) & 0x1FF == (a >> 39) & 0x1FF
    ensures ((a & 0x0000_FFFF_FFE0_0000) >> 30) & 0x1FF == (a >> 30) & 0x1FF
    ensures ((a & 0x0000_FFFF_FFE0_0000) >> 21) & 0x1FF == (a >> 21) & 0x1FF
  {}

  function Join1(s3: bv64): bv64 { s3 << 39 }
  function Join2(s3: bv64, s2: bv64): bv64 { (s3 << 39) | (s2 << 30) }
  function Join3(s3: bv64, s2: bv64, s1: bv64): bv64 { (s3 << 39) | (s2 << 30) | (s1 << 21) }

  lemma TopOf1(a: Address)
    ensures Top(a, 1).bits == Join1(Slice3(a))
  { RawTop1(a.bits); }

  lemma Top1Keeps3(a: Address)
    ensures Slice3(Top(a, 1)) == Slice3(a)
  { RawTop1(a.bits); }

  lemma TopOf2(a: Address)
    ensures Top(a, 2).bits == Join2(Slice3(a), Slice2(a))
  { RawTop2(a.bits); }

  lemma Top2Keeps3(a: Address)
    ensures Slice3(Top(a, 2)) == Slice3(a)
  { RawTop2(a.bits); }

  lemma Top2Keeps2(a: Address)
    ensures Slice2(Top(a, 2)) == Slice2(a)
  { RawTop2(a.bits); }

  lemma TopOf3(a: Address)
    ensures Top(a, 3).bits == Join3(Slice3(a), Slice2(a), Slice1(a))
  { RawTop3(a.bits); }

  lemma Top3Keeps3(a: Address)
    ensures Slice3(Top(a, 3)) == Slice3(a)
  { RawTop3(a.bits); }

  lemma Top3Keeps2(a: Address)
    ensures Slice2(Top(a, 3)) == Slice2(a)
  { RawTop3(a.bits); }

  lemma Top3Keeps1(a: Address)
    ensures Slice1(Top(a, 3)) == Slice1(a)
  { RawTop3(a.bits); }

  lemma TopsFromSlices(a: Address)
    ensures Top(a, 1).bits == Join1(Slice3(a)) && Top(a, 2).bits == Join2(Slice3(a), Slice2(a))
    ensures Top(a, 3).bits == Join3(Slice3(a), Slice2(a), Slice1(a)) && Top(a, 4) == PageOf(a)
  {
    assert Top(a, 4) == PageOf(a);
    hide *;
    TopOf1(a);
    TopOf2(a);
    TopOf3(a);
  }

  lemma SlicesOfTops(a: Address)
    ensures Slice3(Top(a, 1)) == Slice3(a)
    ensures Slice3(Top(a, 2)) == Slice3(a) && Slice2(Top(a, 2)) == Slice2(a)
    ensures Slice3(Top(a, 3)) == Slice3(a) && Slice2(Top(a, 3)) == Slice2(a) && Slice1(Top(a, 3)) == Slice1(a)
  {
    hide *;
    Top1Keeps3(a);
    Top2Keeps3(a);
    Top2Keeps2(a);
    Top3Keeps3(a);
    Top3Keeps2(a);
    Top3Keeps1(a);
  }

  /** Main result: two addresses share the tables down to depth k exactly when their bits from 47 down
      to 48 - 9k agree. */
  lemma SharedTables(a: Address, b: Address, k: nat)
    requires 1 <= k <= 4
    ensures PathOf(a)[..k] == PathOf(b)[..k] <==> Top(a, k) == Top(b, k)
  {
    hide AsIndex, PageOf, Slice0, Slice1, Slice2, Slice3, Top, Join1, Join2, Join3;
    AsIndexInjective(Slice1(a), Slice1(b));
    AsIndexInjective(Slice2(a), Slice2(b));
    AsIndexInjective(Slice3(a), Slice3(b));
    TopsFromSlices(a);
    TopsFromSlices(b);
    SlicesOfTops(a);
    SlicesOfTops(b);
    PathIsPage(a, b);
    FrontsAgree(PathOf(a), PathOf(b));
    assert PathOf(a)[..4] == PathOf(a) && PathOf(b)[..4] == PathOf(b);
  }

  lemma FrontsAgree(p: seq<nat>, q: seq<nat>)
    requires |p| == |q| == 4
    ensures p[..1] == q[..1] <==> p[0] == q[0]
    ensures p[..2] == q[..2] <==> p[0] == q[0] && p[1] == q[1]
    ensures p[..3] == q[..3] <==> p[0] == q[0] && p[1] == q[1] && p[2] == q[2]
  {
    assert p[..1] == [p[0]] && q[..1] == [q[0]];
    assert p[..2] == [p[0], p[1]] && q[..2] == [q[0], q[1]];
    assert p[..3] == [p[0], p[1], p[2]] && q[..3] == [q[0], q[1], q[2]];
  }

  /** A translated address has the bits of the guest address below 4096 and of the host page above. */
  lemma OffsetKept(page: PhysAddr, gpa: PhysAddr)
    requires Aligned(page)
    ensures AtOffset(page, gpa).bits & 0xFFF == gpa.bits & 0xFFF
    ensures AtOffset(page, gpa).bits & 0xFFFF_FFFF_FFFF_F000 == page.bits
  {
    RawOffset(page.bits, gpa.bits);
  }

  lemma RawOffset(p: bv64, g: bv64)
    requires p & 0xFFF == 0
    ensures (p | (g & 0xFFF)) & 0xFFF == g & 0xFFF && (p | (g & 0xFFF)) & 0xFFFF_FFFF_FFFF_F000 == p
  {}

  /** The low twelve bits of an entry: the flags of a leaf, and full access to a table. */
  lemma EntryFlags(hpa: PhysAddr, flags: Flags)
    requires Aligned(hpa)
    ensures LeafEntry(hpa, flags) & 0xFFF == flags && TableEntry(hpa) & 0xFFF == 7
  {
    assert Declared(flags);
    RawLeafFlags(hpa.bits, flags);
    RawTableFlags(hpa.bits);
    hide LeafEntry, TableEntry;
  }

  lemma RawLeafFlags(h: bv64, f: bv64)
    requires f & 0xFFFF_FFFF_FFFF_FF88 == 0
    ensures ((h & ADDR_MASK) | f) & 0xFFF == f
  {
    assert (h & ADDR_MASK) & 0xFFF == 0;
    assert f & 0xFFF == f;
  }

  lemma RawTableFlags(h: bv64)
    requires h & 0xFFF == 0
    ensures (h | 7) & 0xFFF == 7
  {}
}
