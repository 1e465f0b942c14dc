/** CRC-32C (Castagnoli) as the image tools, the mesh and the kernel compute it: a
    reflected 32-bit register with polynomial 0x82F63B78, fed one byte at a time.

    Three copies of the loop exist in the system; all are proved against Digest.
    The main result is Digest's error detection: equally long inputs whose
    differences fit in 32 consecutive bits never share a digest. */
module Crc32c {
  type Byte = bv8

  const POLYNOMIAL: bv32 := 0x82F6_3B78
  const ALL_ONES: bv32 := 0xFFFF_FFFF

  // Named word operations. Proofs hide their bodies and use the identities below,
  // so that no query mixes bit-blasting with induction.
  function Xor(a: bv32, b: bv32): bv32 { a ^ b }
  function Half(a: bv32): bv32 { a >> 1 }
  function Double(a: bv32): bv32 { a << 1 }
  predicate Odd(a: bv32) { a & 1 != 0 }
  predicate TopClear(a: bv32) { a & 0x8000_0000 == 0 }
  function Bit(b: bool): bv32 { if b then 1 else 0 }

  function Step(s: bv32): bv32 {
    if Odd(s) then Xor(Half(s), POLYNOMIAL) else Half(s)
  }

  function Steps(n: nat, s: bv32): bv32 {
    if n == 0 then s else Steps(n - 1, Step(s))
  }

  function Feed(s: bv32, b: Byte): bv32 {
    Steps(8, Xor(s, b as bv32))
  }

  function Continue(s: bv32, data: seq<Byte>): bv32
    decreases |data|
  {
    if data == [] then s else Continue(Feed(s, data[0]), data[1..])
  }

  function Digest(data: seq<Byte>): bv32 {
    Xor(Continue(ALL_ONES, data), ALL_ONES)
  }

  // ----- the loops of the source ----------------------------------------

  method ContinueLoop(start: bv32, data: seq<Byte>) returns (state: bv32)
    ensures state == Continue(start, data)
  {
    state := start;
    for k := 0 to |data|
      invariant Continue(start, data) == Continue(state, data[k..])
    {
      ghost var before := state;
      state := state ^ (data[k] as bv32);
      var i := 0;
      while i < 8
        invariant 0 <= i <= 8
        invariant Feed(before, data[k]) == Steps(8 - i, state)
      {
        state := if state & 1 != 0 then (state >> 1) ^ POLYNOMIAL else state >> 1;
        i := i + 1;
      }
      assert data[k..][1..] == data[k + 1..];
    }
  }

  method Checksum(data: seq<Byte>) returns (crc: bv32)
    ensures crc == Digest(data)
  {
    var state := ContinueLoop(ALL_ONES, data);
    crc := state ^ ALL_ONES;
  }

  /** Streaming: feeding may be cut anywhere. */
  lemma {:induction false} ContinueConcat(s: bv32, a: seq<Byte>, b: seq<Byte>)
    ensures Continue(s, a + b) == Continue(Continue(s, a), b)
    decreases |a|
  {
    hide Feed;
    if a == [] {
      assert a + b == b;
    } else {
      assert (a + b)[1..] == a[1..] + b;
      ContinueConcat(Feed(s, a[0]), a[1..], b);
    }
  }

  // ----- word identities --------------------------------------------------

  lemma RawAssoc(a: bv32, b: bv32, c: bv32)
    ensures (a ^ b) ^ c == a ^ (b ^ c)
  {}

  lemma RawHalfXor(a: bv32, b: bv32)
    ensures (a ^ b) >> 1 == (a >> 1) ^ (b >> 1)
  {}

  lemma XorAssoc(a: bv32, b: bv32, c: bv32)
    ensures Xor(Xor(a, b), c) == Xor(a, Xor(b, c))
  { RawAssoc(a, b, c); }

  lemma XorComm(a: bv32, b: bv32)
    ensures Xor(a, b) == Xor(b, a)
  {}

  lemma XorSelf(a: bv32)
    ensures Xor(a, a) == 0 && Xor(a, 0) == a && Xor(0, a) == a
  {}

  lemma HalfXor(a: bv32, b: bv32)
    ensures Half(Xor(a, b)) == Xor(Half(a), Half(b))
  { RawHalfXor(a, b); }

  lemma OddXor(a: bv32, b: bv32)
    ensures Odd(Xor(a, b)) == (Odd(a) != Odd(b))
  {}

  lemma BitFacts(b: bool)
    ensures Odd(Bit(b)) == b && Half(Bit(b)) == 0
  {}

  lemma DoubleFacts(a: bv32)
    ensures !Odd(Double(a)) && (TopClear(a) ==> Half(Double(a)) == a)
  {}

  lemma XorCancel(a: bv32, b: bv32)
    ensures Xor(Xor(a, b), b) == a
  {
    XorAssoc(a, b, b);
    XorSelf(b);
    XorSelf(a);
    hide *;
  }

  lemma XorInterchange(a: bv32, b: bv32, c: bv32, d: bv32)
    ensures Xor(Xor(a, b), Xor(c, d)) == Xor(Xor(a, c), Xor(b, d))
  {
    hide *;
    calc {
      Xor(Xor(a, b), Xor(c, d));
      { XorAssoc(a, b, Xor(c, d)); }
      Xor(a, Xor(b, Xor(c, d)));
      { XorAssoc(b, c, d); XorComm(b, c); XorAssoc(c, b, d); }
      Xor(a, Xor(c, Xor(b, d)));
      { XorAssoc(a, c, Xor(b, d)); }
      Xor(Xor(a, c), Xor(b, d));
    }
  }

  lemma StepLinear(a: bv32, b: bv32)
    ensures Step(Xor(a, b)) == Xor(Step(a), Step(b))
  {
    hide Xor, Half, Odd;
    HalfXor(a, b);
    OddXor(a, b);
    var x, y, p := Half(a), Half(b), POLYNOMIAL;
    XorInterchange(x, p, y, p);
    XorInterchange(x, p, y, 0);
    XorInterchange(x, 0, y, p);
    XorSelf(p);
    XorSelf(x);
    XorSelf(y);
    XorSelf(Xor(x, y));
  }

  /** The polynomial's top bit records which branch a step took, so a step can be
      undone; when the result's top bit is clear the undoing is a doubling. */
  lemma Unstep(x: bv32)
    requires TopClear(Step(x))
    ensures x == Double(Step(x))
  {}

  // ----- the register one bit at a time -----------------------------------

  function FeedBits(s: bv32, bits: seq<bool>): bv32
    decreases |bits|
  {
    if bits == [] then s else FeedBits(Step(Xor(s, Bit(bits[0]))), bits[1..])
  }

  lemma {:induction false} FeedBitsConcat(s: bv32, a: seq<bool>, b: seq<bool>)
    ensures FeedBits(s, a + b) == FeedBits(FeedBits(s, a), b)
    decreases |a|
  {
    hide Step, Xor;
    if a == [] {
      assert a + b == b;
    } else {
      assert (a + b)[1..] == a[1..] + b;
      FeedBitsConcat(Step(Xor(s, Bit(a[0]))), a[1..], b);
    }
  }

  /** The n lowest bits of a word, lowest first, and the word without them. */
  function LowBits(n: nat, w: bv32): (bits: seq<bool>)
    ensures |bits| == n
  {
    if n == 0 then [] else [Odd(w)] + LowBits(n - 1, Half(w))
  }

  function Above(n: nat, w: bv32): bv32 {
    if n == 0 then w else Above(n - 1, Half(w))
  }

  function ByteBits(b: Byte): (bits: seq<bool>)
    ensures |bits| == 8
  {
    LowBits(8, b as bv32)
  }

  function Bits(data: seq<Byte>): (bits: seq<bool>)
    ensures |bits| == 8 * |data|
  {
    if data == [] then [] else ByteBits(data[0]) + Bits(data[1..])
  }

  lemma HalfOdd(a: bv32, b: bv32)
    requires Half(a) == Half(b) && Odd(a) == Odd(b)
    ensures a == b
  {}

  lemma {:induction false} LowBitsInjective(n: nat, v: bv32, w: bv32)
    requires LowBits(n, v) == LowBits(n, w) && Above(n, v) == Above(n, w)
    ensures v == w
  {
    hide Half, Odd;
    if n > 0 {
      assert LowBits(n, v)[0] == LowBits(n, w)[0];
      assert LowBits(n, v)[1..] == LowBits(n - 1, Half(v)) == LowBits(n - 1, Half(w));
      LowBitsInjective(n - 1, Half(v), Half(w));
      HalfOdd(v, w);
    }
  }

  lemma RawHalfFour(w: bv32)
    ensures (((w >> 1) >> 1) >> 1) >> 1 == w >> 4
  {}

  lemma HalfFour(w: bv32)
    ensures Half(Half(Half(Half(w)))) == w >> 4
  { RawHalfFour(w); }

  lemma ByteAbove(b: Byte)
    ensures Above(8, b as bv32) == 0
  {
    var w := b as bv32;
    assert (w >> 4) >> 4 == 0;
    HalfFour(w);
    HalfFour(w >> 4);
    hide Half;
    var v := w >> 4;
    assert Above(8, w) == Above(6, Half(Half(w))) == Above(4, v);
    assert Above(4, v) == Above(2, Half(Half(v))) == Above(0, v >> 4);
  }

  lemma {:induction false} BitsInjective(a: seq<Byte>, b: seq<Byte>)
    requires Bits(a) == Bits(b)
    ensures a == b
  {
    hide Above, LowBits;
    assert |Bits(a)| == 8 * |a| && |Bits(b)| == 8 * |b|;
    if a != [] {
      assert ByteBits(a[0]) == Bits(a)[..8] == Bits(b)[..8] == ByteBits(b[0]);
      ByteAbove(a[0]);
      ByteAbove(b[0]);
      LowBitsInjective(8, a[0] as bv32, b[0] as bv32);
      assert Bits(a[1..]) == Bits(a)[8..] == Bits(b)[8..] == Bits(b[1..]);
      BitsInjective(a[1..], b[1..]);
    }
  }

  lemma StepPeel(s: bv32, w: bv32)
    ensures Step(Xor(s, w)) == Xor(Step(Xor(s, Bit(Odd(w)))), Half(w))
  {
    hide Xor, Half, Odd, Bit;
    var low := Bit(Odd(w));
    BitFacts(Odd(w));
    var high := Xor(w, low);
    OddXor(w, low);
    HalfXor(w, low);
    XorSelf(Half(w));
    assert Step(high) == Half(w);
    calc {
      Xor(s, w);
      { XorCancel(w, low); XorComm(high, low); }
      Xor(s, Xor(low, high));
      { XorAssoc(s, low, high); }
      Xor(Xor(s, low), high);
    }
    StepLinear(Xor(s, low), high);
  }

  lemma {:induction false} StepsAreFeedBits(n: nat, s: bv32, w: bv32)
    ensures Steps(n, Xor(s, w)) == Xor(FeedBits(s, LowBits(n, w)), Above(n, w))
  {
    hide Xor, Half, Odd, Bit, Step;
    if n > 0 {
      StepPeel(s, w);
      StepsAreFeedBits(n - 1, Step(Xor(s, Bit(Odd(w)))), Half(w));
      assert LowBits(n, w)[1..] == LowBits(n - 1, Half(w));
    }
  }

  lemma {:induction false} ContinueIsFeedBits(s: bv32, data: seq<Byte>)
    ensures Continue(s, data) == FeedBits(s, Bits(data))
    decreases |data|
  {
    hide Xor, Step, Above, LowBits, FeedBits, Steps;
    if data == [] {
      assert FeedBits(s, []) == s by { FeedBitsNil(s); }
    } else {
      var w := data[0] as bv32;
      StepsAreFeedBits(8, s, w);
      ByteAbove(data[0]);
      XorSelf(FeedBits(s, LowBits(8, w)));
      ContinueIsFeedBits(Feed(s, data[0]), data[1..]);
      FeedBitsConcat(s, ByteBits(data[0]), Bits(data[1..]));
    }
  }

  lemma FeedBitsNil(s: bv32)
    ensures FeedBits(s, []) == s
  {}

  lemma FourSteps(n: nat, s: bv32)
    ensures Steps(n + 4, s) == Steps(n, Step(Step(Step(Step(s)))))
  {
    hide Step;
    assert Steps(n + 4, s) == Steps(n + 3, Step(s));
    assert Steps(n + 3, Step(s)) == Steps(n + 2, Step(Step(s)));
    assert Steps(n + 2, Step(Step(s))) == Steps(n + 1, Step(Step(Step(s))));
  }

  lemma EightSteps(s: bv32)
    ensures Steps(8, s) == Step(Step(Step(Step(Step(Step(Step(Step(s))))))))
  {
    hide Step;
    FourSteps(4, s);
    FourSteps(0, Step(Step(Step(Step(s)))));
  }

  // ----- error patterns ----------------------------------------------------

  function Differences(a: seq<bool>, b: seq<bool>): (e: seq<bool>)
    requires |a| == |b|
    ensures |e| == |a|
    ensures forall i :: 0 <= i < |a| ==> e[i] == (a[i] != b[i])
  {
    seq(|a|, i requires 0 <= i < |a| => a[i] != b[i])
  }

  /** Two runs differ by a run over their differences. */
  lemma {:induction false} FeedBitsLinear(s: bv32, t: bv32, a: seq<bool>, b: seq<bool>)
    requires |a| == |b|
    ensures Xor(FeedBits(s, a), FeedBits(t, b)) == FeedBits(Xor(s, t), Differences(a, b))
    decreases |a|
  {
    hide Xor, Step, Bit;
    if a != [] {
      var x, y := Bit(a[0]), Bit(b[0]);
      var e := Differences(a, b);
      assert Bit(e[0]) == Xor(x, y) by { BitXor(a[0], b[0]); }
      XorInterchange(s, x, t, y);
      StepLinear(Xor(s, x), Xor(t, y));
      FeedBitsLinear(Step(Xor(s, x)), Step(Xor(t, y)), a[1..], b[1..]);
      assert e[1..] == Differences(a[1..], b[1..]);
    }
  }

  lemma BitXor(a: bool, b: bool)
    ensures Bit(a != b) == Xor(Bit(a), Bit(b))
  {}

  /** The word whose bits, lowest first, are the given ones. */
  function Pack(bits: seq<bool>): bv32 {
    if bits == [] then 0 else Xor(Bit(bits[0]), Double(Pack(bits[1..])))
  }

  /** A word that survives k doublings without losing a bit. */
  predicate Fits(k: nat, w: bv32) {
    k > 0 ==> TopClear(w) && Fits(k - 1, Double(w))
  }

  lemma DoubleXor(a: bv32, b: bv32)
    ensures Double(Xor(a, b)) == Xor(Double(a), Double(b))
    ensures TopClear(a) && TopClear(b) ==> TopClear(Xor(a, b))
  {
    assert (a ^ b) << 1 == (a << 1) ^ (b << 1);
  }

  lemma {:induction false} FitsXor(k: nat, a: bv32, b: bv32)
    requires Fits(k, a) && Fits(k, b)
    ensures Fits(k, Xor(a, b))
  {
    hide Xor, Double, TopClear;
    if k > 0 {
      DoubleXor(a, b);
      FitsXor(k - 1, Double(a), Double(b));
    }
  }

  lemma {:induction false} FitsFewer(j: nat, k: nat, w: bv32)
    requires j <= k && Fits(k, w)
    ensures Fits(j, w)
  {
    hide Double, TopClear;
    if j > 0 {
      FitsFewer(j - 1, k - 1, Double(w));
    }
  }

  lemma {:induction false} FitsZero(k: nat)
    ensures Fits(k, 0)
  {
    if k > 0 {
      FitsZero(k - 1);
    }
  }

  lemma RawShifts(w: bv32)
    requires w & 0xF000_0000 == 0
    ensures w & 0xC000_0000 == 0 && (w << 2) & 0xC000_0000 == 0
    ensures (w << 2) << 2 == w << 4
  {}

  lemma DoubleTwo(w: bv32)
    requires w & 0xC000_0000 == 0
    ensures Double(Double(w)) == w << 2
    ensures TopClear(w) && TopClear(Double(w))
  {}

  lemma FitsFour(k: nat, w: bv32)
    requires w & 0xF000_0000 == 0 && Fits(k, w << 4)
    ensures Fits(k + 4, w)
  {
    hide Double, TopClear;
    RawShifts(w);
    DoubleTwo(w);
    DoubleTwo(w << 2);
    assert Fits(k + 2, w << 2);
  }

  lemma FitsBit(b: bool)
    ensures Fits(31, Bit(b))
  {
    FitsZero(31);
    assert Fits(2, 0x2000_0000);
    assert Fits(3, 0x1000_0000);
    FitsFour(3, 0x0100_0000);
    FitsFour(7, 0x0010_0000);
    FitsFour(11, 0x0001_0000);
    FitsFour(15, 0x1000);
    FitsFour(19, 0x100);
    FitsFour(23, 0x10);
    FitsFour(27, 0x1);
  }

  lemma {:induction false} PackFits(bits: seq<bool>)
    requires |bits| <= 32
    ensures Fits(32 - |bits|, Pack(bits))
  {
    hide Xor, Double, TopClear, Bit;
    if bits == [] {
      FitsZero(32);
    } else {
      var k := 32 - |bits|;
      PackFits(bits[1..]);
      FitsBit(bits[0]);
      FitsFewer(k, 31, Bit(bits[0]));
      FitsXor(k, Bit(bits[0]), Double(Pack(bits[1..])));
    }
  }

  /** Run backwards: up to 32 error bits that cancel out leave no choice for the
      register they started from. */
  lemma {:induction false} CancelledRunStart(d: bv32, e: seq<bool>)
    requires |e| <= 32 && FeedBits(d, e) == 0
    ensures d == Pack(e)
    decreases |e|
  {
    hide Xor, Double, TopClear, Bit, Step;
    if e != [] {
      var x := Xor(d, Bit(e[0]));
      CancelledRunStart(Step(x), e[1..]);
      PackFits(e[1..]);
      assert TopClear(Step(x));
      Unstep(x);
      XorCancel(d, Bit(e[0]));
      XorComm(x, Bit(e[0]));
    }
  }

  lemma {:induction false} PackZero(bits: seq<bool>)
    requires |bits| <= 32 && Pack(bits) == 0
    ensures forall i :: 0 <= i < |bits| ==> !bits[i]
  {
    hide Xor, Double, TopClear, Bit, Half, Odd;
    if bits != [] {
      var p := Pack(bits[1..]);
      PackFits(bits[1..]);
      assert TopClear(p);
      BitFacts(bits[0]);
      DoubleFacts(p);
      OddXor(Bit(bits[0]), Double(p));
      HalfXor(Bit(bits[0]), Double(p));
      XorSelf(p);
      assert Odd(0) == false && Half(0) == 0 by { ZeroFacts(); }
      PackZero(bits[1..]);
      assert forall i :: 0 < i < |bits| ==> bits[i] == bits[1..][i - 1];
    }
  }

  lemma ZeroFacts()
    ensures !Odd(0) && Half(0) == 0 && TopClear(0) && Double(0) == 0
  {}

  /** Feeding the same bits keeps different registers different. */
  lemma {:induction false} FeedBitsInjective(s: bv32, t: bv32, bits: seq<bool>)
    requires FeedBits(s, bits) == FeedBits(t, bits)
    ensures s == t
    decreases |bits|
  {
    hide Xor, Bit, Step, Double, TopClear;
    if bits != [] {
      var b := Bit(bits[0]);
      var x, y := Xor(s, b), Xor(t, b);
      FeedBitsInjective(Step(x), Step(y), bits[1..]);
      StepLinear(x, y);
      XorSelf(Step(y));
      ZeroFacts();
      Unstep(Xor(x, y));
      XorCancel(x, y);
      XorSelf(y);
      XorCancel(s, b);
      XorCancel(t, b);
    }
  }

  /** The two bit strings agree outside [p, p + 32). */
  ghost predicate AgreeOutsideBurst(a: seq<bool>, b: seq<bool>, p: nat) {
    && |a| == |b|
    && forall i :: 0 <= i < |a| && !(p <= i < p + 32) ==> a[i] == b[i]
  }

  lemma BurstCollision(s: bv32, a: seq<bool>, b: seq<bool>, p: nat)
    requires AgreeOutsideBurst(a, b, p) && p <= |a|
    requires FeedBits(s, a) == FeedBits(s, b)
    ensures a == b
  {
    hide Xor, FeedBits, Pack, Differences;
    var q := if p + 32 <= |a| then p + 32 else |a|;
    var pre, suf := a[..p], a[q..];
    var u, v := a[p..q], b[p..q];
    ThreeParts(a, p, q);
    ThreeParts(b, p, q);
    assert b[..p] == pre && b[q..] == suf;
    var m := FeedBits(s, pre);
    FeedBitsConcat(s, pre, u + suf);
    FeedBitsConcat(s, pre, v + suf);
    FeedBitsConcat(m, u, suf);
    FeedBitsConcat(m, v, suf);
    FeedBitsInjective(FeedBits(m, u), FeedBits(m, v), suf);
    FeedBitsLinear(m, m, u, v);
    XorSelf(m);
    XorSelf(FeedBits(m, u));
    var e := Differences(u, v);
    CancelledRunStart(0, e);
    PackZero(e);
    assert forall i :: 0 <= i < |u| ==> e[i] == (u[i] != v[i]);
    assert u == v;
  }

  lemma ThreeParts(a: seq<bool>, p: nat, q: nat)
    requires p <= q <= |a|
    ensures a == a[..p] + (a[p..q] + a[q..])
  {}

  /** Every burst of up to 32 bits is detected, wherever it starts. */
  lemma BurstsAreDetected(a: seq<Byte>, b: seq<Byte>, p: nat)
    requires |a| == |b| && a != b
    requires AgreeOutsideBurst(Bits(a), Bits(b), p)
    ensures Digest(a) != Digest(b)
  {
    hide Xor, Continue, FeedBits, Bits;
    if Digest(a) == Digest(b) {
      XorCancel(Continue(ALL_ONES, a), ALL_ONES);
      XorCancel(Continue(ALL_ONES, b), ALL_ONES);
      ContinueIsFeedBits(ALL_ONES, a);
      ContinueIsFeedBits(ALL_ONES, b);
      var n := |Bits(a)|;
      if p <= n {
        BurstCollision(ALL_ONES, Bits(a), Bits(b), p);
      } else {
        assert Bits(a) == Bits(b);
      }
      BitsInjective(a, b);
    }
  }

  lemma {:induction false} BitsOfByte(data: seq<Byte>, k: nat, j: nat)
    requires k < |data| && j < 8
    ensures Bits(data)[8 * k + j] == ByteBits(data[k])[j]
  {
    hide LowBits, ByteBits;
    if k > 0 {
      BitsOfByte(data[1..], k - 1, j);
    }
  }

  /** Byte form: a change confined to four consecutive bytes is detected. */
  lemma FourByteWindowsAreDetected(a: seq<Byte>, b: seq<Byte>, at: nat)
    requires |a| == |b| && a != b
    requires forall i :: 0 <= i < |a| && !(at <= i < at + 4) ==> a[i] == b[i]
    ensures Digest(a) != Digest(b)
  {
    hide Digest, Bits, ByteBits;
    forall i | 0 <= i < 8 * |a| && !(8 * at <= i < 8 * at + 32)
      ensures Bits(a)[i] == Bits(b)[i]
    {
      BitsOfByte(a, i / 8, i % 8);
      BitsOfByte(b, i / 8, i % 8);
    }
    BurstsAreDetected(a, b, 8 * at);
  }
}
