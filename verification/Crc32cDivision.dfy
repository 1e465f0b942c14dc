/** What CRC-32C decides: two inputs, of whatever lengths, share a digest exactly when the bit
    pattern by which they differ is a multiple of the generator polynomial. Polynomials are bit
    strings, highest coefficient first, which is the order in which bits are fed. */
module Crc32cDivision {
  import opened Crc32c

  /** The generator, 0x1_1EDC_6F41 in the usual notation (RFC 3720 section 12.1): its leading
      coefficient and then the others, which the polynomial word holds in reflected order. */
  function Generator(): (g: seq<bool>)
    ensures |g| == 33 && g[0]
  {
    [true] + LowBits(32, POLYNOMIAL)
  }

  function Zeros(n: nat): (z: seq<bool>)
    ensures |z| == n && forall i :: 0 <= i < n ==> !z[i]
  {
    if n == 0 then [] else [false] + Zeros(n - 1)
  }

  /** One step of long division: the leading coefficient goes. */
  function Reduce(e: seq<bool>): (r: seq<bool>)
    requires |e| > 32
    ensures |r| == |e| - 1
  {
    if e[0] then Differences(e[1..33], Generator()[1..]) + e[33..] else e[1..]
  }

  /** Long division by the generator leaves no remainder. */
  predicate Divisible(e: seq<bool>)
    decreases |e|
  {
    if |e| <= 32 then forall i :: 0 <= i < |e| ==> !e[i] else Divisible(Reduce(e))
  }

  /** The generator times the leading term of q. */
  function Leading(q: seq<bool>): (e: seq<bool>)
    requires q != []
    ensures |e| == |q| + 32
    ensures forall i :: 0 <= i < |e| ==> e[i] == (q[0] && i <= 32 && Generator()[i])
  {
    hide Generator;
    if q[0] then Generator() + Zeros(|q| - 1) else Zeros(|q| + 32)
  }

  /** The generator times a polynomial: a sum of shifted copies. */
  function Times(q: seq<bool>): (e: seq<bool>)
    ensures |e| == |q| + 32
  {
    if q == [] then Zeros(32)
    else Differences(Leading(q), [false] + Times(q[1..]))
  }

  // ----- long division finds the multiples -----------------------------------------------------

  lemma {:induction false} TimesDivides(q: seq<bool>)
    ensures Divisible(Times(q))
  {
    if q == [] {
      hide Generator, Reduce;
    } else {
      TimesDivides(q[1..]);
      ReduceTimes(q);
      hide Times, Generator, Reduce;
    }
  }

  /** Coefficient by coefficient. */
  lemma TimesAt(q: seq<bool>)
    requires q != []
    ensures var e, rest := Times(q), Times(q[1..]);
      && e[0] == q[0]
      && forall i :: 1 <= i < |e| ==> e[i] == (rest[i - 1] != (q[0] && i <= 32 && Generator()[i]))
  {
    hide Generator, Leading, Differences;
    var t := [false] + Times(q[1..]);
    assert Times(q) == Differences(Leading(q), t);
    hide Times;
    forall i | 1 <= i < |t|
      ensures Times(q)[i] == (Times(q[1..])[i - 1] != (q[0] && i <= 32 && Generator()[i]))
    {
      assert t[i] == Times(q[1..])[i - 1];
    }
  }

  lemma ReduceTimes(q: seq<bool>)
    requires q != []
    ensures Reduce(Times(q)) == Times(q[1..])
  {
    hide Generator, Times, Reduce;
    TimesAt(q);
    var e, rest := Times(q), Times(q[1..]);
    ReduceShape(e);
    var r := Reduce(e);
    forall i | 0 <= i < |rest|
      ensures r[i] == rest[i]
    {
      var j := i + 1;
      assert e[j] == (rest[j - 1] != (q[0] && j <= 32 && Generator()[j]));
      assert e[0] ==> r[j - 1] == (if j <= 32 then e[j] != Generator()[j] else e[j]);
    }
    assert r == rest;
  }

  lemma {:induction false} DividedIsTimes(e: seq<bool>) returns (q: seq<bool>)
    requires Divisible(e) && |e| >= 32
    ensures e == Times(q)
    decreases |e|
  {
    if |e| == 32 {
      q := [];
      assert e == Zeros(32);
    } else {
      var rest := DividedIsTimes(Reduce(e));
      hide Times, Reduce, Divisible;
      q := [e[0]] + rest;
      OneTerm(e, rest);
    }
  }

  lemma OneTerm(e: seq<bool>, rest: seq<bool>)
    requires |e| > 32 && Reduce(e) == Times(rest)
    ensures e == Times([e[0]] + rest)
  {
    hide Generator, Reduce, Times;
    var q := [e[0]] + rest;
    assert q[1..] == rest;
    TimesAt(q);
    ReduceShape(e);
    var t, r := Times(q), Reduce(e);
    forall i | 1 <= i < |e|
      ensures t[i] == e[i]
    {
      assert t[i] == (r[i - 1] != (e[0] && i <= 32 && Generator()[i]));
      assert !e[0] ==> r[i - 1] == e[1..][i - 1] == e[i];
    }
  }

  /** Long division leaves no remainder exactly on the multiples of the generator. */
  lemma DivisibleIsMultiple(e: seq<bool>)
    requires |e| >= 32
    ensures Divisible(e) <==> exists q :: e == Times(q)
  {
    if Divisible(e) {
      var q := DividedIsTimes(e);
    }
    forall q | e == Times(q)
      ensures Divisible(e)
    {
      TimesDivides(q);
    }
  }

  // ----- the register computes the remainder -------------------------------------------------------

  lemma {:induction false} FeedZeros(n: nat)
    ensures FeedBits(0, Zeros(n)) == 0
  {
    if n > 0 {
      assert Step(Xor(0, Bit(false))) == 0;
      assert Zeros(n)[1..] == Zeros(n - 1);
      FeedZeros(n - 1);
    }
  }

  lemma {:induction false} StepsOfZero(n: nat)
    ensures Steps(n, 0) == 0
  {
    if n > 0 {
      assert Step(0) == 0;
      StepsOfZero(n - 1);
    }
  }

  function ByteUp(w: bv32): bv32 { w >> 8 }

  lemma AboveWord(w: bv32)
    ensures Above(32, w) == 0
  {
    FourBytes(w);
    hide Above, ByteUp;
    var x := ByteUp(w);
    var y := ByteUp(x);
    var z := ByteUp(y);
    AboveEight(24, w);
    AboveEight(16, x);
    AboveEight(8, y);
    AboveEight(0, z);
    AboveNothing(ByteUp(z));
  }

  lemma FourBytes(w: bv32)
    ensures ByteUp(ByteUp(ByteUp(ByteUp(w)))) == 0
  {}

  lemma AboveNothing(w: bv32)
    ensures Above(0, w) == w
  {}

  lemma AboveEight(n: nat, w: bv32)
    ensures Above(n + 8, w) == Above(n, ByteUp(w))
  {
    hide Half, Above;
    HalfFour(w);
    HalfFour(w >> 4);
    TwoNibbles(w);
    AboveFour(n + 4, w);
    AboveFour(n, w >> 4);
  }

  lemma TwoNibbles(w: bv32)
    ensures (w >> 4) >> 4 == w >> 8
  {}

  lemma AboveFour(n: nat, w: bv32)
    ensures Above(n + 4, w) == Above(n, Half(Half(Half(Half(w)))))
  {
    hide Half;
    assert Above(n + 4, w) == Above(n + 3, Half(w));
    assert Above(n + 3, Half(w)) == Above(n + 2, Half(Half(w)));
    assert Above(n + 2, Half(Half(w))) == Above(n + 1, Half(Half(Half(w))));
  }

  /** Shifting a word out of the register by its own bits. */
  lemma ShiftOut(w: bv32)
    ensures FeedBits(w, LowBits(32, w)) == 0
  {
    StepsAreFeedBits(32, w, w);
    XorSelf(w);
    StepsOfZero(32);
    AboveWord(w);
    XorSelf(FeedBits(w, LowBits(32, w)));
    hide *;
  }

  lemma GeneratorVanishes()
    ensures FeedBits(0, Generator()) == 0
  {
    assert Step(Xor(0, Bit(true))) == POLYNOMIAL;
    hide Step, Xor, Bit, LowBits, FeedBits;
    ShiftOut(POLYNOMIAL);
    GeneratorTail();
    FeedOne(0, Generator());
  }

  lemma FeedOne(s: bv32, bits: seq<bool>)
    requires bits != []
    ensures FeedBits(s, bits) == FeedBits(Step(Xor(s, Bit(bits[0]))), bits[1..])
  {}

  lemma ReduceKeeps(e: seq<bool>)
    requires |e| > 32
    ensures FeedBits(0, e) == FeedBits(0, Reduce(e))
  {
    assert Step(Xor(0, Bit(false))) == 0;
    hide Step, Xor, Bit, FeedBits, Reduce, Generator, Zeros;
    if e[0] {
      var g := Generator() + Zeros(|e| - 33);
      FeedBitsConcat(0, Generator(), Zeros(|e| - 33));
      GeneratorVanishes();
      FeedZeros(|e| - 33);
      FeedBitsLinear(0, 0, e, g);
      XorSelf(0);
      XorSelf(FeedBits(0, e));
      var d := Differences(e, g);
      FeedOne(0, d);
      ReducedTail(e, g);
    } else {
      FeedOne(0, e);
      ReduceShape(e);
    }
  }

  lemma ReduceShape(e: seq<bool>)
    requires |e| > 32
    ensures !e[0] ==> Reduce(e) == e[1..]
    ensures e[0] ==> forall i :: 1 <= i < |e| ==> Reduce(e)[i - 1] == (if i <= 32 then e[i] != Generator()[i] else e[i])
  {
    hide Generator;
  }

  lemma ReducedTail(e: seq<bool>, g: seq<bool>)
    requires |e| > 32 && e[0] && g == Generator() + Zeros(|e| - 33)
    ensures !Differences(e, g)[0] && Differences(e, g)[1..] == Reduce(e)
  {
    hide Generator, Reduce, Zeros;
    ReduceShape(e);
    var d, r := Differences(e, g), Reduce(e);
    assert forall i :: 1 <= i < |e| ==> d[i] == r[i - 1];
    assert d[1..] == r;
  }

  /** The register is clear exactly when nothing remains of the pattern. */
  lemma {:induction false} ClearExactly(e: seq<bool>)
    ensures FeedBits(0, e) == 0 <==> Divisible(e)
    decreases |e|
  {
    hide Step, Xor, Bit, FeedBits, Reduce;
    if |e| > 32 {
      ReduceKeeps(e);
      ClearExactly(Reduce(e));
    } else {
      if FeedBits(0, e) == 0 {
        CancelledRunStart(0, e);
        PackZero(e);
      }
      if Divisible(e) {
        assert e == Zeros(|e|);
        FeedZeros(|e|);
      }
    }
  }

  // ----- digests --------------------------------------------------------------------------------------

  /** The pattern by which two equally long inputs differ. */
  function Change(a: seq<Byte>, b: seq<Byte>): seq<bool>
    requires |a| == |b|
  {
    Differences(Bits(a), Bits(b))
  }

  lemma SameRegister(a: seq<Byte>, b: seq<Byte>)
    ensures Digest(a) == Digest(b) <==> FeedBits(ALL_ONES, Bits(a)) == FeedBits(ALL_ONES, Bits(b))
  {
    hide Xor, Continue, FeedBits, Bits;
    ContinueIsFeedBits(ALL_ONES, a);
    ContinueIsFeedBits(ALL_ONES, b);
    XorCancel(Continue(ALL_ONES, a), ALL_ONES);
    XorCancel(Continue(ALL_ONES, b), ALL_ONES);
  }

  lemma XorZero(a: bv32, b: bv32)
    ensures Xor(a, b) == 0 <==> a == b
  {
    XorSelf(a);
    XorSelf(b);
    XorCancel(a, b);
    hide Xor;
  }

  /** Main result: a change of equally long data goes undetected exactly when its pattern is a
      multiple of the generator. */
  lemma UndetectedExactly(a: seq<Byte>, b: seq<Byte>)
    requires |a| == |b|
    ensures Digest(a) == Digest(b) <==> Divisible(Change(a, b))
  {
    hide Xor, Continue, FeedBits, Bits, Divisible, Digest;
    SameRegister(a, b);
    var x, y := FeedBits(ALL_ONES, Bits(a)), FeedBits(ALL_ONES, Bits(b));
    FeedBitsLinear(ALL_ONES, ALL_ONES, Bits(a), Bits(b));
    XorSelf(ALL_ONES);
    XorZero(x, y);
    ClearExactly(Change(a, b));
  }

  /** The 32 bits that, fed into a clear register, set all its bits. */
  const PRESET: seq<bool> := LowBits(32, 0x641F_6454)

  lemma PresetFills()
    ensures |PRESET| == 32 && FeedBits(0, PRESET) == ALL_ONES
  {
    var w := 0x641F_6454;
    StepsAreFeedBits(32, 0, w);
    AboveWord(w);
    XorSelf(w);
    XorSelf(FeedBits(0, PRESET));
    PresetSteps();
    hide *;
  }

  lemma PresetSteps()
    ensures Steps(32, 0x641F_6454) == ALL_ONES
  {
    PresetBytes();
    hide Steps;
    StepsAdd(8, 24, 0x641F_6454);
    StepsAdd(8, 16, 0x96DB_52A8);
    StepsAdd(8, 8, 0x2804_363B);
  }

  lemma PresetBytes()
    ensures Steps(8, 0x641F_6454) == 0x96DB_52A8
    ensures Steps(8, 0x96DB_52A8) == 0x2804_363B
    ensures Steps(8, 0x2804_363B) == 0xA942_E6BC
    ensures Steps(8, 0xA942_E6BC) == 0xFFFF_FFFF
  {
    EightSteps(0x641F_6454);
    EightSteps(0x96DB_52A8);
    EightSteps(0x2804_363B);
    EightSteps(0xA942_E6BC);
  }

  lemma {:induction false} StepsAdd(m: nat, n: nat, s: bv32)
    ensures Steps(m + n, s) == Steps(n, Steps(m, s))
  {
    hide Step;
    if m > 0 {
      StepsAdd(m - 1, n, Step(s));
    }
  }

  /** Data of at most n bytes behind its preset, shifted to the end of n bytes. */
  function Framed(data: seq<Byte>, n: nat): (bits: seq<bool>)
    requires |data| <= n
    ensures |bits| == 8 * n + 32
  {
    Zeros(8 * (n - |data|)) + PRESET + Bits(data)
  }

  lemma FramedRegister(data: seq<Byte>, n: nat)
    requires |data| <= n
    ensures FeedBits(0, Framed(data, n)) == FeedBits(ALL_ONES, Bits(data))
  {
    hide FeedBits, Bits, LowBits;
    var z := Zeros(8 * (n - |data|));
    FeedZeros(8 * (n - |data|));
    PresetFills();
    FeedBitsConcat(0, z, PRESET);
    FeedBitsConcat(0, z + PRESET, Bits(data));
  }

  function Longer(a: seq<Byte>, b: seq<Byte>): (n: nat)
    ensures |a| <= n && |b| <= n
  {
    if |a| < |b| then |b| else |a|
  }

  /** The same for data of any two lengths. */
  function Drift(a: seq<Byte>, b: seq<Byte>): seq<bool> {
    Differences(Framed(a, Longer(a, b)), Framed(b, Longer(a, b)))
  }

  /** Main result: two inputs of any lengths share a digest exactly when the pattern by which they
      differ, each behind its preset, is a multiple of the generator. */
  lemma SameDigestExactly(a: seq<Byte>, b: seq<Byte>)
    ensures Digest(a) == Digest(b) <==> Divisible(Drift(a, b))
  {
    hide Xor, Continue, FeedBits, Bits, Divisible, Digest, Framed;
    SameRegister(a, b);
    var n := Longer(a, b);
    FramedRegister(a, n);
    FramedRegister(b, n);
    FeedBitsLinear(0, 0, Framed(a, n), Framed(b, n));
    XorSelf(0);
    XorZero(FeedBits(0, Framed(a, n)), FeedBits(0, Framed(b, n)));
    ClearExactly(Drift(a, b));
  }

  // ----- odd changes ------------------------------------------------------------------------------------

  /** How many coefficients are set. */
  function Weight(e: seq<bool>): nat {
    if e == [] then 0 else (if e[0] then 1 else 0) + Weight(e[1..])
  }

  lemma {:induction false} WeightConcat(a: seq<bool>, b: seq<bool>)
    ensures Weight(a + b) == Weight(a) + Weight(b)
  {
    if a == [] {
      assert a + b == b;
    } else {
      assert (a + b)[1..] == a[1..] + b;
      WeightConcat(a[1..], b);
    }
  }

  lemma {:induction false} WeightParity(a: seq<bool>, b: seq<bool>)
    requires |a| == |b|
    ensures Weight(Differences(a, b)) % 2 == (Weight(a) + Weight(b)) % 2
  {
    if a != [] {
      WeightParity(a[1..], b[1..]);
      assert Differences(a, b)[1..] == Differences(a[1..], b[1..]);
    }
  }

  /** The generator has an even number of terms, its leading one counted, so all its multiples do. */
  lemma GeneratorIsEven()
    ensures Weight(Generator()[1..]) % 2 == 1
  {
    hide Generator, Weight, LowBits;
    GeneratorTail();
    FirstByte();
    SecondByte();
    ThirdByte();
    LastByte();
  }

  lemma GeneratorTail()
    ensures Generator()[1..] == LowBits(32, POLYNOMIAL)
  {
    hide LowBits;
  }

  lemma FirstByte()
    ensures Weight(LowBits(32, 0x82F6_3B78)) == 4 + Weight(LowBits(24, 0x0082_F63B))
  {
    hide Weight, LowBits;
    WeightEight(24, 0x82F6_3B78);
  }

  lemma SecondByte()
    ensures Weight(LowBits(24, 0x0082_F63B)) == 5 + Weight(LowBits(16, 0x82F6))
  {
    hide Weight, LowBits;
    WeightEight(16, 0x0082_F63B);
  }

  lemma ThirdByte()
    ensures Weight(LowBits(16, 0x82F6)) == 6 + Weight(LowBits(8, 0x82))
  {
    hide Weight, LowBits;
    WeightEight(8, 0x82F6);
  }

  lemma LastByte()
    ensures Weight(LowBits(8, 0x82)) == 2
  {
    assert Weight(LowBits(0, 0)) == 0;
    hide Weight, LowBits;
    WeightEight(0, 0x82);
  }

  function One(b: bool): nat { if b then 1 else 0 }

  lemma WeightEight(n: nat, w: bv32)
    ensures Weight(LowBits(n + 8, w)) == One(w & 1 != 0) + One(w & 2 != 0) + One(w & 4 != 0) + One(w & 8 != 0)
              + One(w & 16 != 0) + One(w & 32 != 0) + One(w & 64 != 0) + One(w & 128 != 0) + Weight(LowBits(n, w >> 8))
  {
    hide One, Weight, LowBits;
    WeightFour(n + 4, w);
    WeightFour(n, w >> 4);
    TwoNibbles(w);
    HighNibble(w);
  }

  lemma HighNibble(w: bv32)
    ensures ((w >> 4) & 1 != 0) == (w & 16 != 0) && ((w >> 4) & 2 != 0) == (w & 32 != 0)
    ensures ((w >> 4) & 4 != 0) == (w & 64 != 0) && ((w >> 4) & 8 != 0) == (w & 128 != 0)
  {}

  lemma WeightFour(n: nat, w: bv32)
    ensures Weight(LowBits(n + 4, w))
         == One(w & 1 != 0) + One(w & 2 != 0) + One(w & 4 != 0) + One(w & 8 != 0) + Weight(LowBits(n, w >> 4))
  {
    NibbleOdds(w);
    HalfFour(w);
    hide Weight, LowBits, Half, Odd, One;
    var x, y, z := Half(w), Half(Half(w)), Half(Half(Half(w)));
    WeightOne(n + 3, w);
    WeightOne(n + 2, x);
    WeightOne(n + 1, y);
    WeightOne(n, z);
  }

  lemma NibbleOdds(w: bv32)
    ensures Odd(w) == (w & 1 != 0) && Odd(Half(w)) == (w & 2 != 0) && Odd(Half(Half(w))) == (w & 4 != 0)
    ensures Odd(Half(Half(Half(w)))) == (w & 8 != 0)
  {}

  lemma WeightOne(n: nat, w: bv32)
    ensures Weight(LowBits(n + 1, w)) == One(Odd(w)) + Weight(LowBits(n, Half(w)))
  {
    hide Half, Odd;
    assert LowBits(n + 1, w)[1..] == LowBits(n, Half(w));
  }

  lemma {:induction false} DivisibleIsEven(e: seq<bool>)
    requires Divisible(e)
    ensures Weight(e) % 2 == 0
    decreases |e|
  {
    hide Weight;
    if |e| > 32 {
      DivisibleIsEven(Reduce(e));
      ReduceParity(e);
    } else {
      NoWeight(e);
    }
  }

  lemma ReduceParity(e: seq<bool>)
    requires |e| > 32
    ensures Weight(Reduce(e)) % 2 == Weight(e) % 2
  {
    assert Weight(e) == (if e[0] then 1 else 0) + Weight(e[1..]);
    hide Weight, Generator, Reduce;
    if e[0] {
      ReduceSplit(e);
      TailParity(e[1..33], Generator()[1..], e[33..]);
    } else {
      ReduceShape(e);
    }
  }

  lemma ReduceSplit(e: seq<bool>)
    requires |e| > 32 && e[0]
    ensures e[1..] == e[1..33] + e[33..] && Reduce(e) == Differences(e[1..33], Generator()[1..]) + e[33..]
  {
    hide Generator;
  }

  lemma TailParity(h: seq<bool>, g: seq<bool>, t: seq<bool>)
    requires |h| == |g| && g == Generator()[1..]
    ensures Weight(Differences(h, g) + t) % 2 == (1 + Weight(h + t)) % 2
  {
    hide Weight, Generator, Differences;
    WeightConcat(h, t);
    WeightConcat(Differences(h, g), t);
    WeightParity(h, g);
    GeneratorIsEven();
    ParitySum(Weight(Differences(h, g)), Weight(h), Weight(g), Weight(t));
  }

  lemma ParitySum(d: nat, h: nat, g: nat, t: nat)
    requires d % 2 == (h + g) % 2 && g % 2 == 1
    ensures (d + t) % 2 == (1 + (h + t)) % 2
  {}

  lemma {:induction false} NoWeight(e: seq<bool>)
    requires forall i :: 0 <= i < |e| ==> !e[i]
    ensures Weight(e) == 0
  {
    if e != [] {
      NoWeight(e[1..]);
    }
  }

  /** Main result: every change of an odd number of bits, anywhere, is detected. */
  lemma OddChangesAreDetected(a: seq<Byte>, b: seq<Byte>)
    requires |a| == |b| && Weight(Change(a, b)) % 2 == 1
    ensures Digest(a) != Digest(b)
  {
    hide Weight, Divisible, Digest, Change;
    UndetectedExactly(a, b);
    if Divisible(Change(a, b)) {
      DivisibleIsEven(Change(a, b));
    }
  }
}
