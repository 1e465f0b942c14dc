/** Boot-image staging: the hex codec, the kernel's single staging slot, and the choice of the
    image a new VM boots. */
module Staging {
  import opened Wrappers
  import Crc32c

  type Byte = Crc32c.Byte

  const MAX_IMAGE_BYTES: nat := 4096
  const GUEST_LOAD_GPA: nat := 0x1000

  // ----- hex --------------------------------------------------------------------------------

  /** The host's lookup table. */
  function NibbleChar(n: nat): char
    requires n < 16
  {
    "0123456789abcdef"[n]
  }

  function NibbleValue(c: char): (r: Option<nat>)
    ensures r.Some? ==> r.value < 16
  {
    if '0' <= c <= '9' then Some(c as nat - '0' as nat)
    else if 'a' <= c <= 'f' then Some(10 + (c as nat - 'a' as nat))
    else None
  }

  function Hi(b: Byte): (n: nat)
    ensures n < 16
  {
    (b >> 4) as nat
  }

  function Lo(b: Byte): (n: nat)
    ensures n < 16
  {
    (b & 0x0F) as nat
  }

  function Join(hi: nat, lo: nat): Byte
    requires hi < 16 && lo < 16
  {
    ((hi as Byte) << 4) | (lo as Byte)
  }

  lemma NibbleRoundTrip(n: nat)
    requires n < 16
    ensures NibbleValue(NibbleChar(n)) == Some(n)
  {}

  lemma NibbleCharRoundTrip(c: char)
    ensures NibbleValue(c).Some? ==> NibbleChar(NibbleValue(c).value) == c
  {}

  lemma SplitJoin(b: Byte)
    ensures Join(Hi(b), Lo(b)) == b
  {}

  lemma JoinSplit(hi: nat, lo: nat)
    requires hi < 16 && lo < 16
    ensures Hi(Join(hi, lo)) == hi && Lo(Join(hi, lo)) == lo
  {}

  function HexOf(bytes: seq<Byte>): (s: string)
    ensures |s| == 2 * |bytes|
  {
    if bytes == [] then "" else [NibbleChar(Hi(bytes[0])), NibbleChar(Lo(bytes[0]))] + HexOf(bytes[1..])
  }

  /** The bytes a hex text of even length stands for, if all of it is lower-case hex. */
  function BytesOf(hex: string): (r: Option<seq<Byte>>)
    requires |hex| % 2 == 0
    ensures r.Some? ==> 2 * |r.value| == |hex|
  {
    if hex == "" then Some([])
    else
      var hi, lo, rest := NibbleValue(hex[0]), NibbleValue(hex[1]), BytesOf(hex[2..]);
      if hi.None? || lo.None? || rest.None? then None else Some([Join(hi.value, lo.value)] + rest.value)
  }

  lemma {:induction false} HexRoundTrip(bytes: seq<Byte>)
    ensures BytesOf(HexOf(bytes)) == Some(bytes)
  {
    hide Join, Hi, Lo, NibbleChar, NibbleValue;
    if bytes != [] {
      var b := bytes[0];
      NibbleRoundTrip(Hi(b));
      NibbleRoundTrip(Lo(b));
      SplitJoin(b);
      HexRoundTrip(bytes[1..]);
      assert HexOf(bytes)[2..] == HexOf(bytes[1..]);
      assert bytes == [b] + bytes[1..];
    }
  }

  /** Only one text decodes to given bytes: the host's. */
  lemma {:induction false} HexCanonical(hex: string)
    requires |hex| % 2 == 0
    ensures BytesOf(hex).Some? ==> HexOf(BytesOf(hex).value) == hex
  {
    hide Join, Hi, Lo, NibbleChar, NibbleValue;
    if hex != "" && BytesOf(hex).Some? {
      var hi, lo := NibbleValue(hex[0]).value, NibbleValue(hex[1]).value;
      NibbleCharRoundTrip(hex[0]);
      NibbleCharRoundTrip(hex[1]);
      JoinSplit(hi, lo);
      HexCanonical(hex[2..]);
      assert hex == [hex[0], hex[1]] + hex[2..];
    }
  }

  method HexEncode(bytes: seq<Byte>) returns (out: string)
    ensures out == HexOf(bytes)
  {
    hide Hi, Lo, NibbleChar;
    out := "";
    for k := 0 to |bytes|
      invariant out + HexOf(bytes[k..]) == HexOf(bytes)
    {
      var pair := [NibbleChar(Hi(bytes[k]))] + [NibbleChar(Lo(bytes[k]))];
      assert bytes[k..][1..] == bytes[k + 1..];
      assert out + (pair + HexOf(bytes[k + 1..])) == out + pair + HexOf(bytes[k + 1..]);
      out := out + pair;
    }
  }

  lemma {:induction false} BytesOfConcat(a: string, b: string)
    requires |a| % 2 == 0 && |b| % 2 == 0
    ensures BytesOf(a + b)
         == if BytesOf(a).Some? && BytesOf(b).Some? then Some(BytesOf(a).value + BytesOf(b).value) else None
  {
    hide Join, NibbleValue;
    if a == "" {
      assert a + b == b;
      assert BytesOf(b).Some? ==> [] + BytesOf(b).value == BytesOf(b).value;
    } else {
      assert (a + b)[2..] == a[2..] + b;
      BytesOfConcat(a[2..], b);
      var hi, lo := NibbleValue(a[0]), NibbleValue(a[1]);
      if BytesOf(a).Some? && BytesOf(b).Some? {
        var x, rest := [Join(hi.value, lo.value)], BytesOf(a[2..]).value;
        assert x + rest + BytesOf(b).value == x + (rest + BytesOf(b).value);
      }
    }
  }

  /** Decodes into the front of dst; after a bad digit the front holds what came before it. */
  method HexDecode(src: string, dst: array<Byte>) returns (r: Result<nat, HyperError>)
    modifies dst
    ensures |src| % 2 != 0 ==> r == Err(Invalid) && dst[..] == old(dst[..])
    ensures |src| % 2 == 0 && |src| / 2 > dst.Length ==> r == Err(Exhausted) && dst[..] == old(dst[..])
    ensures |src| % 2 == 0 && |src| / 2 <= dst.Length ==>
      match BytesOf(src)
      case None => r == Err(Invalid)
      case Some(bytes) => r == Ok(|bytes|) && dst[..|bytes|] == bytes && dst[|bytes|..] == old(dst[|bytes|..])
  {
    hide Join, NibbleValue;
    if |src| % 2 != 0 {
      return Err(Invalid);
    }
    var n := |src| / 2;
    if n > dst.Length {
      return Err(Exhausted);
    }
    var i := 0;
    while i < n
      invariant i <= n && BytesOf(src[..2 * i]) == Some(dst[..i]) && dst[i..] == old(dst[i..])
    {
      var hi, lo := NibbleValue(src[2 * i]), NibbleValue(src[2 * i + 1]);
      PairStep(src, i);
      if hi.None? || lo.None? {
        return Err(Invalid);
      }
      ghost var front, back := dst[..i], dst[i..];
      dst[i] := Join(hi.value, lo.value);
      i := i + 1;
      assert dst[..i] == front + [Join(hi.value, lo.value)] && src[..2 * i] == src[..2 * (i - 1) + 2];
      assert dst[i..] == back[1..] == old(dst[i - 1..])[1..] == old(dst[i..]);
    }
    assert src[..2 * n] == src;
    r := Ok(n);
  }

  lemma PairStep(src: string, i: nat)
    requires |src| % 2 == 0 && 2 * i + 1 < |src|
    ensures var pair := src[2 * i..2 * i + 2];
      && BytesOf(src[..2 * i + 2])
         == (if BytesOf(src[..2 * i]).Some? && BytesOf(pair).Some?
             then Some(BytesOf(src[..2 * i]).value + BytesOf(pair).value) else None)
      && BytesOf(pair)
         == (var hi, lo := NibbleValue(src[2 * i]), NibbleValue(src[2 * i + 1]);
             if hi.None? || lo.None? then None else Some([Join(hi.value, lo.value)]))
      && (BytesOf(pair).None? ==> BytesOf(src).None?)
  {
    hide Join, NibbleValue;
    var pair := src[2 * i..2 * i + 2];
    assert pair == [src[2 * i], src[2 * i + 1]] && pair[2..] == "";
    assert forall x: seq<Byte> :: x + [] == x;
    assert src[..2 * i + 2] == src[..2 * i] + pair;
    BytesOfConcat(src[..2 * i], pair);
    assert src == src[..2 * i + 2] + src[2 * i + 2..];
    BytesOfConcat(src[..2 * i + 2], src[2 * i + 2..]);
  }

  // ----- the staging slot ------------------------------------------------------------------------

  /** The digest as the u32 that travels on the wire. */
  function Crc(data: seq<Byte>): (n: nat)
    ensures n < 0x1_0000_0000
  {
    Crc32c.Digest(data) as nat
  }

  /** Staging as a function on the slot's contents. The three length checks come before the
      slot is touched; every later failure empties it. */
  function Staged(held: Option<seq<Byte>>, hex: string, len: nat, crc: nat): (Result<(), HyperError>, Option<seq<Byte>>) {
    if len == 0 || len > MAX_IMAGE_BYTES || |hex| != 2 * len then (Err(Invalid), held)
    else
      match BytesOf(hex)
      case None => (Err(Invalid), None)
      case Some(bytes) => if Crc(bytes) != crc then (Err(Invalid), None) else (Ok(()), Some(bytes))
  }

  /** A refused upload empties the slot exactly when it passed the three length checks (or
      there was nothing to keep). */
  lemma RefusedUpload(held: Option<seq<Byte>>, hex: string, len: nat, crc: nat)
    ensures var (r, after) := Staged(held, hex, len, crc);
      r.Err? ==> (after == None <==> held == None || (1 <= len <= MAX_IMAGE_BYTES && |hex| == 2 * len)) && (after == None || after == held)
  {
    hide BytesOf;
  }

  datatype BootImage = BootImage(blob: seq<Byte>, entryRip: nat, entryRsp: nat, crc: Option<nat>)

  function FromRawBytes(blob: seq<Byte>, rip: nat, rsp: nat, crc: Option<nat>): (r: Result<BootImage, HyperError>)
    ensures r.Ok? <==> 1 <= |blob| <= MAX_IMAGE_BYTES && GUEST_LOAD_GPA <= rip < GUEST_LOAD_GPA + |blob|
    ensures r.Ok? ==> r.value == BootImage(blob, rip, rsp, crc)
  {
    if blob == [] then Err(Invalid)
    else if |blob| > MAX_IMAGE_BYTES then Err(Invalid)
    else if rip < GUEST_LOAD_GPA || rip >= GUEST_LOAD_GPA + |blob| then Err(Invalid)
    else Ok(BootImage(blob, rip, rsp, crc))
  }

  /** The built-in guest, or a lone HLT should it ever outgrow its page. */
  function Embedded(hello: seq<Byte>): BootImage {
    match FromRawBytes(hello, GUEST_LOAD_GPA, 0, None)
    case Ok(image) => image
    case Err(_) => BootImage([0xF4], GUEST_LOAD_GPA, 0, None)
  }

  /** The image a create request boots. */
  function Chosen(held: Option<seq<Byte>>, want: Option<nat>, hello: seq<Byte>): BootImage {
    if want.Some? && held.Some? && Crc(held.value) == want.value
    then BootImage(held.value, GUEST_LOAD_GPA, 0, want)
    else Embedded(hello)
  }

  class StagedImage {
    const bytes: array<Byte>
    var len: nat
    var crc: nat
    var present: bool

    constructor ()
      ensures Valid() && Held() == None && fresh(bytes)
    {
      bytes := new Byte[MAX_IMAGE_BYTES](_ => 0);
      len, crc, present := 0, 0, false;
    }

    /** In every run: a present slot holds 1 to 4096 bytes and their own digest. */
    ghost predicate Valid()
      reads this, bytes
    {
      && bytes.Length == MAX_IMAGE_BYTES
      && (present ==> 1 <= len <= MAX_IMAGE_BYTES && crc == Crc(bytes[..len]))
    }

    ghost function Held(): Option<seq<Byte>>
      requires Valid()
      reads this, bytes
    {
      if present then Some(bytes[..len]) else None
    }

    method StageFromHex(hex: string, expectedLen: nat, expectedCrc: nat) returns (r: Result<(), HyperError>)
      requires Valid()
      modifies this, bytes
      ensures Valid() && (r, Held()) == Staged(old(Held()), hex, expectedLen, expectedCrc)
    {
      hide BytesOf;
      if expectedLen == 0 || expectedLen > MAX_IMAGE_BYTES {
        return Err(Invalid);
      }
      if |hex| != 2 * expectedLen {
        return Err(Invalid);
      }
      present, len, crc := false, 0, 0;
      var n := HexDecode(hex, bytes);
      if n.Err? {
        return Err(n.error);
      }
      var digest := Crc32c.Checksum(bytes[..expectedLen]);
      var actual := digest as nat;
      if actual != expectedCrc {
        forall k | 0 <= k < expectedLen {
          bytes[k] := 0;
        }
        return Err(Invalid);
      }
      len, crc, present := expectedLen, actual, true;
      r := Ok(());
    }

    method Discard()
      requires Valid()
      modifies this
      ensures Valid() && Held() == None
    {
      present, len, crc := false, 0, 0;
    }

    method FromStagedOrEmbedded(want: Option<nat>, hello: seq<Byte>) returns (image: BootImage)
      requires Valid()
      ensures image == Chosen(Held(), want, hello)
      ensures image ==
        if want.Some? && Held().Some? && Crc(Held().value) == want.value then BootImage(Held().value, 0x1000, 0, want)
        else if 1 <= |hello| <= 4096 then BootImage(hello, 0x1000, 0, None)
        else BootImage([0xF4], 0x1000, 0, None)
    {
      if want.Some? && present && crc == want.value {
        var staged := FromRawBytes(bytes[..len], GUEST_LOAD_GPA, 0, want);
        return if staged.Ok? then staged.value else Embedded(hello);
      }
      image := Embedded(hello);
    }
  }
}
