/** What the image readers need from the operating system and from byte parsing. */
module DiskFile {
  import opened Wrappers
  import opened Crc32c

  datatype DiskError = BadImage | Io | Storage

  type File = seq<Byte>

  const SECTOR: nat := 512
  const U64_MAX: nat := 0xFFFF_FFFF_FFFF_FFFF

  /** n little-endian bytes at off. */
  function Le(file: File, off: nat, n: nat): nat
    requires off + n <= |file|
    decreases n
  {
    if n == 0 then 0 else (file[off] as nat) + 256 * Le(file, off + 1, n - 1)
  }

  /** n big-endian bytes at off. */
  function Be(file: File, off: nat, n: nat): nat
    requires off + n <= |file|
    decreases n
  {
    if n == 0 then 0 else 256 * Be(file, off, n - 1) + (file[off + n - 1] as nat)
  }

  /** The bytes of [lo, hi) as they are, everything else as it was. */
  twostate predicate OnlyChanged(buf: array<Byte>, lo: nat, hi: nat)
    reads buf
  {
    forall k :: 0 <= k < buf.Length && !(lo <= k < hi) ==> buf[k] == old(buf[k])
  }

  /** Fill [lo, hi) from off, or fail when the file is too short. */
  method ReadExact(file: File, off: nat, buf: array<Byte>, lo: nat, hi: nat) returns (ok: bool)
    requires lo <= hi <= buf.Length
    modifies buf
    ensures OnlyChanged(buf, lo, hi)
    ensures ok <==> hi == lo || off + (hi - lo) <= |file|
    ensures ok ==> forall j :: lo <= j < hi ==> buf[j] == file[off + j - lo]
  {
    ok := hi == lo || off + (hi - lo) <= |file|;
    for k := lo to if ok then hi else lo
      invariant OnlyChanged(buf, lo, hi)
      invariant forall j :: lo <= j < k ==> buf[j] == file[off + j - lo]
    {
      buf[k] := file[off + k - lo];
    }
  }

  /** A single read call: some bytes, at least one unless there are none to have. How
      many is up to the operating system. */
  method ReadSome(file: File, off: nat, buf: array<Byte>, lo: nat, hi: nat) returns (n: nat)
    requires lo <= hi <= buf.Length
    modifies buf
    ensures OnlyChanged(buf, lo, lo + n)
    ensures n <= hi - lo && (n > 0 ==> off + n <= |file|)
    ensures n == 0 <==> hi == lo || off >= |file|
    ensures forall j :: lo <= j < lo + n ==> buf[j] == file[off + j - lo]
  {
    if hi == lo || off >= |file| {
      return 0;
    }
    n :| 1 <= n <= hi - lo && off + n <= |file|;
    var ok := ReadExact(file, off, buf, lo, lo + n);
  }

  method Fill(buf: array<Byte>, lo: nat, hi: nat)
    requires lo <= hi <= buf.Length
    modifies buf
    ensures OnlyChanged(buf, lo, hi)
    ensures forall k :: lo <= k < hi ==> buf[k] == 0
  {
    for k := lo to hi
      invariant OnlyChanged(buf, lo, hi)
      invariant forall j :: lo <= j < k ==> buf[j] == 0
    {
      buf[k] := 0;
    }
  }

  /** Integer division rounded up. */
  function DivCeil(a: nat, b: nat): nat
    requires b > 0
  {
    (a + b - 1) / b
  }

  /** Moving k bytes on without leaving the block keeps the block number. */
  lemma SameBlock(o: nat, k: nat, size: nat)
    requires size > 0 && o % size + k < size
    ensures (o + k) / size == o / size && (o + k) % size == o % size + k
  {
    var q := o / size;
    assert o == q * size + o % size;
    DivUnique(o + k, size, q, o % size + k);
  }

  lemma MulStrict(x: int, y: int, b: nat)
    ensures x < y ==> (x + 1) * b <= y * b
  {}

  lemma DivUnique(a: nat, b: nat, q: nat, r: nat)
    requires b > 0 && r < b && a == q * b + r
    ensures a / b == q && a % b == r
  {
    MulStrict(a / b, q, b);
    MulStrict(q, a / b, b);
  }

  lemma DivBelowCeil(o: nat, total: nat, b: nat)
    requires b > 0 && o < total
    ensures o / b < DivCeil(total, b)
  {
    MulStrict(DivCeil(total, b), o / b + 1, b);
  }

  /** How much of a request lies on the disk. */
  function Wanted(size: nat, offset: nat, len: nat): nat {
    if offset >= size then 0 else if len < size - offset then len else size - offset
  }

  /** Byte k of a request lies on the disk exactly when the request and the disk both reach it. */
  lemma WantedByte(size: nat, offset: nat, len: nat, k: nat)
    ensures k < Wanted(size, offset, len) <==> k < len && offset + k < size
  {}

  /** The rounded quotient is the least number of blocks that cover the bytes. */
  lemma LeastCover(a: nat, b: nat, n: nat)
    requires b > 0
    ensures DivCeil(a, b) <= n <==> a <= n * b
  {
    var q := DivCeil(a, b);
    assert q * b <= a + b - 1 < (q + 1) * b;
    MulStrict(q, n + 1, b);
    MulStrict(n, q, b);
    assert (n + 1) * b == n * b + b && (q + 1) * b == q * b + b;
    MulMonotone(q, n, b);
  }

  lemma MulMonotone(x: nat, y: nat, b: nat)
    ensures x <= y ==> x * b <= y * b
  {}
}
