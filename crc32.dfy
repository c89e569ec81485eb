/** The checksum of the persisted configuration record (KVStore::calculateCRC32):
    the bitwise, reflected CRC-32 of the Frame Check Sequence of clause 3.2.9 of
    IEEE 802.3 — reversed polynomial 0xEDB88320, register preset to 0xFFFFFFFF,
    result complemented. */
module Crc32 {
  import opened Bytes
  import opened Widening

  const POLY: bv32 := 0xEDB8_8320
  const PRESET: bv32 := 0xFFFF_FFFF

  /** One shift of the register: the low bit falls out and, when it was set,
      the polynomial is XOR-ed in. */
  function Step(c: bv32): bv32 {
    if c & 1 == 1 then (c >> 1) ^ POLY else c >> 1
  }

  /** The source writes the shift branch-free, multiplying the polynomial by the
      low bit; the two forms agree. */
  lemma StepBranchFree(c: bv32)
    ensures (c >> 1) ^ (POLY * (c & 1)) == Step(c)
  {
    if c & 1 == 1 {
      assert POLY * (c & 1) == POLY * 1 == POLY;
    } else {
      assert c & 1 == 0;
      assert POLY * (c & 1) == POLY * 0 == 0;
    }
  }

  /** `n` shifts of the register. */
  function Shifts(c: bv32, n: nat): bv32
    decreases n
  {
    if n == 0 then c else Step(Shifts(c, n - 1))
  }

  /** Absorbing one word: XOR it into the register, then shift eight times. */
  function AbsorbWord(c: bv32, w: bv32): bv32 {
    Shifts(c ^ w, 8)
  }

  /** Absorbing one byte: XOR it, widened, into the low end, then shift eight times. */
  function AbsorbByte(c: bv32, b: byte): bv32 {
    AbsorbWord(c, Widen(b))
  }

  /** The register after absorbing `data`, one byte at a time from the front. */
  function Register(data: seq<byte>): bv32
    decreases |data|
  {
    if data == [] then PRESET else AbsorbByte(Register(data[..|data| - 1]), data[|data| - 1])
  }

  /** The checksum: the complemented register. */
  function Checksum(data: seq<byte>): bv32 {
    !Register(data)
  }

  lemma RegisterSnoc(a: seq<byte>, n: nat)
    requires 0 < n <= |a|
    ensures Register(a[..n]) == AbsorbByte(Register(a[..n - 1]), a[n - 1])
  {
    assert a[..n][..n - 1] == a[..n - 1];
  }

  /** The inner loop of KVStore::calculateCRC32: XOR the byte in, then eight
      branch-free shifts. */
  method AbsorbBits(c: bv32, b: byte) returns (crc: bv32)
    ensures crc == AbsorbByte(c, b)
  {
    crc := c ^ Widen(b);
    var j := 0;
    while j < 8
      invariant 0 <= j <= 8
      invariant crc == Shifts(c ^ Widen(b), j)
    {
      StepBranchFree(crc);
      crc := (crc >> 1) ^ (POLY * (crc & 1));
      j := j + 1;
    }
  }

  /** KVStore::calculateCRC32: the register over every byte, complemented. */
  method CalculateCrc32(data: seq<byte>) returns (crc: bv32)
    ensures crc == Checksum(data)
  {
    crc := PRESET;
    var i := 0;
    while i < |data|
      invariant 0 <= i <= |data|
      invariant crc == Register(data[..i])
    {
      crc := AbsorbBits(crc, data[i]);
      RegisterSnoc(data, i + 1);
      i := i + 1;
    }
    assert data[..i] == data;
    crc := !crc;
  }

  // ---------------------------------------------------------------------------
  // Error detection

  /** A shift loses no information: the top bit of the result (the top bit of the
      polynomial) tells whether the polynomial was XOR-ed in, and so recovers the
      dropped low bit. */
  lemma StepInjective(a: bv32, b: bv32)
    requires Step(a) == Step(b)
    ensures a == b
  {
  }

  lemma {:induction false} ShiftsInjective(c: bv32, d: bv32, n: nat)
    requires Shifts(c, n) == Shifts(d, n)
    ensures c == d
    decreases n
  {
    if n > 0 {
      StepInjective(Shifts(c, n - 1), Shifts(d, n - 1));
      ShiftsInjective(c, d, n - 1);
    }
  }

  lemma XorTwice(a: bv32, b: bv32)
    ensures (a ^ b) ^ b == a && b ^ (b ^ a) == a
  {
  }

  lemma XorCancel(c: bv32, d: bv32, x: bv32, y: bv32)
    requires c ^ x == d ^ y
    requires c == d || x == y
    ensures c == d && x == y
  {
    if x == y {
      XorTwice(c, x);
      XorTwice(d, y);
    } else {
      XorTwice(x, c);
      XorTwice(y, d);
    }
  }

  lemma AbsorbWordInjective(c: bv32, d: bv32, x: bv32, y: bv32)
    requires AbsorbWord(c, x) == AbsorbWord(d, y)
    requires c == d || x == y
    ensures c == d && x == y
  {
    ShiftsInjective(c ^ x, d ^ y, 8);
    XorCancel(c, d, x, y);
  }

  /** Absorbing a byte is injective in the register and in the byte. */
  lemma AbsorbInjective(c: bv32, d: bv32, x: byte, y: byte)
    requires AbsorbByte(c, x) == AbsorbByte(d, y)
    requires c == d || x == y
    ensures c == d && x == y
  {
    AbsorbWordInjective(c, d, Widen(x), Widen(y));
    if c == d {
      WidenInjective(x, y);
    }
  }

  lemma AbsorbDiffers(c: bv32, d: bv32, x: byte, y: byte)
    requires (c == d && x != y) || (c != d && x == y)
    ensures AbsorbByte(c, x) != AbsorbByte(d, y)
  {
    if AbsorbByte(c, x) == AbsorbByte(d, y) {
      AbsorbInjective(c, d, x, y);
    }
  }

  /** The registers part at the differing byte ... */
  lemma RegistersDifferAt(a: seq<byte>, b: seq<byte>, p: nat)
    requires |a| == |b| && p < |a|
    requires a[..p] == b[..p] && a[p] != b[p]
    ensures Register(a[..p + 1]) != Register(b[..p + 1])
  {
    RegisterSnoc(a, p + 1);
    RegisterSnoc(b, p + 1);
    AbsorbDiffers(Register(a[..p]), Register(b[..p]), a[p], b[p]);
  }

  /** ... and stay apart while the bytes agree. */
  lemma RegistersStayApart(a: seq<byte>, b: seq<byte>, n: nat)
    requires |a| == |b| && 0 < n <= |a|
    requires Register(a[..n - 1]) != Register(b[..n - 1]) && a[n - 1] == b[n - 1]
    ensures Register(a[..n]) != Register(b[..n])
  {
    RegisterSnoc(a, n);
    RegisterSnoc(b, n);
    AbsorbDiffers(Register(a[..n - 1]), Register(b[..n - 1]), a[n - 1], b[n - 1]);
  }

  /** Two byte strings of the same length that differ in exactly one byte have
      different registers from that byte on. */
  lemma {:induction false} RegistersDifferAfter(a: seq<byte>, b: seq<byte>, p: nat, n: nat)
    requires |a| == |b| && p < n <= |a|
    requires a[p] != b[p]
    requires forall i :: 0 <= i < |a| && i != p ==> a[i] == b[i]
    ensures Register(a[..n]) != Register(b[..n])
    decreases n
  {
    if n == p + 1 {
      assert a[..p] == b[..p];
      RegistersDifferAt(a, b, p);
    } else {
      RegistersDifferAfter(a, b, p, n - 1);
      RegistersStayApart(a, b, n);
    }
  }

  /** CRC-32 detects every single-byte error: changing any one byte of the data
      changes its checksum. */
  lemma SingleByteErrorDetected(a: seq<byte>, b: seq<byte>, p: nat)
    requires |a| == |b| && p < |a|
    requires a[p] != b[p]
    requires forall i :: 0 <= i < |a| && i != p ==> a[i] == b[i]
    ensures Checksum(a) != Checksum(b)
  {
    RegistersDifferAfter(a, b, p, |a|);
    assert a[..|a|] == a && b[..|b|] == b;
  }
}
