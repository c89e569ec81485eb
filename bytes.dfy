/** Byte strings, the fixed-width integer codecs the firmware uses on them,
    and decimal text (std::to_string / atoi restricted to what the firmware needs). */
module Bytes {

  /** An unsigned 8-bit value (uint8_t, and char read as a byte). */
  type byte = x: int | 0 <= x < 0x100

  /** The range of uint32_t. */
  const U32_LIMIT: int := 0x1_0000_0000

  type u32 = x: int | 0 <= x < U32_LIMIT

  datatype Option<T> = None | Some(value: T)

  /** std::min. */
  function Min(a: int, b: int): int {
    if a <= b then a else b
  }

  /** The index of the first occurrence of `x` in `s` (std::string::find). */
  function IndexOf<T(==)>(s: seq<T>, x: T): (r: Option<nat>)
    ensures r.Some? ==> r.value < |s| && s[r.value] == x
    ensures r.Some? ==> forall j :: 0 <= j < r.value ==> s[j] != x
    ensures r.None? ==> forall j :: 0 <= j < |s| ==> s[j] != x
    decreases |s|
  {
    if s == [] then None
    else if s[0] == x then Some(0)
    else match IndexOf(s[1..], x)
      case None => None
      case Some(i) => Some(i + 1)
  }

  /** True when every character of `s` is 7-bit ASCII. */
  predicate IsAscii(s: string) {
    forall i :: 0 <= i < |s| ==> s[i] as int < 0x80
  }

  /** The bytes of an ASCII string, as a C++ string literal lays them out. */
  function Ascii(s: string): (r: seq<byte>)
    requires IsAscii(s)
    ensures |r| == |s|
    ensures forall i :: 0 <= i < |s| ==> r[i] == s[i] as int
  {
    seq(|s|, i requires 0 <= i < |s| => s[i] as int)
  }

  /** The characters of a byte string (std::string built from a byte buffer). */
  function Chars(b: seq<byte>): (r: string)
    ensures |r| == |b|
    ensures forall i :: 0 <= i < |b| ==> r[i] as int == b[i]
  {
    seq(|b|, i requires 0 <= i < |b| => b[i] as char)
  }

  lemma AsciiChars(s: string)
    requires IsAscii(s)
    ensures Chars(Ascii(s)) == s
  {
  }

  lemma CharsAscii(b: seq<byte>)
    requires IsAscii(Chars(b))
    ensures Ascii(Chars(b)) == b
  {
  }

  // ---------------------------------------------------------------------------
  // 32-bit little-endian (RP2040 memory order) and big-endian (network order)

  /** A value split into its low byte and the rest. */
  lemma SplitLowByte(lo: int, hi: int)
    requires 0 <= lo < 0x100
    ensures (lo + 0x100 * hi) % 0x100 == lo
    ensures (lo + 0x100 * hi) / 0x100 == hi
  {
  }

  /** Little-endian decoding of four bytes: a uint32_t read from memory on the RP2040. */
  function LittleEndianU32(b: seq<byte>): (n: u32)
    requires |b| == 4
    ensures n % 0x100 == b[0]
  {
    var high: int := b[1] as int + 0x100 * (b[2] as int + 0x100 * b[3] as int);
    SplitLowByte(b[0], high);
    b[0] as int + 0x100 * high
  }

  /** Little-endian encoding: the four bytes a uint32_t occupies in RP2040 memory. */
  function EncodeLittleEndianU32(n: u32): (b: seq<byte>)
    ensures |b| == 4 && b[0] == n % 0x100
  {
    var n1 := n / 0x100;
    var n2 := n1 / 0x100;
    [n % 0x100, n1 % 0x100, n2 % 0x100, n2 / 0x100]
  }

  lemma LittleEndianRoundTrip(n: u32)
    ensures LittleEndianU32(EncodeLittleEndianU32(n)) == n
  {
    var n1 := n / 0x100;
    var n2 := n1 / 0x100;
    assert n2 == n2 % 0x100 + 0x100 * (n2 / 0x100);
    assert n1 == n1 % 0x100 + 0x100 * n2;
    assert n == n % 0x100 + 0x100 * n1;
  }

  lemma LittleEndianDecodeRoundTrip(b: seq<byte>)
    requires |b| == 4
    ensures EncodeLittleEndianU32(LittleEndianU32(b)) == b
  {
    var n2: int := b[2] as int + 0x100 * b[3] as int;
    var n1: int := b[1] as int + 0x100 * n2;
    SplitLowByte(b[0], n1);
    SplitLowByte(b[1], n2);
    SplitLowByte(b[2], b[3]);
  }

  lemma LittleEndianInjective(m: u32, n: u32)
    requires EncodeLittleEndianU32(m) == EncodeLittleEndianU32(n)
    ensures m == n
  {
    LittleEndianRoundTrip(m);
    LittleEndianRoundTrip(n);
  }

  /** Big-endian decoding of four bytes, as `(b0 << 24) | (b1 << 16) | (b2 << 8) | b3`. */
  function BigEndianU32(b: seq<byte>): (n: u32)
    requires |b| == 4
    ensures n % 0x100 == b[3]
  {
    LittleEndianU32([b[3], b[2], b[1], b[0]])
  }

  /** Big-endian encoding, most significant byte first. */
  function EncodeBigEndianU32(n: u32): (b: seq<byte>)
    ensures |b| == 4 && b[3] == n % 0x100
  {
    var le := EncodeLittleEndianU32(n);
    [le[3], le[2], le[1], le[0]]
  }

  lemma BigEndianRoundTrip(n: u32)
    ensures BigEndianU32(EncodeBigEndianU32(n)) == n
  {
    var le := EncodeLittleEndianU32(n);
    assert [le[3], le[2], le[1], le[0]][3] == le[0];
    assert [le[0], le[1], le[2], le[3]] == le;
    LittleEndianRoundTrip(n);
  }

  lemma BigEndianDecodeRoundTrip(b: seq<byte>)
    requires |b| == 4
    ensures EncodeBigEndianU32(BigEndianU32(b)) == b
  {
    LittleEndianDecodeRoundTrip([b[3], b[2], b[1], b[0]]);
  }

  // ---------------------------------------------------------------------------
  // Decimal text

  const ZERO: byte := 0x30

  predicate IsDigit(b: byte) {
    ZERO <= b <= ZERO + 9
  }

  predicate AllDigits(s: seq<byte>) {
    forall i :: 0 <= i < |s| ==> IsDigit(s[i])
  }

  /** std::to_string of a non-negative integer: its shortest decimal digits. */
  function Decimal(n: nat): (s: seq<byte>)
    ensures |s| > 0 && AllDigits(s)
    ensures |s| > 1 ==> s[0] != ZERO
    decreases n
  {
    if n < 10 then [ZERO + n] else Decimal(n / 10) + [ZERO + n % 10]
  }

  /** The value of a string of decimal digits (what atoi returns when it does not overflow). */
  function DecimalValue(s: seq<byte>): nat
    requires AllDigits(s)
    decreases |s|
  {
    if s == [] then 0 else DecimalValue(s[..|s| - 1]) * 10 + (s[|s| - 1] - ZERO)
  }

  lemma {:induction false} DecimalRoundTrip(n: nat)
    ensures DecimalValue(Decimal(n)) == n
    decreases n
  {
    if n >= 10 {
      var s := Decimal(n);
      assert s[..|s| - 1] == Decimal(n / 10);
      DecimalRoundTrip(n / 10);
    }
  }

  lemma DecimalInjective(m: nat, n: nat)
    requires Decimal(m) == Decimal(n)
    ensures m == n
  {
    DecimalRoundTrip(m);
    DecimalRoundTrip(n);
  }

  /** 10^k. */
  function Pow10(k: nat): (p: nat)
    ensures p >= 1
  {
    if k == 0 then 1 else 10 * Pow10(k - 1)
  }

  /** A value below 10^k has at most k digits. */
  lemma {:induction false} DecimalLength(n: nat, k: nat)
    requires 1 <= k && n < Pow10(k)
    ensures |Decimal(n)| <= k
    decreases k
  {
    if n >= 10 {
      DecimalLength(n / 10, k - 1);
    }
  }

  /** std::to_string writes 10^k as a one followed by k zeros. */
  lemma {:induction false} Pow10Digits(k: nat)
    ensures Decimal(Pow10(k)) == [ZERO + 1] + seq(k, _ => ZERO)
    decreases k
  {
    if k > 0 {
      Pow10Digits(k - 1);
      var p := Pow10(k - 1);
      assert Pow10(k) / 10 == p && Pow10(k) % 10 == 0;
      assert [ZERO + 1] + seq(k, _ => ZERO) == [ZERO + 1] + seq(k - 1, _ => ZERO) + [ZERO];
    }
  }
}
