/** Widening a byte to a 32-bit word (the implicit uint8_t to uint32_t conversion
    in KVStore::calculateCRC32), built bit by bit from the byte's value. */
module Widening {
  import opened Bytes

  /** 2 to the power `k`. */
  function Pow2(k: nat): nat
    decreases k
  {
    if k == 0 then 1 else 2 * Pow2(k - 1)
  }

  lemma {:induction false} Pow2Bound(k: nat)
    requires k <= 7
    ensures Pow2(k) <= 0x80
    decreases 7 - k
  {
    if k < 7 {
      Pow2Bound(k + 1);
    } else {
      assert Pow2(7) == 0x80;
    }
  }

  /** The low `k` bits of `n`, as a word. */
  function LowBits(n: nat, k: nat): bv32
    requires k <= 8
    decreases k
  {
    if k == 0 then 0
    else if n % 2 == 1 then (LowBits(n / 2, k - 1) << 1) | 1
    else LowBits(n / 2, k - 1) << 1
  }

  /** Shifting a small word left by one and filling in a bit doubles its value
      and adds the bit. */
  lemma ShiftIn(w: bv32)
    requires w as int < 0x80
    ensures (w << 1) as int == 2 * (w as int)
    ensures ((w << 1) | 1) as int == 2 * (w as int) + 1
  {
  }

  lemma {:induction false} LowBitsValue(n: nat, k: nat)
    requires k <= 8 && n < Pow2(k)
    ensures LowBits(n, k) as int == n
    decreases k
  {
    if k > 0 {
      LowBitsValue(n / 2, k - 1);
      Pow2Bound(k - 1);
      ShiftIn(LowBits(n / 2, k - 1));
    }
  }

  /** The word holding the byte's value in its low eight bits. */
  function Widen(b: byte): bv32 {
    LowBits(b, 8)
  }

  lemma WidenValue(b: byte)
    ensures Widen(b) as int == b
  {
    assert Pow2(8) == 0x100;
    LowBitsValue(b, 8);
  }

  lemma WidenInjective(x: byte, y: byte)
    requires Widen(x) == Widen(y)
    ensures x == y
  {
    WidenValue(x);
    WidenValue(y);
  }

  /** A 32-bit word read as an unsigned integer (the checksum held in a uint32_t
      field). */
  function WordValue(c: bv32): u32 {
    c as int
  }

  /** Distinct words have distinct values. */
  lemma WordValueInjective(a: bv32, b: bv32)
    requires a != b
    ensures WordValue(a) != WordValue(b)
  {
    WordValueBack(a);
    WordValueBack(b);
  }

  lemma WordValueBack(a: bv32)
    ensures (a as int) as bv32 == a
  {
  }
}
