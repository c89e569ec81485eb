/** The persisted configuration record (kv_store_t) and where it lives in flash:
    the limits of the table, the byte layout of the record, and the decoding of
    a flash sector into a record (the memcpy of KVStore::loadFromFlash).

    The slot layout is an assumption of this model. The .cpp reads and writes
    keyLength and valueLength but never fixes where they sit or how wide they
    are. The model takes each slot to hold the key bytes, a 32-bit key length,
    the value bytes and a 32-bit value length, with no padding, and every 32-bit
    field stored little-endian, as the RP2040 holds it in memory. The 152-byte
    slot and 3964-byte record follow from that assumption. */
module ConfigLayout {
  import opened Bytes

  const FLASH_PAGE_SIZE: nat := 256
  const FLASH_SECTOR_SIZE: nat := 4096
  /** The store occupies exactly one sector. */
  const FLASH_KV_STORE_SIZE: nat := FLASH_SECTOR_SIZE

  const MAX_KEY_LEN: nat := 16
  const MAX_VALUE_LEN: nat := 128
  const MAX_ENTRIES: nat := 26

  /** The magic word of a record this firmware wrote. */
  const MAGIC: u32 := 0xDEAD_BEEF

  /** Bytes of one 32-bit field. */
  const WORD: nat := 4
  /** Bytes of one slot: key, key length, value, value length. */
  const SLOT_SIZE: nat := MAX_KEY_LEN + WORD + MAX_VALUE_LEN + WORD
  /** Bytes before the first slot: the magic word and the entry count. */
  const SLOTS_OFFSET: nat := 2 * WORD
  /** Offset of the checksum field, the last field of the record. */
  const CRC_OFFSET: nat := SLOTS_OFFSET + MAX_ENTRIES * SLOT_SIZE
  /** sizeof(kv_store_t). */
  const RECORD_SIZE: nat := CRC_OFFSET + WORD

  /** The erased state of a flash byte. */
  const ERASED: byte := 0xFF

  /** FLASH_STORAGE_BASE: the offset of the last sector of a flash of `flashSize` bytes. */
  function FlashStorageBase(flashSize: nat): (base: nat)
    requires flashSize >= FLASH_KV_STORE_SIZE
    ensures base + FLASH_SECTOR_SIZE == flashSize
    ensures flashSize % FLASH_SECTOR_SIZE == 0 ==> base % FLASH_SECTOR_SIZE == 0
  {
    flashSize - FLASH_KV_STORE_SIZE
  }

  function Zeros(n: nat): (z: seq<byte>)
    ensures |z| == n && forall i :: 0 <= i < n ==> z[i] == 0
  {
    seq(n, _ => 0)
  }

  /** char key[MAX_KEY_LEN]. */
  type KeyArray = s: seq<byte> | |s| == MAX_KEY_LEN witness Zeros(MAX_KEY_LEN)

  /** char value[MAX_VALUE_LEN]. */
  type ValueArray = s: seq<byte> | |s| == MAX_VALUE_LEN witness Zeros(MAX_VALUE_LEN)

  /** One kv_pair_t as it sits in memory: the key and value arrays keep whatever
      bytes they held beyond the stored lengths. */
  datatype Slot = Slot(key: KeyArray, keyLength: u32, value: ValueArray, valueLength: u32)

  /** A zeroed slot, as memset leaves it. */
  const BLANK_SLOT: Slot := Slot(Zeros(MAX_KEY_LEN), 0, Zeros(MAX_VALUE_LEN), 0)

  /** kv_pair_t entries[MAX_ENTRIES]. */
  type SlotArray = s: seq<Slot> | |s| == MAX_ENTRIES witness seq(MAX_ENTRIES, _ => BLANK_SLOT)

  /** kv_store_t. */
  datatype Record = Record(validFlag: u32, entryCount: u32, entries: SlotArray, crc: u32)

  /** The record after `memset(&kv_store, 0, ...)` and `valid_flag = 0xDEADBEEF`. */
  function EmptyRecord(): (r: Record)
    ensures r.validFlag == MAGIC && r.entryCount == 0 && r.crc == 0
    ensures forall i :: 0 <= i < MAX_ENTRIES ==> r.entries[i] == BLANK_SLOT
  {
    Record(MAGIC, 0, seq(MAX_ENTRIES, _ => BLANK_SLOT), 0)
  }

  // ---------------------------------------------------------------------------
  // Encoding

  function EncodeSlot(s: Slot): (b: seq<byte>)
    ensures |b| == SLOT_SIZE
  {
    s.key + EncodeLittleEndianU32(s.keyLength) + s.value + EncodeLittleEndianU32(s.valueLength)
  }

  function EncodeSlots(ss: seq<Slot>): (b: seq<byte>)
    ensures |b| == |ss| * SLOT_SIZE
    decreases |ss|
  {
    if ss == [] then [] else EncodeSlot(ss[0]) + EncodeSlots(ss[1..])
  }

  /** The bytes of the record, in field order, as the commit programs them into flash. */
  function Serialize(r: Record): (b: seq<byte>)
    ensures |b| == RECORD_SIZE <= FLASH_SECTOR_SIZE
    ensures b[CRC_OFFSET..] == EncodeLittleEndianU32(r.crc)
  {
    EncodeLittleEndianU32(r.validFlag) + EncodeLittleEndianU32(r.entryCount)
      + EncodeSlots(r.entries) + EncodeLittleEndianU32(r.crc)
  }

  // ---------------------------------------------------------------------------
  // Decoding

  function DecodeSlot(b: seq<byte>): (s: Slot)
    requires |b| == SLOT_SIZE
  {
    Slot(b[..MAX_KEY_LEN],
         LittleEndianU32(b[MAX_KEY_LEN..MAX_KEY_LEN + WORD]),
         b[MAX_KEY_LEN + WORD..SLOT_SIZE - WORD],
         LittleEndianU32(b[SLOT_SIZE - WORD..]))
  }

  function DecodeSlots(b: seq<byte>, n: nat): (ss: seq<Slot>)
    requires |b| == n * SLOT_SIZE
    ensures |ss| == n
    decreases n
  {
    if n == 0 then [] else [DecodeSlot(b[..SLOT_SIZE])] + DecodeSlots(b[SLOT_SIZE..], n - 1)
  }

  /** The record read from the first RECORD_SIZE bytes of the sector. */
  function Parse(b: seq<byte>): (r: Record)
    requires |b| >= RECORD_SIZE
  {
    Record(LittleEndianU32(b[..WORD]),
           LittleEndianU32(b[WORD..SLOTS_OFFSET]),
           DecodeSlots(b[SLOTS_OFFSET..CRC_OFFSET], MAX_ENTRIES),
           LittleEndianU32(b[CRC_OFFSET..RECORD_SIZE]))
  }

  // ---------------------------------------------------------------------------
  // Round trips

  lemma SlotRoundTrip(s: Slot)
    ensures DecodeSlot(EncodeSlot(s)) == s
  {
    var b := EncodeSlot(s);
    assert b[..MAX_KEY_LEN] == s.key;
    assert b[MAX_KEY_LEN..MAX_KEY_LEN + WORD] == EncodeLittleEndianU32(s.keyLength);
    assert b[MAX_KEY_LEN + WORD..SLOT_SIZE - WORD] == s.value;
    assert b[SLOT_SIZE - WORD..] == EncodeLittleEndianU32(s.valueLength);
    LittleEndianRoundTrip(s.keyLength);
    LittleEndianRoundTrip(s.valueLength);
  }

  lemma SlotDecodeRoundTrip(b: seq<byte>)
    requires |b| == SLOT_SIZE
    ensures EncodeSlot(DecodeSlot(b)) == b
  {
    LittleEndianDecodeRoundTrip(b[MAX_KEY_LEN..MAX_KEY_LEN + WORD]);
    LittleEndianDecodeRoundTrip(b[SLOT_SIZE - WORD..]);
    assert b == b[..MAX_KEY_LEN] + b[MAX_KEY_LEN..MAX_KEY_LEN + WORD]
              + b[MAX_KEY_LEN + WORD..SLOT_SIZE - WORD] + b[SLOT_SIZE - WORD..];
  }

  lemma {:induction false} SlotsRoundTrip(ss: seq<Slot>)
    ensures DecodeSlots(EncodeSlots(ss), |ss|) == ss
    decreases |ss|
  {
    if ss != [] {
      var b := EncodeSlots(ss);
      assert b[..SLOT_SIZE] == EncodeSlot(ss[0]);
      assert b[SLOT_SIZE..] == EncodeSlots(ss[1..]);
      SlotRoundTrip(ss[0]);
      SlotsRoundTrip(ss[1..]);
    }
  }

  lemma {:induction false} SlotsDecodeRoundTrip(b: seq<byte>, n: nat)
    requires |b| == n * SLOT_SIZE
    ensures EncodeSlots(DecodeSlots(b, n)) == b
    decreases n
  {
    if n > 0 {
      var ss := DecodeSlots(b, n);
      assert ss[1..] == DecodeSlots(b[SLOT_SIZE..], n - 1);
      SlotDecodeRoundTrip(b[..SLOT_SIZE]);
      SlotsDecodeRoundTrip(b[SLOT_SIZE..], n - 1);
      assert b == b[..SLOT_SIZE] + b[SLOT_SIZE..];
    }
  }

  /** Reading back the bytes of a record gives the record. */
  lemma ParseSerialize(r: Record)
    ensures Parse(Serialize(r)) == r
  {
    var b := Serialize(r);
    assert b[..WORD] == EncodeLittleEndianU32(r.validFlag);
    assert b[WORD..SLOTS_OFFSET] == EncodeLittleEndianU32(r.entryCount);
    assert b[SLOTS_OFFSET..CRC_OFFSET] == EncodeSlots(r.entries);
    assert b[CRC_OFFSET..RECORD_SIZE] == EncodeLittleEndianU32(r.crc);
    LittleEndianRoundTrip(r.validFlag);
    LittleEndianRoundTrip(r.entryCount);
    LittleEndianRoundTrip(r.crc);
    SlotsRoundTrip(r.entries);
  }

  lemma SplitFour(b: seq<byte>, i: nat, j: nat, k: nat)
    requires i <= j <= k <= |b|
    ensures b == b[..i] + b[i..j] + b[j..k] + b[k..]
  {
  }

  lemma SerializeFields(b: seq<byte>)
    requires |b| == RECORD_SIZE
    ensures Serialize(Parse(b))
         == b[..WORD] + b[WORD..SLOTS_OFFSET] + b[SLOTS_OFFSET..CRC_OFFSET] + b[CRC_OFFSET..]
  {
    assert b[CRC_OFFSET..RECORD_SIZE] == b[CRC_OFFSET..];
    LittleEndianDecodeRoundTrip(b[..WORD]);
    LittleEndianDecodeRoundTrip(b[WORD..SLOTS_OFFSET]);
    LittleEndianDecodeRoundTrip(b[CRC_OFFSET..]);
    SlotsDecodeRoundTrip(b[SLOTS_OFFSET..CRC_OFFSET], MAX_ENTRIES);
  }

  /** Every RECORD_SIZE-byte image is the image of the record it decodes to. */
  lemma SerializeParse(b: seq<byte>)
    requires |b| == RECORD_SIZE
    ensures Serialize(Parse(b)) == b
  {
    SerializeFields(b);
    SplitFour(b, WORD, SLOTS_OFFSET, CRC_OFFSET);
  }

  /** Only the last four bytes of the image depend on the checksum field. */
  lemma CrcFieldIsLast(r: Record, c: u32)
    ensures Serialize(r)[..CRC_OFFSET] == Serialize(r.(crc := c))[..CRC_OFFSET]
  {
  }

  /** The record fits the single sector that a commit erases, with the layout the
      .cpp uses (152-byte slots) and with the header's layout (144-byte slots, no
      length fields). */
  lemma RecordFitsSector()
    ensures RECORD_SIZE == 3964 && RECORD_SIZE <= FLASH_SECTOR_SIZE
    ensures SLOTS_OFFSET + MAX_ENTRIES * (MAX_KEY_LEN + MAX_VALUE_LEN) + WORD == 3756
  {
  }
}
