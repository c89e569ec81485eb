/** The key-value configuration table (KVStore): lookup, update-or-append,
    delete with left shift, the dirty flag that gates the commit to flash, and
    the load that validates the flash record and seeds default values.

    The functions in the first part state what each operation does to the
    record; class KVStore below runs the source's loops over an array of slots
    and is proved to agree with them. */
module ConfigStore {
  import opened Bytes
  import opened Crc32
  import opened Widening
  import opened ConfigLayout

  /** A record as the firmware holds it after a load: correctly sized, flagged
      with the magic word, and with no more entries than slots. */
  predicate ValidRecord(r: Record) {
    r.validFlag == MAGIC && r.entryCount <= MAX_ENTRIES
  }

  /** compareKeys against a stored slot: the lengths are equal and so are the
      bytes. A slot whose stored key length exceeds the key array (possible only
      in a record this firmware did not write) matches no key. */
  predicate Matches(s: Slot, key: seq<byte>)
  {
    s.keyLength == |key| && |key| <= MAX_KEY_LEN && s.key[..|key|] == key
  }

  /** The key a slot holds, if its stored length fits the key array. */
  function KeyOf(s: Slot): Option<seq<byte>>
  {
    if s.keyLength <= MAX_KEY_LEN then Some(s.key[..s.keyLength]) else None
  }

  /** The value a slot holds (getParam builds the string from valueLength bytes;
      a length beyond the value array is clamped to it). */
  function ValueOf(s: Slot): seq<byte>
  {
    s.value[..Min(s.valueLength, MAX_VALUE_LEN)]
  }

  /** Keys are equal only when their lengths and their bytes match. */
  lemma MatchesIffSameKey(s: Slot, key: seq<byte>)
    ensures Matches(s, key) <==> KeyOf(s) == Some(key)
  {
  }

  // ---------------------------------------------------------------------------
  // Lookup

  /** The first entry from index `i` on whose key matches. */
  function FindFrom(r: Record, key: seq<byte>, i: nat): (res: Option<nat>)
    requires ValidRecord(r) && i <= r.entryCount
    ensures res.Some? ==> i <= res.value < r.entryCount && Matches(r.entries[res.value], key)
    ensures res.Some? ==> forall j :: i <= j < res.value ==> !Matches(r.entries[j], key)
    ensures res.None? ==> forall j :: i <= j < r.entryCount ==> !Matches(r.entries[j], key)
    decreases r.entryCount - i
  {
    if i == r.entryCount then None
    else if Matches(r.entries[i], key) then Some(i)
    else FindFrom(r, key, i + 1)
  }

  /** The index of the first entry whose key matches, as the lookup loops find it. */
  function Find(r: Record, key: seq<byte>): Option<nat>
    requires ValidRecord(r)
  {
    FindFrom(r, key, 0)
  }

  /** getParam: the value of the first matching entry, or the empty string. */
  function Get(r: Record, key: seq<byte>): seq<byte>
    requires ValidRecord(r)
  {
    match Find(r, key)
    case Some(i) => ValueOf(r.entries[i])
    case None => []
  }

  /** getParam into a caller buffer: whether the key was found, and the bytes
      copied to the front of the buffer (at most `bufferSize`). */
  function GetInto(r: Record, key: seq<byte>, bufferSize: nat): (res: (bool, seq<byte>))
    requires ValidRecord(r)
    ensures res.0 <==> Find(r, key).Some?
    ensures |res.1| <= bufferSize
    ensures res.0 ==> res.1 == Get(r, key)[..Min(|Get(r, key)|, bufferSize)]
    ensures !res.0 ==> res.1 == []
  {
    match Find(r, key)
    case Some(i) =>
      var s := r.entries[i];
      (true, s.value[..Min(Min(s.valueLength, bufferSize), MAX_VALUE_LEN)])
    case None => (false, [])
  }

  // ---------------------------------------------------------------------------
  // The table as a list of pairs

  datatype Pair = Pair(key: Option<seq<byte>>, value: seq<byte>)

  /** The stored entries in slot order. */
  function Table(r: Record): (t: seq<Pair>)
    requires ValidRecord(r)
    ensures |t| == r.entryCount
  {
    seq(r.entryCount, i requires 0 <= i < r.entryCount => Pair(KeyOf(r.entries[i]), ValueOf(r.entries[i])))
  }

  /** No two entries hold the same key. */
  predicate DistinctKeys(r: Record)
    requires ValidRecord(r)
  {
    forall i, j :: 0 <= i < j < r.entryCount ==>
      KeyOf(r.entries[i]).None? || KeyOf(r.entries[i]) != KeyOf(r.entries[j])
  }

  // ---------------------------------------------------------------------------
  // Update

  /** memcpy of the new value over the front of the value array, and its length. */
  function WriteValue(s: Slot, data: seq<byte>): (t: Slot)
    requires |data| <= MAX_VALUE_LEN
    ensures ValueOf(t) == data && t.key == s.key && t.keyLength == s.keyLength
  {
    s.(value := data + s.value[|data|..], valueLength := |data|)
  }

  /** memcpy of a new key over the front of the key array, and its length. */
  function WriteKey(s: Slot, key: seq<byte>): (t: Slot)
    requires |key| <= MAX_KEY_LEN
    ensures KeyOf(t) == Some(key) && t.value == s.value && t.valueLength == s.valueLength
  {
    s.(key := key + s.key[|key|..], keyLength := |key|)
  }

  /** setParam: reject an oversize key or value; otherwise overwrite the value of
      the first matching entry, or append a new entry when there is room. The
      boolean is what setParam returns. */
  function Set(r: Record, key: seq<byte>, data: seq<byte>): (res: (Record, bool))
    requires ValidRecord(r)
    ensures ValidRecord(res.0)
    ensures res.1 <==> |key| <= MAX_KEY_LEN && |data| <= MAX_VALUE_LEN
                       && (Find(r, key).Some? || r.entryCount < MAX_ENTRIES)
    ensures !res.1 ==> res.0 == r
  {
    if |key| > MAX_KEY_LEN || |data| > MAX_VALUE_LEN then (r, false)
    else
      match Find(r, key)
      case Some(i) =>
        (r.(entries := r.entries[i := WriteValue(r.entries[i], data)]), true)
      case None =>
        if r.entryCount < MAX_ENTRIES then
          var n := r.entryCount;
          (r.(entryCount := n + 1, entries := r.entries[n := WriteValue(WriteKey(r.entries[n], key), data)]), true)
        else (r, false)
  }

  /** deleteParam: remove the first matching entry by moving every later entry
      one slot to the left. The slot that was last keeps its old contents. */
  function Delete(r: Record, key: seq<byte>): (res: (Record, bool))
    requires ValidRecord(r)
    ensures ValidRecord(res.0)
    ensures res.1 <==> Find(r, key).Some?
    ensures !res.1 ==> res.0 == r
  {
    match Find(r, key)
    case Some(i) =>
      var n := r.entryCount;
      (r.(entryCount := n - 1, entries := Shifted(r.entries, i, n)), true)
    case None => (r, false)
  }

  /** The slots after the entry at `i` moved one place left over a table of `n`
      entries; the slot at `n - 1` keeps its contents. */
  function Shifted(a: SlotArray, i: nat, n: nat): (b: SlotArray)
    requires i < n <= MAX_ENTRIES
    ensures forall k :: 0 <= k < MAX_ENTRIES ==> b[k] == if i <= k < n - 1 then a[k + 1] else a[k]
  {
    a[..i] + a[i + 1..n] + a[n - 1..]
  }

  /** Lookup after an update that leaves the first `r.entryCount` slots matching
      `key` exactly as before and adds only slots that do not match. */
  lemma {:induction false} FindUnaffected(r: Record, r': Record, key: seq<byte>, i: nat)
    requires ValidRecord(r) && ValidRecord(r') && i <= r.entryCount <= r'.entryCount
    requires forall j :: i <= j < r.entryCount ==> (Matches(r'.entries[j], key) <==> Matches(r.entries[j], key))
    requires forall j :: r.entryCount <= j < r'.entryCount ==> !Matches(r'.entries[j], key)
    ensures FindFrom(r', key, i) == FindFrom(r, key, i)
    decreases r.entryCount - i
  {
    if i < r.entryCount {
      FindUnaffected(r, r', key, i + 1);
    } else if i < r'.entryCount {
      FindNone(r', key, i);
    }
  }

  lemma {:induction false} FindNone(r: Record, key: seq<byte>, i: nat)
    requires ValidRecord(r) && i <= r.entryCount
    requires forall j :: i <= j < r.entryCount ==> !Matches(r.entries[j], key)
    ensures FindFrom(r, key, i) == None
    decreases r.entryCount - i
  {
    if i < r.entryCount {
      FindNone(r, key, i + 1);
    }
  }

  /** An update of an existing key: the value is replaced in place, the count
      and the order of the entries are kept, and the key now reads back as the
      new value. */
  lemma SetExisting(r: Record, key: seq<byte>, data: seq<byte>)
    requires ValidRecord(r) && |key| <= MAX_KEY_LEN && |data| <= MAX_VALUE_LEN
    requires Find(r, key).Some?
    ensures var (r', ok) := Set(r, key, data);
      ok && r'.entryCount == r.entryCount
      && Table(r') == Table(r)[Find(r, key).value := Pair(Some(key), data)]
      && Get(r', key) == data
  {
    var i := Find(r, key).value;
    var r' := Set(r, key, data).0;
    FindUnaffected(r, r', key, 0);
    MatchesIffSameKey(r.entries[i], key);
  }

  /** A new key is appended at index entry_count while there is room. */
  lemma SetNew(r: Record, key: seq<byte>, data: seq<byte>)
    requires ValidRecord(r) && |key| <= MAX_KEY_LEN && |data| <= MAX_VALUE_LEN
    requires Find(r, key).None? && r.entryCount < MAX_ENTRIES
    ensures var (r', ok) := Set(r, key, data);
      ok && r'.entryCount == r.entryCount + 1
      && Table(r') == Table(r) + [Pair(Some(key), data)]
      && Get(r', key) == data
  {
    var r' := Set(r, key, data).0;
    var n := r.entryCount;
    assert Matches(r'.entries[n], key);
    assert FindFrom(r', key, n) == Some(n);
    FindUnaffected(r, r'.(entryCount := n), key, 0);
    FindPrefix(r', key, n);
  }

  /** The search over the first `n` entries of a table is the search over the
      whole table when none of those entries matched before `n`. */
  lemma {:induction false} FindPrefix(r: Record, key: seq<byte>, n: nat)
    requires ValidRecord(r) && n <= r.entryCount
    ensures FindFrom(r.(entryCount := n), key, 0).None? ==> FindFrom(r, key, 0) == FindFrom(r, key, n)
  {
    if FindFrom(r.(entryCount := n), key, 0).None? {
      FindSkip(r, key, 0, n);
    }
  }

  lemma {:induction false} FindSkip(r: Record, key: seq<byte>, i: nat, n: nat)
    requires ValidRecord(r) && i <= n <= r.entryCount
    requires forall j :: i <= j < n ==> !Matches(r.entries[j], key)
    ensures FindFrom(r, key, i) == FindFrom(r, key, n)
    decreases n - i
  {
    if i < n {
      FindSkip(r, key, i + 1, n);
    }
  }

  /** With 26 keys stored, a new key is refused and the table is unchanged. */
  lemma SetFull(r: Record, key: seq<byte>, data: seq<byte>)
    requires ValidRecord(r) && r.entryCount == MAX_ENTRIES && Find(r, key).None?
    ensures Set(r, key, data) == (r, false)
  {
  }

  /** Updating one key does not change what any other key reads back. */
  lemma SetOthersUnchanged(r: Record, key: seq<byte>, data: seq<byte>, other: seq<byte>)
    requires ValidRecord(r) && other != key
    ensures Get(Set(r, key, data).0, other) == Get(r, other)
  {
    var (r', ok) := Set(r, key, data);
    if ok {
      forall j | 0 <= j < r.entryCount
        ensures Matches(r'.entries[j], other) <==> Matches(r.entries[j], other)
      {
        if r'.entries[j] != r.entries[j] {
          MatchesIffSameKey(r.entries[j], key);
          MatchesIffSameKey(r.entries[j], other);
        }
      }
      forall j | r.entryCount <= j < r'.entryCount
        ensures !Matches(r'.entries[j], other)
      {
        MatchesIffSameKey(r'.entries[j], other);
      }
      FindUnaffected(r, r', other, 0);
    }
  }

  /** Because setParam updates the first match before it appends, it never
      creates a second entry with the same key. */
  lemma SetKeepsKeysDistinct(r: Record, key: seq<byte>, data: seq<byte>)
    requires ValidRecord(r) && DistinctKeys(r)
    ensures DistinctKeys(Set(r, key, data).0)
  {
    var (r', ok) := Set(r, key, data);
    if ok && Find(r, key).None? {
      var n := r.entryCount;
      forall i | 0 <= i < n && KeyOf(r.entries[i]).Some?
        ensures KeyOf(r'.entries[i]) != KeyOf(r'.entries[n])
      {
        MatchesIffSameKey(r.entries[i], key);
      }
    }
  }

  /** Deleting a key removes exactly its entry; the later entries keep their order. */
  lemma DeleteRemoves(r: Record, key: seq<byte>)
    requires ValidRecord(r) && Find(r, key).Some?
    ensures var (r', ok) := Delete(r, key);
      var i := Find(r, key).value;
      ok && r'.entryCount == r.entryCount - 1
      && Table(r') == Table(r)[..i] + Table(r)[i + 1..]
  {
    var (r', ok) := Delete(r, key);
    var i := Find(r, key).value;
    assert forall j :: 0 <= j < r'.entryCount ==> r'.entries[j] == if j < i then r.entries[j] else r.entries[j + 1];
  }

  /** In a table without repeated keys, a deleted key no longer reads back, and
      the keys stay distinct. */
  lemma DeleteThenGet(r: Record, key: seq<byte>)
    requires ValidRecord(r) && DistinctKeys(r)
    ensures Get(Delete(r, key).0, key) == []
    ensures DistinctKeys(Delete(r, key).0)
  {
    var (r', ok) := Delete(r, key);
    if ok {
      var i := Find(r, key).value;
      assert forall j :: 0 <= j < r'.entryCount ==> r'.entries[j] == if j < i then r.entries[j] else r.entries[j + 1];
      forall j | 0 <= j < r'.entryCount
        ensures !Matches(r'.entries[j], key)
      {
        if j >= i {
          MatchesIffSameKey(r.entries[i], key);
          MatchesIffSameKey(r.entries[j + 1], key);
        }
      }
      FindNone(r', key, 0);
    }
  }

  // ---------------------------------------------------------------------------
  // Commit and load

  /** The store as a whole: the record in RAM, the dirty flag and the sector. */
  datatype Store = Store(record: Record, dirty: bool, flash: seq<byte>)

  /** The record with its checksum field filled in: the CRC-32 of its image taken
      with the field zeroed. */
  function Sealed(r: Record): (s: Record)
    ensures s.(crc := 0) == r.(crc := 0)
  {
    r.(crc := WordValue(Checksum(Serialize(r.(crc := 0)))))
  }

  /** The sector after erasing it and programming the sealed record at its start. */
  function Image(r: Record): (f: seq<byte>)
    ensures |f| == FLASH_SECTOR_SIZE
    ensures f[..RECORD_SIZE] == Serialize(Sealed(r))
  {
    var image := Serialize(Sealed(r));
    image + Erased(FLASH_SECTOR_SIZE - |image|)
  }

  /** `n` bytes in the erased state. */
  function Erased(n: nat): (e: seq<byte>)
    ensures |e| == n && forall i :: 0 <= i < n ==> e[i] == ERASED
  {
    seq(n, _ => ERASED)
  }

  /** commitToFlash: nothing when clean; otherwise seal the record, program it,
      and clear the dirty flag. The boolean is what commitToFlash returns. */
  function Commit(s: Store): (res: (Store, bool))
    requires ValidRecord(s.record)
    ensures res.1 == s.dirty && !res.0.dirty
    ensures !res.1 ==> res.0 == s
    ensures res.1 ==> res.0.record.(crc := 0) == s.record.(crc := 0) && res.0.flash == Image(s.record)
  {
    if !s.dirty then (s, false)
    else (Store(Sealed(s.record), false, Image(s.record)), true)
  }

  /** What a commit of a dirty store leaves behind. */
  lemma CommitWrites(s: Store)
    requires ValidRecord(s.record) && s.dirty
    ensures var sealed := Sealed(s.record);
      Commit(s) == (Store(sealed, false, Serialize(sealed) + Erased(FLASH_SECTOR_SIZE - RECORD_SIZE)), true)
  {
  }

  /** A second commit with no change in between returns false and does nothing. */
  lemma CommitTwice(s: Store)
    requires ValidRecord(s.record)
    ensures var s' := Commit(s).0; ValidRecord(s'.record) && Commit(s') == (s', false)
  {
  }

  /** setParam on the whole store: the dirty flag is set when it succeeds. */
  function StoreSet(s: Store, key: seq<byte>, data: seq<byte>): (res: (Store, bool))
    requires ValidRecord(s.record)
    ensures ValidRecord(res.0.record) && res.0.flash == s.flash
    ensures res.0.dirty == (s.dirty || res.1)
    ensures (res.0.record, res.1) == Set(s.record, key, data)
  {
    var (r, ok) := Set(s.record, key, data);
    (Store(r, s.dirty || ok, s.flash), ok)
  }

  /** deleteParam on the whole store. */
  function StoreDelete(s: Store, key: seq<byte>): (res: (Store, bool))
    requires ValidRecord(s.record)
    ensures ValidRecord(res.0.record) && res.0.flash == s.flash
    ensures res.0.dirty == (s.dirty || res.1)
    ensures (res.0.record, res.1) == Delete(s.record, key)
  {
    var (r, ok) := Delete(s.record, key);
    (Store(r, s.dirty || ok, s.flash), ok)
  }

  /** The record loadFromFlash keeps, before the defaults are applied: the
      sector's record with its checksum field zeroed, or the empty record when
      the magic word is wrong, the count exceeds 26 or the checksum differs. */
  function Checked(flash: seq<byte>): (r: Record)
    requires |flash| >= RECORD_SIZE
    ensures ValidRecord(r) && r.crc == 0
    ensures r == EmptyRecord() || r == Parse(flash).(crc := 0)
  {
    ChecksumChecked(HeaderChecked(Parse(flash)))
  }

  /** The first check: a wrong magic word or a count above 26 resets the record. */
  function HeaderChecked(r: Record): (r': Record)
    ensures ValidRecord(r')
    ensures r' == r || r' == EmptyRecord()
    ensures ValidRecord(r) ==> r' == r
  {
    if r.validFlag != MAGIC || r.entryCount > MAX_ENTRIES then EmptyRecord() else r
  }

  /** The second check: the stored checksum is compared with the checksum of the
      record taken with the field zeroed, which stays zeroed; a mismatch resets
      the record. */
  function ChecksumChecked(r: Record): (r': Record)
    requires ValidRecord(r)
    ensures ValidRecord(r') && r'.crc == 0
    ensures r' == r.(crc := 0) || r' == EmptyRecord()
  {
    var stored := r.crc;
    var zeroed := r.(crc := 0);
    if stored != WordValue(Checksum(Serialize(zeroed))) then EmptyRecord() else zeroed
  }

  /** One default: set it when its key reads back empty. */
  function SeedOne(r: Record, dirty: bool, d: (seq<byte>, seq<byte>)): (res: (Record, bool))
    requires ValidRecord(r)
    ensures ValidRecord(res.0)
  {
    if Get(r, d.0) == [] then
      var (r', ok) := Set(r, d.0, d.1);
      (r', dirty || ok)
    else (r, dirty)
  }

  /** The defaults applied in order. */
  function SeedDefaults(r: Record, dirty: bool, defaults: seq<(seq<byte>, seq<byte>)>): (res: (Record, bool))
    requires ValidRecord(r)
    ensures ValidRecord(res.0)
    decreases |defaults|
  {
    if defaults == [] then (r, dirty)
    else
      var (r', d') := SeedDefaults(r, dirty, defaults[..|defaults| - 1]);
      SeedOne(r', d', defaults[|defaults| - 1])
  }

  /** The constructor: the dirty flag starts false, the sector is checked, and
      the defaults are seeded. */
  function Load(flash: seq<byte>, defaults: seq<(seq<byte>, seq<byte>)>): (s: Store)
    requires |flash| >= RECORD_SIZE
    ensures ValidRecord(s.record) && s.flash == flash
  {
    var (r, dirty) := SeedDefaults(Checked(flash), false, defaults);
    Store(r, dirty, flash)
  }

  lemma ParsePrefix(b: seq<byte>)
    requires |b| >= RECORD_SIZE
    ensures Parse(b) == Parse(b[..RECORD_SIZE])
  {
    assert b[..RECORD_SIZE][..WORD] == b[..WORD];
    assert b[..RECORD_SIZE][WORD..SLOTS_OFFSET] == b[WORD..SLOTS_OFFSET];
    assert b[..RECORD_SIZE][SLOTS_OFFSET..CRC_OFFSET] == b[SLOTS_OFFSET..CRC_OFFSET];
    assert b[..RECORD_SIZE][CRC_OFFSET..RECORD_SIZE] == b[CRC_OFFSET..RECORD_SIZE];
  }

  /** A record written by commit passes all three checks of the load and reads
      back as the record that was committed. */
  lemma CommitLoadRoundTrip(r: Record)
    requires ValidRecord(r)
    ensures Checked(Image(r)) == r.(crc := 0)
  {
    ParsePrefix(Image(r));
    ParseSerialize(Sealed(r));
  }

  /** The image checksummed on load: the sector's record bytes with the checksum
      field zeroed. */
  lemma ZeroedImage(b: seq<byte>)
    requires |b| == RECORD_SIZE
    ensures Serialize(Parse(b).(crc := 0)) == b[..CRC_OFFSET] + EncodeLittleEndianU32(0)
  {
    var r := Parse(b);
    SerializeParse(b);
    CrcFieldIsLast(r, 0);
    var z := Serialize(r.(crc := 0));
    assert z == z[..CRC_OFFSET] + z[CRC_OFFSET..];
  }

  /** The load resets the table whenever the stored checksum is not the
      checksum of the image with the checksum field zeroed. */
  lemma CheckedRejectsMismatch(flash: seq<byte>)
    requires |flash| >= RECORD_SIZE
    requires var r := Parse(flash); r.crc != WordValue(Checksum(Serialize(r.(crc := 0))))
    ensures Checked(flash) == EmptyRecord()
  {
  }

  /** A committed image carries, in its last field, the checksum of its other bytes
      followed by a zeroed field. */
  lemma SealedImage(r: Record)
    requires ValidRecord(r)
    ensures var g := Serialize(Sealed(r));
      LittleEndianU32(g[CRC_OFFSET..]) == WordValue(Checksum(g[..CRC_OFFSET] + EncodeLittleEndianU32(0)))
  {
    var g := Serialize(Sealed(r));
    ParseSerialize(Sealed(r));
    ZeroedImage(g);
    LittleEndianRoundTrip(Sealed(r).crc);
  }

  /** A corrupted byte before the checksum field changes the computed checksum. */
  lemma CorruptBody(good: seq<byte>, bad: seq<byte>, p: nat)
    requires |good| == |bad| == RECORD_SIZE && p < CRC_OFFSET && good[p] != bad[p]
    requires forall i :: 0 <= i < |good| && i != p ==> good[i] == bad[i]
    requires LittleEndianU32(good[CRC_OFFSET..]) == WordValue(Checksum(good[..CRC_OFFSET] + EncodeLittleEndianU32(0)))
    ensures LittleEndianU32(bad[CRC_OFFSET..]) != WordValue(Checksum(bad[..CRC_OFFSET] + EncodeLittleEndianU32(0)))
  {
    ZeroedChecksumsDiffer(good, bad, p);
    assert bad[CRC_OFFSET..] == good[CRC_OFFSET..];
  }

  lemma ZeroedChecksumsDiffer(good: seq<byte>, bad: seq<byte>, p: nat)
    requires |good| == |bad| == RECORD_SIZE && p < CRC_OFFSET && good[p] != bad[p]
    requires forall i :: 0 <= i < |good| && i != p ==> good[i] == bad[i]
    ensures WordValue(Checksum(good[..CRC_OFFSET] + EncodeLittleEndianU32(0)))
         != WordValue(Checksum(bad[..CRC_OFFSET] + EncodeLittleEndianU32(0)))
  {
    var z, z' := good[..CRC_OFFSET] + EncodeLittleEndianU32(0), bad[..CRC_OFFSET] + EncodeLittleEndianU32(0);
    DifferPrefix(good, bad, p, CRC_OFFSET);
    DifferAppend(good[..CRC_OFFSET], bad[..CRC_OFFSET], p, EncodeLittleEndianU32(0));
    SingleByteErrorDetected(z, z', p);
    WordValueInjective(Checksum(z), Checksum(z'));
  }

  lemma DifferPrefix(a: seq<byte>, b: seq<byte>, p: nat, n: nat)
    requires |a| == |b| && p < n <= |a| && a[p] != b[p]
    requires forall i :: 0 <= i < |a| && i != p ==> a[i] == b[i]
    ensures a[..n][p] != b[..n][p]
    ensures forall i :: 0 <= i < n && i != p ==> a[..n][i] == b[..n][i]
  {
  }

  lemma DifferAppend(a: seq<byte>, b: seq<byte>, p: nat, c: seq<byte>)
    requires |a| == |b| && p < |a| && a[p] != b[p]
    requires forall i :: 0 <= i < |a| && i != p ==> a[i] == b[i]
    ensures (a + c)[p] != (b + c)[p]
    ensures forall i :: 0 <= i < |a + c| && i != p ==> (a + c)[i] == (b + c)[i]
  {
  }

  /** A corrupted byte of the checksum field changes the stored checksum. */
  lemma CorruptChecksum(good: seq<byte>, bad: seq<byte>, p: nat)
    requires |good| == |bad| == RECORD_SIZE && CRC_OFFSET <= p < RECORD_SIZE && good[p] != bad[p]
    requires forall i :: 0 <= i < |good| && i != p ==> good[i] == bad[i]
    requires LittleEndianU32(good[CRC_OFFSET..]) == WordValue(Checksum(good[..CRC_OFFSET] + EncodeLittleEndianU32(0)))
    ensures LittleEndianU32(bad[CRC_OFFSET..]) != WordValue(Checksum(bad[..CRC_OFFSET] + EncodeLittleEndianU32(0)))
  {
    assert good[..CRC_OFFSET] == bad[..CRC_OFFSET];
    assert good[CRC_OFFSET..][p - CRC_OFFSET] != bad[CRC_OFFSET..][p - CRC_OFFSET];
    LittleEndianDecodeRoundTrip(good[CRC_OFFSET..]);
    LittleEndianDecodeRoundTrip(bad[CRC_OFFSET..]);
  }

  /** Every corruption of a single byte of a committed record makes the load
      reset the table. */
  lemma SingleByteCorruptionResets(r: Record, flash: seq<byte>, p: nat)
    requires ValidRecord(r) && |flash| == FLASH_SECTOR_SIZE && p < RECORD_SIZE
    requires flash[p] != Image(r)[p]
    requires forall i :: 0 <= i < |flash| && i != p ==> flash[i] == Image(r)[i]
    ensures Checked(flash) == EmptyRecord()
  {
    var good, bad := Image(r)[..RECORD_SIZE], flash[..RECORD_SIZE];
    SealedImage(r);
    if p < CRC_OFFSET {
      CorruptBody(good, bad, p);
    } else {
      CorruptChecksum(good, bad, p);
    }
    ParsePrefix(flash);
    ZeroedImage(bad);
    CheckedRejectsMismatch(flash);
  }

  /** After the load, a default whose key was missing (or stored empty) and that
      fits and finds room reads back as its default value; defaults already
      present keep their stored value. */
  lemma {:induction false} DefaultsSeeded(r: Record, dirty: bool, defaults: seq<(seq<byte>, seq<byte>)>, k: nat)
    requires ValidRecord(r) && k < |defaults|
    requires forall i, j :: 0 <= i < j < |defaults| ==> defaults[i].0 != defaults[j].0
    requires |defaults[k].0| <= MAX_KEY_LEN && |defaults[k].1| <= MAX_VALUE_LEN
    requires r.entryCount + |defaults| <= MAX_ENTRIES
    ensures var g := Get(SeedDefaults(r, dirty, defaults).0, defaults[k].0);
      g == (if Get(r, defaults[k].0) == [] then defaults[k].1 else Get(r, defaults[k].0))
    decreases |defaults|
  {
    var n := |defaults| - 1;
    var prefix := defaults[..n];
    var (r', d') := SeedDefaults(r, dirty, prefix);
    SeedCount(r, dirty, prefix);
    var key, value := defaults[n].0, defaults[n].1;
    if k < n {
      DefaultsSeeded(r, dirty, prefix, k);
      if Get(r', key) == [] {
        SetOthersUnchanged(r', key, value, defaults[k].0);
      }
    } else {
      SeedUntouched(r, dirty, prefix, key);
      if Get(r', key) == [] {
        if Find(r', key).Some? {
          SetExisting(r', key, value);
        } else {
          SetNew(r', key, value);
        }
      }
    }
  }

  /** Seeding adds at most one entry per default. */
  lemma {:induction false} SeedCount(r: Record, dirty: bool, defaults: seq<(seq<byte>, seq<byte>)>)
    requires ValidRecord(r)
    ensures SeedDefaults(r, dirty, defaults).0.entryCount <= r.entryCount + |defaults|
    decreases |defaults|
  {
    if defaults != [] {
      SeedCount(r, dirty, defaults[..|defaults| - 1]);
    }
  }

  /** Seeding other keys leaves what `key` reads back unchanged. */
  lemma {:induction false} SeedUntouched(r: Record, dirty: bool, defaults: seq<(seq<byte>, seq<byte>)>, key: seq<byte>)
    requires ValidRecord(r)
    requires forall i :: 0 <= i < |defaults| ==> defaults[i].0 != key
    ensures Get(SeedDefaults(r, dirty, defaults).0, key) == Get(r, key)
    decreases |defaults|
  {
    if defaults != [] {
      var prefix := defaults[..|defaults| - 1];
      SeedUntouched(r, dirty, prefix, key);
      var (r', d') := SeedDefaults(r, dirty, prefix);
      var last := defaults[|defaults| - 1];
      SetOthersUnchanged(r', last.0, last.1, key);
    }
  }

  // ---------------------------------------------------------------------------
  // The store object

  /** KVStore: the record in RAM (its slots in a fixed array), the dirty flag,
      the default values given at construction and the flash sector that holds
      the persisted record. */
  class KVStore {
    var validFlag: u32
    var entryCount: u32
    const entries: array<Slot>
    var crc: u32
    var hasChanged: bool
    const defaultValues: seq<(seq<byte>, seq<byte>)>
    var flash: seq<byte>

    /** The record the fields and the slot array hold. */
    function Contents(): Record
      requires entries.Length == MAX_ENTRIES
      reads this, entries
    {
      Record(validFlag, entryCount, entries[..], crc)
    }

    /** The record, the dirty flag and the sector together. */
    function State(): Store
      requires entries.Length == MAX_ENTRIES
      reads this, entries
    {
      Store(Contents(), hasChanged, flash)
    }

    /** The record is one this firmware keeps in RAM, and the sector has its size. */
    predicate Valid()
      reads this
    {
      entries.Length == MAX_ENTRIES && validFlag == MAGIC && entryCount <= MAX_ENTRIES
      && |flash| == FLASH_SECTOR_SIZE
    }

    /** Loads the record from the sector and seeds the defaults; the dirty flag
        starts false and is set when a default was stored. */
    constructor(defaults: seq<(seq<byte>, seq<byte>)>, sector: seq<byte>)
      requires |sector| == FLASH_SECTOR_SIZE
      ensures Valid() && State() == Load(sector, defaults) && defaultValues == defaults
      ensures fresh(entries)
    {
      validFlag, entryCount, crc := 0, 0, 0;
      entries := new Slot[MAX_ENTRIES](_ => BLANK_SLOT);
      hasChanged := false;
      defaultValues := defaults;
      flash := sector;
      new;
      LoadFromFlash();
    }

    /** memset of the record and the magic word. */
    method Reset()
      requires entries.Length == MAX_ENTRIES
      modifies this, entries
      ensures Contents() == EmptyRecord()
      ensures hasChanged == old(hasChanged) && flash == old(flash)
    {
      validFlag, entryCount, crc := MAGIC, 0, 0;
      forall i | 0 <= i < MAX_ENTRIES {
        entries[i] := BLANK_SLOT;
      }
      assert entries[..] == EmptyRecord().entries;
    }

    /** loadFromFlash: copy the record out of the sector, reset it when the magic
        word, the count or the checksum is wrong, then store every default whose
        key reads back empty. */
    method LoadFromFlash()
      requires entries.Length == MAX_ENTRIES && |flash| == FLASH_SECTOR_SIZE
      modifies this, entries
      ensures Valid() && flash == old(flash)
      ensures (Contents(), hasChanged) == SeedDefaults(Checked(flash), old(hasChanged), defaultValues)
    {
      LoadChecked();
      ApplyDefaults();
    }

    /** The memcpy out of the sector and the three checks of loadFromFlash. */
    method LoadChecked()
      requires entries.Length == MAX_ENTRIES && |flash| == FLASH_SECTOR_SIZE
      modifies this, entries
      ensures hasChanged == old(hasChanged) && flash == old(flash)
      ensures Contents() == Checked(flash)
    {
      CopyFromFlash();
      CheckHeader();
      CheckChecksum();
    }

    /** The magic word and count check of loadFromFlash. */
    method CheckHeader()
      requires entries.Length == MAX_ENTRIES
      modifies this, entries
      ensures hasChanged == old(hasChanged) && flash == old(flash)
      ensures Contents() == HeaderChecked(old(Contents()))
    {
      if validFlag != MAGIC || entryCount > MAX_ENTRIES {
        Reset();
      }
    }

    /** The checksum check of loadFromFlash. */
    method CheckChecksum()
      requires entries.Length == MAX_ENTRIES && validFlag == MAGIC && entryCount <= MAX_ENTRIES
      modifies this, entries
      ensures hasChanged == old(hasChanged) && flash == old(flash)
      ensures Contents() == ChecksumChecked(old(Contents()))
    {
      var stored := crc;
      crc := 0;
      var calculated := CalculateCrc32(Serialize(Contents()));
      if stored != WordValue(calculated) {
        Reset();
      }
    }

    /** memcpy of the first sizeof(kv_store_t) bytes of the sector into the record. */
    method CopyFromFlash()
      requires entries.Length == MAX_ENTRIES && |flash| == FLASH_SECTOR_SIZE
      modifies this, entries
      ensures hasChanged == old(hasChanged) && flash == old(flash)
      ensures Contents() == Parse(flash)
    {
      Install(Parse(flash));
    }

    /** The memcpy into the record: every field and slot takes the given value. */
    method Install(r: Record)
      requires entries.Length == MAX_ENTRIES && |r.entries| == MAX_ENTRIES
      modifies this, entries
      ensures hasChanged == old(hasChanged) && flash == old(flash)
      ensures Contents() == r
    {
      validFlag, entryCount, crc := r.validFlag, r.entryCount, r.crc;
      forall i | 0 <= i < MAX_ENTRIES {
        entries[i] := r.entries[i];
      }
      assert entries[..] == r.entries;
    }

    /** The defaults loop of loadFromFlash. */
    method ApplyDefaults()
      requires Valid()
      modifies this, entries
      ensures Valid() && flash == old(flash)
      ensures (Contents(), hasChanged) == SeedDefaults(old(Contents()), old(hasChanged), defaultValues)
    {
      var k := 0;
      while k < |defaultValues|
        invariant 0 <= k <= |defaultValues|
        invariant Valid() && flash == old(flash)
        invariant (Contents(), hasChanged) == SeedDefaults(old(Contents()), old(hasChanged), defaultValues[..k])
      {
        assert defaultValues[..k + 1][..k] == defaultValues[..k];
        ApplyDefault(defaultValues[k]);
        k := k + 1;
      }
      assert defaultValues[..k] == defaultValues;
    }

    /** One pass of the defaults loop: set the default when its key reads back empty. */
    method ApplyDefault(d: (seq<byte>, seq<byte>))
      requires Valid()
      modifies this, entries
      ensures Valid() && flash == old(flash)
      ensures (Contents(), hasChanged) == SeedOne(old(Contents()), old(hasChanged), d)
    {
      var (key, value) := d;
      var current := GetParam(key);
      if current == [] {
        var _ := SetParam(key, value);
      }
    }

    /** getParam: the value of the first entry whose key matches, or empty. */
    method GetParam(key: seq<byte>) returns (v: seq<byte>)
      requires Valid()
      ensures v == Get(Contents(), key)
    {
      var i := 0;
      while i < entryCount
        invariant 0 <= i <= entryCount
        invariant Find(Contents(), key) == FindFrom(Contents(), key, i)
      {
        if Matches(entries[i], key) {
          var s := entries[i];
          return s.value[..Min(s.valueLength, MAX_VALUE_LEN)];
        }
        i := i + 1;
      }
      return [];
    }

    /** getParam into a buffer: copies at most buffer.Length bytes of the value
        to the front of the buffer and tells whether the key was found. */
    method GetParamInto(key: seq<byte>, buffer: array<byte>) returns (found: bool)
      requires Valid()
      modifies buffer
      ensures var (f, copied) := GetInto(Contents(), key, buffer.Length);
        found == f && buffer[..|copied|] == copied && buffer[|copied|..] == old(buffer[|copied|..])
    {
      var i := 0;
      while i < entryCount
        invariant 0 <= i <= entryCount
        invariant Find(Contents(), key) == FindFrom(Contents(), key, i)
      {
        if Matches(entries[i], key) {
          var s := entries[i];
          var size := Min(Min(s.valueLength, buffer.Length), MAX_VALUE_LEN);
          forall j | 0 <= j < size {
            buffer[j] := s.value[j];
          }
          assert GetInto(Contents(), key, buffer.Length) == (true, s.value[..size]);
          assert buffer[..size] == s.value[..size];
          return true;
        }
        i := i + 1;
      }
      return false;
    }

    /** setParam: update the first matching entry, or append, or refuse. */
    method SetParam(key: seq<byte>, data: seq<byte>) returns (ok: bool)
      requires Valid()
      modifies this, entries
      ensures Valid() && flash == old(flash)
      ensures (Contents(), ok) == Set(old(Contents()), key, data)
      ensures hasChanged == (old(hasChanged) || ok)
    {
      if |key| > MAX_KEY_LEN || |data| > MAX_VALUE_LEN {
        return false;
      }
      var i := 0;
      while i < entryCount
        invariant 0 <= i <= entryCount
        invariant Find(Contents(), key) == FindFrom(Contents(), key, i)
      {
        if Matches(entries[i], key) {
          entries[i] := WriteValue(entries[i], data);
          hasChanged := true;
          return true;
        }
        i := i + 1;
      }
      if entryCount < MAX_ENTRIES {
        entries[entryCount] := WriteValue(WriteKey(entries[entryCount], key), data);
        entryCount := entryCount + 1;
        hasChanged := true;
        return true;
      }
      return false;
    }

    /** deleteParam: move every entry after the first match one slot left and
        decrement the count. */
    method DeleteParam(key: seq<byte>) returns (ok: bool)
      requires Valid()
      modifies this, entries
      ensures Valid() && flash == old(flash)
      ensures (Contents(), ok) == Delete(old(Contents()), key)
      ensures hasChanged == (old(hasChanged) || ok)
    {
      var i := 0;
      while i < entryCount
        invariant 0 <= i <= entryCount
        invariant Find(Contents(), key) == FindFrom(Contents(), key, i)
      {
        if Matches(entries[i], key) {
          ShiftLeft(i);
          entryCount := entryCount - 1;
          hasChanged := true;
          return true;
        }
        i := i + 1;
      }
      return false;
    }

    /** The shift loop of deleteParam. */
    method ShiftLeft(i: nat)
      requires entries.Length == MAX_ENTRIES && i < entryCount <= MAX_ENTRIES
      modifies entries
      ensures entries[..] == Shifted(old(entries[..]), i, entryCount)
    {
      var n := entryCount;
      var j := i;
      while j < n - 1
        invariant i <= j <= n - 1
        invariant forall k :: 0 <= k < MAX_ENTRIES ==> entries[k] == if i <= k < j then old(entries[k + 1]) else old(entries[k])
      {
        entries[j] := entries[j + 1];
        j := j + 1;
      }
    }

    /** commitToFlash: when dirty, zero the checksum field, checksum the record,
        erase the sector, program the record into it and clear the flag. */
    method CommitToFlash() returns (committed: bool)
      requires Valid()
      modifies this
      ensures Valid()
      ensures (State(), committed) == Commit(old(State()))
    {
      if !hasChanged {
        return false;
      }
      ghost var before := State();
      Seal();
      Program();
      hasChanged := false;
      CommitWrites(before);
      assert State() == Commit(before).0;
      return true;
    }

    /** The checksum step of commitToFlash: zero the field, then store the
        checksum of the whole record in it. */
    method Seal()
      requires Valid()
      modifies this
      ensures Valid() && hasChanged == old(hasChanged) && flash == old(flash)
      ensures Contents() == Sealed(old(Contents()))
    {
      crc := 0;
      ghost var zeroed := Contents();
      var c := CalculateCrc32(Serialize(Contents()));
      crc := WordValue(c);
      assert Contents() == zeroed.(crc := WordValue(c));
    }

    /** flash_range_erase of the sector, then flash_range_program of the record
        at its start. */
    method Program()
      requires Valid()
      modifies this
      ensures Valid() && hasChanged == old(hasChanged) && Contents() == old(Contents())
      ensures flash == Serialize(Contents()) + Erased(FLASH_SECTOR_SIZE - RECORD_SIZE)
    {
      var image := Serialize(Contents());
      flash := image + Erased(FLASH_SECTOR_SIZE - |image|);
    }
  }
}
