/** UsbHandler (src/usb_handler/usb_handler.cpp): the command loop on the USB
    serial port. Each command is "multiverse:" and a four-byte code, followed
    by the fields its handler reads. The functions below say what a command
    does to the store, the frame buffer, the console and the unread input;
    class UsbHandler runs the source's handlers and is proved to agree. */
module Usb {
  import opened Bytes
  import opened ConfigLayout
  import opened ConfigStore
  import opened Protocol
  import opened Reassembly
  import opened Serial
  import Matrix

  /** The sizes of the handlers' buffers. */
  const COMMAND_LEN: nat := 4
  const CONFIG_KEY_LEN: nat := 16
  const CONFIG_VALUE_LEN: nat := 128

  /** The field separator ':' and the escape byte '\'. */
  const SEPARATOR: byte := COLON
  const ESCAPE: byte := 0x5C

  /** What a serial command touches: the store, the frame buffer, the requests
      to the console and the chip, and the input not read yet. */
  datatype Device = Device(store: Store, frame: seq<byte>, events: seq<Event>, input: seq<byte>)

  predicate Ready(d: Device) {
    ValidRecord(d.store.record) && |d.frame| == Matrix.BUFFER_SIZE
  }

  /** The unescaped text of a field as the host writes it. */
  function Escaped(s: seq<byte>): seq<byte> {
    Escape(s, SEPARATOR, ESCAPE)
  }

  // ---------------------------------------------------------------------------
  // The handlers

  /** handleSet with key and value buffers of the given sizes: a key field,
      then a value field, then setParam when both are non-empty. What
      setParam returns is not looked at. */
  function SetWith(d: Device, keyLen: nat, valueLen: nat): (d': Device)
    requires Ready(d) && keyLen >= 1 && valueLen >= 1
    ensures Ready(d')
  {
    var (key, rest) := Field(d.input, keyLen, SEPARATOR, ESCAPE);
    if key == [] then d.(input := rest)
    else
      var (value, rest') := Field(rest, valueLen, SEPARATOR, ESCAPE);
      if value == [] then d.(input := rest')
      else d.(store := StoreSet(d.store, key, value).0,
              events := d.events + [Print("Set " + Chars(key) + " to " + Chars(value))],
              input := rest')
  }

  /** handleSet, with its 16- and 128-byte buffers. */
  function SetHandled(d: Device): (d': Device)
    requires Ready(d)
    ensures Ready(d')
  {
    SetWith(d, CONFIG_KEY_LEN, CONFIG_VALUE_LEN)
  }

  /** handleGet: print the value of a non-empty key. */
  function GetHandled(d: Device): (d': Device)
    requires Ready(d)
    ensures Ready(d') && d'.store == d.store && d'.frame == d.frame
  {
    var (key, rest) := Field(d.input, CONFIG_KEY_LEN, SEPARATOR, ESCAPE);
    if key == [] then d.(input := rest)
    else d.(events := d.events + [Print(Chars(key) + " = " + Chars(Get(d.store.record, key)))], input := rest)
  }

  /** handleDelete: delete a non-empty key and say whether it was there. */
  function DeleteHandled(d: Device): (d': Device)
    requires Ready(d)
    ensures Ready(d') && d'.frame == d.frame
  {
    var (key, rest) := Field(d.input, CONFIG_KEY_LEN, SEPARATOR, ESCAPE);
    if key == [] then d.(input := rest)
    else
      var (s, ok) := StoreDelete(d.store, key);
      var text := if ok then "Deleted key: " + Chars(key) else "Key not found: " + Chars(key);
      d.(store := s, events := d.events + [Print(text)], input := rest)
  }

  /** handleData: getBytes of a whole frame straight into the frame buffer,
      which it zero-fills first; the frame is shown only when complete. */
  function DataHandled(d: Device): (d': Device)
    requires Ready(d)
    ensures Ready(d') && d'.store == d.store
  {
    var n := Min(Matrix.BUFFER_SIZE, |d.input|);
    d.(frame := d.input[..n] + Zeros(Matrix.BUFFER_SIZE - n),
       events := d.events + (if n == Matrix.BUFFER_SIZE then [Update] else []),
       input := d.input[n..])
  }

  /** handleZippedData: a little-endian uint32 size, refused above the frame
      size, a buffer from malloc (`allocOk`), the compressed bytes, and
      uncompress into the frame buffer; the frame is shown only when zlib
      returns Z_OK with exactly a frame's worth of bytes. */
  function ZippedHandled(d: Device, allocOk: bool, inflate: seq<byte> -> Inflated): (d': Device)
    requires Ready(d)
    ensures Ready(d') && d'.store == d.store
  {
    if |d.input| < 4 then d.(input := [])
    else
      var size := LittleEndianU32(d.input[..4]);
      var rest := d.input[4..];
      if size > Matrix.BUFFER_SIZE || !allocOk then d.(input := rest)
      else if |rest| < size then d.(input := [])
      else
        Unpacked(d.(input := rest[size..]), rest[..size], inflate)
  }

  /** uncompress into the frame buffer, and the test of its result. */
  function Unpacked(d: Device, data: seq<byte>, inflate: seq<byte> -> Inflated): (d': Device)
    requires Ready(d)
    ensures Ready(d') && d'.store == d.store && d'.input == d.input
  {
    var z := inflate(data);
    d.(frame := Overwrite(d.frame, z.output),
       events := d.events + (if z.ok && |z.output| == Matrix.BUFFER_SIZE then [Update] else []))
  }

  /** The reply to "stor": which one depends on what commitToFlash returned. */
  function CommitMessage(committed: bool): string {
    if committed then "Config written to flash" else "Flash already up to date"
  }

  /** processCommand. RSET and BOOT print and end in a reboot; a code that
      matches no branch does nothing. */
  function Processed(d: Device, command: string, net: Network, allocOk: bool, inflate: seq<byte> -> Inflated): (d': Device)
    requires Ready(d)
    ensures Ready(d')
  {
    if command == SET then SetHandled(d)
    else if command == GET then GetHandled(d)
    else if command == DELETE then DeleteHandled(d)
    else if command == DATA then DataHandled(d)
    else if command == ZIPPED then ZippedHandled(d, allocOk, inflate)
    else if command == RESET then d.(events := d.events + [Print("RST"), Reboot])
    else if command == BOOTLOADER then d.(events := d.events + [Print("USB"), BootSelect])
    else if command == IPV4 then d.(events := d.events + [Print("IP: " + net.ipv4)])
    else if command == IPV6 then d.(events := d.events + [Print("IPV6: " + net.ipv6)])
    else if command == WRITE then
      var (s, ok) := Commit(d.store);
      d.(store := s, events := d.events + [Print(CommitMessage(ok))])
    else d
  }

  /** One turn of the loop in start: wait for the prefix, read the code, and
      run the command. */
  function Stepped(d: Device, net: Network, allocOk: bool, inflate: seq<byte> -> Inflated): (d': Device)
    requires Ready(d)
    ensures Ready(d')
  {
    var (ok, rest) := Awaited(d.input, Ascii(MESSAGE_PREFIX));
    if !ok then d.(input := rest)
    else if |rest| < COMMAND_LEN then d.(input := [])
    else Processed(d.(input := rest[COMMAND_LEN..]), Chars(rest[..COMMAND_LEN]), net, allocOk, inflate)
  }

  // ---------------------------------------------------------------------------
  // What the handlers promise

  /** A key and a value that fit their buffers with room for the separator are
      stored, and the input after the value's separator is left. */
  lemma SetOverUsb(d: Device, key: seq<byte>, value: seq<byte>, rest: seq<byte>)
    requires Ready(d) && key != [] && value != []
    requires |key| < CONFIG_KEY_LEN - 1 && |value| < CONFIG_VALUE_LEN - 1
    ensures var sent := d.(input := Escaped(key) + [SEPARATOR] + Escaped(value) + [SEPARATOR] + rest);
            SetHandled(sent) == d.(store := StoreSet(d.store, key, value).0,
                                   events := d.events + [Print("Set " + Chars(key) + " to " + Chars(value))],
                                   input := rest)
  {
    var tail := Escaped(value) + [SEPARATOR] + rest;
    assert Escaped(key) + [SEPARATOR] + Escaped(value) + [SEPARATOR] + rest == Escaped(key) + [SEPARATOR] + tail;
    ScanRoundTrip(key, tail, CONFIG_KEY_LEN - 1, SEPARATOR, ESCAPE);
    ScanRoundTrip(value, rest, CONFIG_VALUE_LEN - 1, SEPARATOR, ESCAPE);
  }

  /** setParam is called only when both fields are non-empty. */
  lemma EmptyFieldSkipsSet(d: Device)
    requires Ready(d)
    requires var (key, rest) := Field(d.input, CONFIG_KEY_LEN, SEPARATOR, ESCAPE);
             key == [] || Field(rest, CONFIG_VALUE_LEN, SEPARATOR, ESCAPE).0 == []
    ensures var d' := SetHandled(d); d'.store == d.store && d'.events == d.events && d'.frame == d.frame
  {
  }

  /** A key of 15 bytes fills the key buffer before its separator is read, so
      the value field is empty and nothing is stored. */
  lemma FifteenByteKeyIgnored(d: Device, key: seq<byte>, value: seq<byte>, rest: seq<byte>)
    requires Ready(d) && |key| == CONFIG_KEY_LEN - 1
    ensures var sent := d.(input := Escaped(key) + [SEPARATOR] + Escaped(value) + [SEPARATOR] + rest);
            SetHandled(sent).store == d.store && SetHandled(sent).events == d.events
  {
    var tail := [SEPARATOR] + Escaped(value) + [SEPARATOR] + rest;
    assert Escaped(key) + [SEPARATOR] + Escaped(value) + [SEPARATOR] + rest == Escaped(key) + tail;
    ScanTruncates(key, tail, CONFIG_KEY_LEN - 1, SEPARATOR, ESCAPE);
    assert key[CONFIG_KEY_LEN - 1..] == [];
    assert Escaped([]) + tail == tail;
  }

  /** A key of 16 bytes, which setParam accepts, loses its last byte to the
      value field: the first 15 bytes are stored with the 16th as the value. */
  lemma SixteenByteKeySplit(d: Device, key: seq<byte>, value: seq<byte>, rest: seq<byte>)
    requires Ready(d) && |key| == CONFIG_KEY_LEN && key[15] != SEPARATOR && key[15] != ESCAPE
    ensures var sent := d.(input := Escaped(key) + [SEPARATOR] + Escaped(value) + [SEPARATOR] + rest);
            SetHandled(sent).store == StoreSet(d.store, key[..15], key[15..]).0
  {
    var tail := [SEPARATOR] + Escaped(value) + [SEPARATOR] + rest;
    assert Escaped(key) + [SEPARATOR] + Escaped(value) + [SEPARATOR] + rest == Escaped(key) + tail;
    ScanTruncates(key, tail, CONFIG_KEY_LEN - 1, SEPARATOR, ESCAPE);
    var last := key[15..];
    assert Escaped(last) == last + [];
    ScanRoundTrip(last, Escaped(value) + [SEPARATOR] + rest, CONFIG_VALUE_LEN - 1, SEPARATOR, ESCAPE);
    assert Escaped(last) + tail == Escaped(last) + [SEPARATOR] + (Escaped(value) + [SEPARATOR] + rest);
  }

  /** With key and value buffers two bytes longer than the store's limits,
      every key and value the store accepts is read and stored. */
  lemma SetWithRoomStoresEveryKey(d: Device, key: seq<byte>, value: seq<byte>, rest: seq<byte>)
    requires Ready(d) && key != [] && value != []
    requires |key| <= MAX_KEY_LEN && |value| <= MAX_VALUE_LEN
    ensures var sent := d.(input := Escaped(key) + [SEPARATOR] + Escaped(value) + [SEPARATOR] + rest);
            var d' := SetWith(sent, MAX_KEY_LEN + 2, MAX_VALUE_LEN + 2);
            d'.store == StoreSet(d.store, key, value).0 && StoreSet(d.store, key, value).1 == Set(d.store.record, key, value).1
            && d'.input == rest
  {
    var tail := Escaped(value) + [SEPARATOR] + rest;
    assert Escaped(key) + [SEPARATOR] + Escaped(value) + [SEPARATOR] + rest == Escaped(key) + [SEPARATOR] + tail;
    ScanRoundTrip(key, tail, MAX_KEY_LEN + 1, SEPARATOR, ESCAPE);
    ScanRoundTrip(value, rest, MAX_VALUE_LEN + 1, SEPARATOR, ESCAPE);
  }

  /** A get prints the stored value of the key sent. */
  lemma GetOverUsb(d: Device, key: seq<byte>, rest: seq<byte>)
    requires Ready(d) && key != [] && |key| < CONFIG_KEY_LEN - 1
    ensures GetHandled(d.(input := Escaped(key) + [SEPARATOR] + rest))
            == d.(events := d.events + [Print(Chars(key) + " = " + Chars(Get(d.store.record, key)))], input := rest)
  {
    ScanRoundTrip(key, rest, CONFIG_KEY_LEN - 1, SEPARATOR, ESCAPE);
  }

  /** A delete removes the key sent and reports whether it was there. */
  lemma DeleteOverUsb(d: Device, key: seq<byte>, rest: seq<byte>)
    requires Ready(d) && key != [] && |key| < CONFIG_KEY_LEN - 1
    ensures var d' := DeleteHandled(d.(input := Escaped(key) + [SEPARATOR] + rest));
            d'.store == StoreDelete(d.store, key).0 && d'.input == rest
            && d'.events == d.events + [Print((if Find(d.store.record, key).Some? then "Deleted key: " else "Key not found: ") + Chars(key))]
  {
    ScanRoundTrip(key, rest, CONFIG_KEY_LEN - 1, SEPARATOR, ESCAPE);
  }

  /** A whole frame is copied and shown; a short one is zero-filled and not shown. */
  lemma DataFrame(d: Device)
    requires Ready(d)
    ensures var d' := DataHandled(d);
            (|d.input| >= Matrix.BUFFER_SIZE ==> d'.frame == d.input[..Matrix.BUFFER_SIZE] && d'.events == d.events + [Update])
    ensures var d' := DataHandled(d);
            |d.input| < Matrix.BUFFER_SIZE ==>
              d'.frame == d.input + Zeros(Matrix.BUFFER_SIZE - |d.input|) && d'.events == d.events && d'.input == []
  {
    if |d.input| >= Matrix.BUFFER_SIZE {
      assert Zeros(0) == [];
    } else {
      assert d.input[..|d.input|] == d.input;
    }
  }

  /** A declared size above the frame size is refused before anything else is
      read: only the four size bytes are consumed. */
  lemma ZippedOversizeRefused(d: Device, size: u32, rest: seq<byte>, allocOk: bool, inflate: seq<byte> -> Inflated)
    requires Ready(d) && size > Matrix.BUFFER_SIZE
    ensures ZippedHandled(d.(input := EncodeLittleEndianU32(size) + rest), allocOk, inflate) == d.(input := rest)
  {
    var input := EncodeLittleEndianU32(size) + rest;
    assert input[..4] == EncodeLittleEndianU32(size);
    assert input[4..] == rest;
    LittleEndianRoundTrip(size);
  }

  /** The frame is shown exactly when zlib succeeds with a full frame. */
  lemma ZippedShownIffFullFrame(d: Device, data: seq<byte>, rest: seq<byte>, inflate: seq<byte> -> Inflated)
    requires Ready(d) && |data| <= Matrix.BUFFER_SIZE
    ensures var d' := ZippedHandled(d.(input := EncodeLittleEndianU32(|data|) + data + rest), true, inflate);
            var z := inflate(data);
            d'.frame == Overwrite(d.frame, z.output) && d'.input == rest
            && (d'.events == d.events + [Update] <==> z.ok && |z.output| == Matrix.BUFFER_SIZE)
            && (d'.events == d.events <==> !(z.ok && |z.output| == Matrix.BUFFER_SIZE))
  {
    var input := EncodeLittleEndianU32(|data|) + data + rest;
    assert input[..4] == EncodeLittleEndianU32(|data|);
    assert input[4..] == data + rest;
    assert (data + rest)[..|data|] == data;
    assert (data + rest)[|data|..] == rest;
    LittleEndianRoundTrip(|data|);
  }

  /** "stor" says the record was written exactly when commitToFlash wrote it. */
  lemma StoreReportsCommit(d: Device, net: Network, allocOk: bool, inflate: seq<byte> -> Inflated)
    requires Ready(d)
    ensures var d' := Processed(d, WRITE, net, allocOk, inflate);
            (d'.events == d.events + [Print("Config written to flash")] <==> d.store.dirty)
            && d'.store == Commit(d.store).0
  {
    var d' := Processed(d, WRITE, net, allocOk, inflate);
    assert d'.events == d.events + [Print(CommitMessage(d.store.dirty))];
    if !d.store.dirty {
      assert d'.events[|d.events|].text[0] == 'F';
    }
  }

  /** A framed command is read and run, whatever follows it. */
  lemma CommandOverUsb(d: Device, command: string, rest: seq<byte>, net: Network, allocOk: bool, inflate: seq<byte> -> Inflated)
    requires Ready(d) && |command| == COMMAND_LEN && IsAscii(command)
    ensures Stepped(d.(input := Ascii(MESSAGE_PREFIX) + Ascii(command) + rest), net, allocOk, inflate)
            == Processed(d.(input := rest), command, net, allocOk, inflate)
  {
    var input := Ascii(MESSAGE_PREFIX) + Ascii(command) + rest;
    var after := input[|Ascii(MESSAGE_PREFIX)|..];
    assert after == Ascii(command) + rest;
    assert after[..COMMAND_LEN] == Ascii(command);
    assert after[COMMAND_LEN..] == rest;
    AsciiChars(command);
  }

  // ---------------------------------------------------------------------------
  // The handler

  class UsbHandler {
    const kvStore: KVStore
    const port: SerialPort
    /** matrix::buffer. */
    const frame: array<byte>
    /** What the handler has asked of the console and the chip, in order. */
    var events: seq<Event>

    predicate Valid()
      reads this, kvStore
    {
      kvStore.Valid() && frame.Length == Matrix.BUFFER_SIZE
    }

    function Snapshot(): Device
      requires kvStore.entries.Length == MAX_ENTRIES
      reads this, kvStore, kvStore.entries, frame, port
    {
      Device(kvStore.State(), frame[..], events, port.input)
    }

    constructor(store: KVStore, serial: SerialPort, buffer: array<byte>)
      requires store.Valid() && buffer.Length == Matrix.BUFFER_SIZE
      ensures Valid() && kvStore == store && port == serial && frame == buffer && events == []
    {
      kvStore, port, frame := store, serial, buffer;
      events := [];
    }

    method Say(text: string)
      modifies this
      ensures events == old(events) + [Print(text)]
    {
      events := events + [Print(text)];
    }

    /** The body of the loop in start. */
    method Step(net: Network, allocOk: bool, inflate: seq<byte> -> Inflated)
      requires Valid()
      modifies this, port, kvStore, kvStore.entries, frame
      ensures Valid() && Snapshot() == Stepped(old(Snapshot()), net, allocOk, inflate)
    {
      ghost var d := Snapshot();
      var ok := port.WaitFor(Ascii(MESSAGE_PREFIX));
      if !ok {
        return;
      }
      ghost var rest := port.input;
      var commandBuffer := new byte[COMMAND_LEN];
      var n := port.GetBytes(commandBuffer, COMMAND_LEN);
      if n != COMMAND_LEN {
        return;
      }
      assert commandBuffer[..] == rest[..COMMAND_LEN];
      assert Snapshot() == d.(input := rest[COMMAND_LEN..]);
      ProcessCommand(Chars(commandBuffer[..]), net, allocOk, inflate);
    }

    /** processCommand. */
    method ProcessCommand(command: string, net: Network, allocOk: bool, inflate: seq<byte> -> Inflated)
      requires Valid()
      modifies this, port, kvStore, kvStore.entries, frame
      ensures Valid() && Snapshot() == Processed(old(Snapshot()), command, net, allocOk, inflate)
    {
      if command == SET {
        HandleSet();
      } else if command == GET {
        HandleGet();
      } else if command == DELETE {
        HandleDelete();
      } else if command == DATA {
        HandleData();
      } else if command == ZIPPED {
        HandleZippedData(allocOk, inflate);
      } else if command == RESET || command == BOOTLOADER {
        HandleSystemCommand(command);
      } else if command == IPV4 {
        Say("IP: " + net.ipv4);
      } else if command == IPV6 {
        Say("IPV6: " + net.ipv6);
      } else if command == WRITE {
        var committed := kvStore.CommitToFlash();
        if committed {
          Say("Config written to flash");
        } else {
          Say("Flash already up to date");
        }
      }
    }

    /** handleSet. */
    method HandleSet()
      requires Valid()
      modifies this, port, kvStore, kvStore.entries
      ensures Valid() && Snapshot() == SetHandled(old(Snapshot()))
    {
      var keyBuffer := new byte[CONFIG_KEY_LEN];
      var valueBuffer := new byte[CONFIG_VALUE_LEN];
      var keyLength := port.GetUntil(keyBuffer, CONFIG_KEY_LEN, SEPARATOR, ESCAPE);
      if keyLength > 0 {
        var valueLength := port.GetUntil(valueBuffer, CONFIG_VALUE_LEN, SEPARATOR, ESCAPE);
        if valueLength > 0 {
          var key, value := keyBuffer[..keyLength], valueBuffer[..valueLength];
          var _ := kvStore.SetParam(key, value);
          Say("Set " + Chars(key) + " to " + Chars(value));
        }
      }
    }

    /** handleGet. */
    method HandleGet()
      requires Valid()
      modifies this, port
      ensures Valid() && Snapshot() == GetHandled(old(Snapshot()))
    {
      var keyBuffer := new byte[CONFIG_KEY_LEN];
      var keyLength := port.GetUntil(keyBuffer, CONFIG_KEY_LEN, SEPARATOR, ESCAPE);
      if keyLength > 0 {
        var key := keyBuffer[..keyLength];
        var value := kvStore.GetParam(key);
        Say(Chars(key) + " = " + Chars(value));
      }
    }

    /** handleDelete. */
    method HandleDelete()
      requires Valid()
      modifies this, port, kvStore, kvStore.entries
      ensures Valid() && Snapshot() == DeleteHandled(old(Snapshot()))
    {
      var keyBuffer := new byte[CONFIG_KEY_LEN];
      var keyLength := port.GetUntil(keyBuffer, CONFIG_KEY_LEN, SEPARATOR, ESCAPE);
      if keyLength > 0 {
        var key := keyBuffer[..keyLength];
        var deleted := kvStore.DeleteParam(key);
        if deleted {
          Say("Deleted key: " + Chars(key));
        } else {
          Say("Key not found: " + Chars(key));
        }
      }
    }

    /** handleData. */
    method HandleData()
      requires Valid()
      modifies this, port, frame
      ensures Valid() && Snapshot() == DataHandled(old(Snapshot()))
    {
      var n := port.GetBytes(frame, Matrix.BUFFER_SIZE);
      if n == Matrix.BUFFER_SIZE {
        events := events + [Update];
      }
      assert frame[..] == frame[..n] + frame[n..];
    }

    /** handleZippedData. */
    method HandleZippedData(allocOk: bool, inflate: seq<byte> -> Inflated)
      requires Valid()
      modifies this, port, frame
      ensures Valid() && Snapshot() == ZippedHandled(old(Snapshot()), allocOk, inflate)
    {
      ghost var d := Snapshot();
      var sizeBuffer := new byte[4];
      var n := port.GetBytes(sizeBuffer, 4);
      if n != 4 {
        return;
      }
      assert sizeBuffer[..] == d.input[..4];
      var compressedSize := LittleEndianU32(sizeBuffer[..]);
      if compressedSize > Matrix.BUFFER_SIZE {
        return;
      }
      if !allocOk {
        return;
      }
      var compressed := new byte[compressedSize];
      ghost var rest := port.input;
      var m := port.GetBytes(compressed, compressedSize);
      if m != compressedSize {
        return;
      }
      assert compressed[..] == rest[..compressedSize];
      assert Snapshot() == d.(input := rest[compressedSize..]);
      Uncompress(compressed[..], inflate);
    }

    /** uncompress into the frame buffer, then matrix::update when it worked. */
    method Uncompress(data: seq<byte>, inflate: seq<byte> -> Inflated)
      requires Valid()
      modifies this, frame
      ensures Valid() && Snapshot() == Unpacked(old(Snapshot()), data, inflate)
    {
      var z := inflate(data);
      CopyToFrame(z.output);
      if z.ok && |z.output| == Matrix.BUFFER_SIZE {
        events := events + [Update];
      }
    }

    /** What uncompress writes into the frame buffer. */
    method CopyToFrame(data: seq<byte>)
      modifies frame
      ensures frame[..] == Overwrite(old(frame[..]), data)
    {
      var n := Min(|data|, frame.Length);
      forall i | 0 <= i < n {
        frame[i] := data[i];
      }
      assert frame[..] == Overwrite(old(frame[..]), data);
    }

    /** handleSystemCommand: print, then reboot or enter the boot loader. */
    method HandleSystemCommand(command: string)
      requires Valid() && (command == RESET || command == BOOTLOADER)
      modifies this
      ensures Valid()
      ensures command == RESET ==> events == old(events) + [Print("RST"), Reboot]
      ensures command == BOOTLOADER ==> events == old(events) + [Print("USB"), BootSelect]
    {
      if command == RESET {
        Say("RST");
        events := events + [Reboot];
      } else if command == BOOTLOADER {
        Say("USB");
        events := events + [BootSelect];
      }
    }
  }
}
