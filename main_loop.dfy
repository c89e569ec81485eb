/** The older firmware entry point (src/main.cpp): the default settings handed
    to the store, and the command loop on the USB serial port. It reads with
    the same primitives as UsbHandler (module Serial), but its codes, its
    messages and its "set:" reply differ. */
module MainLoop {
  import opened Bytes
  import opened ConfigLayout
  import opened ConfigStore
  import opened Protocol
  import opened Reassembly
  import opened Serial
  import opened Usb
  import Wifi
  import Matrix

  // ---------------------------------------------------------------------------
  // Defaults

  /** The defaults map of main, in the order its entries are listed. */
  const DEFAULTS: seq<(seq<byte>, seq<byte>)> := [
    (Ascii("ssid"), Ascii("MyNetwork")),
    (Ascii("pass"), Ascii("DefaultPass")),
    (Ascii("port"), Ascii("8080")),
    (Ascii("wifi_auth"), Ascii("16777220")),
    (Ascii("color_order"), Ascii("BGR"))]

  /** The defaults have distinct keys, and every one fits the store. */
  lemma DefaultsFit()
    ensures forall i, j :: 0 <= i < j < |DEFAULTS| ==> DEFAULTS[i].0 != DEFAULTS[j].0
    ensures forall i :: 0 <= i < |DEFAULTS| ==> |DEFAULTS[i].0| <= MAX_KEY_LEN && |DEFAULTS[i].1| <= MAX_VALUE_LEN
  {
    assert DEFAULTS[0].0[0] == 's' as int && DEFAULTS[1].0[0] == 'p' as int && DEFAULTS[2].0[0] == 'p' as int;
    assert DEFAULTS[3].0[0] == 'w' as int && DEFAULTS[4].0[0] == 'c' as int;
    assert DEFAULTS[1].0[1] == 'a' as int && DEFAULTS[2].0[1] == 'o' as int;
  }

  /** On a sector that fails its checks, every default reads back after the
      load. */
  lemma DefaultsOnBlankSector(flash: seq<byte>, k: nat)
    requires |flash| >= RECORD_SIZE && Checked(flash) == EmptyRecord() && k < |DEFAULTS|
    ensures Get(Load(flash, DEFAULTS).record, DEFAULTS[k].0) == DEFAULTS[k].1
  {
    DefaultsFit();
    DefaultsSeeded(EmptyRecord(), false, DEFAULTS, k);
  }

  /** Appending one digit to the decimal form of n / 10 gives that of n. */
  lemma DecimalDigit(n: nat, prefix: seq<byte>)
    requires n >= 10 && prefix == Decimal(n / 10)
    ensures prefix + [ZERO + n % 10] == Decimal(n)
  {
  }

  /** The bytes of the default wifi_auth text. */
  lemma AuthBytes()
    ensures Ascii("16777220") == [0x31, 0x36, 0x37, 0x37, 0x37, 0x32, 0x32, 0x30]
  {
  }

  /** The decimal form of 16777220, digit by digit. */
  lemma AuthDigits()
    ensures Decimal(16777220) == [0x31, 0x36, 0x37, 0x37, 0x37, 0x32, 0x32, 0x30]
  {
    DecimalDigit(16, [0x31]);
    assert [0x31] + [ZERO + 6] == [0x31, 0x36];
    DecimalDigit(167, [0x31, 0x36]);
    assert [0x31, 0x36] + [ZERO + 7] == [0x31, 0x36, 0x37];
    DecimalDigit(1677, [0x31, 0x36, 0x37]);
    assert [0x31, 0x36, 0x37] + [ZERO + 7] == [0x31, 0x36, 0x37, 0x37];
    DecimalDigit(16777, [0x31, 0x36, 0x37, 0x37]);
    assert [0x31, 0x36, 0x37, 0x37] + [ZERO + 7] == [0x31, 0x36, 0x37, 0x37, 0x37];
    DecimalDigit(167772, [0x31, 0x36, 0x37, 0x37, 0x37]);
    assert [0x31, 0x36, 0x37, 0x37, 0x37] + [ZERO + 2] == [0x31, 0x36, 0x37, 0x37, 0x37, 0x32];
    DecimalDigit(1677722, [0x31, 0x36, 0x37, 0x37, 0x37, 0x32]);
    assert [0x31, 0x36, 0x37, 0x37, 0x37, 0x32] + [ZERO + 2] == [0x31, 0x36, 0x37, 0x37, 0x37, 0x32, 0x32];
    DecimalDigit(16777220, [0x31, 0x36, 0x37, 0x37, 0x37, 0x32, 0x32]);
    assert [0x31, 0x36, 0x37, 0x37, 0x37, 0x32, 0x32] + [ZERO] == [0x31, 0x36, 0x37, 0x37, 0x37, 0x32, 0x32, 0x30];
  }

  /** The default wifi_auth text is WPA3-SAE AES, one of the four modes
      connect_wifi tries. */
  lemma DefaultAuthIsWpa3()
    ensures Wifi.Stoi(DEFAULTS[3].1) == Some(Wifi.WPA3_SAE_AES_PSK as int)
    ensures Wifi.WPA3_SAE_AES_PSK in Wifi.AUTH_MODES
  {
    AuthBytes();
    AuthDigits();
    Wifi.DefaultModeIsKnown();
  }

  // ---------------------------------------------------------------------------
  // The commands of the loop

  /** "set:": like handleSet, but every outcome is reported, and a success is
      reported with the value read back from the store. */
  function MainSet(d: Device): (d': Device)
    requires Ready(d)
    ensures Ready(d') && d'.frame == d.frame
  {
    var (key, rest) := Field(d.input, CONFIG_KEY_LEN, SEPARATOR, ESCAPE);
    if key == [] then d.(events := d.events + [Print("No valid data received")], input := rest)
    else
      var (value, rest') := Field(rest, CONFIG_VALUE_LEN, SEPARATOR, ESCAPE);
      if value == [] then
        d.(events := d.events + [Print("Key " + Chars(key) + " received but no value")], input := rest')
      else
        var (s, ok) := StoreSet(d.store, key, value);
        var text := if ok then "Key " + Chars(key) + " set to " + Chars(Get(s.record, key))
                    else "Failed to set key " + Chars(key) + " to " + Chars(value);
        d.(store := s, events := d.events + [Print(text)], input := rest')
  }

  /** "del:". */
  function MainDelete(d: Device): (d': Device)
    requires Ready(d)
    ensures Ready(d') && d'.frame == d.frame
  {
    var (key, rest) := Field(d.input, CONFIG_KEY_LEN, SEPARATOR, ESCAPE);
    if key == [] then d.(input := rest)
    else
      var (s, ok) := StoreDelete(d.store, key);
      var text := "Key " + Chars(key) + (if ok then " deleted" else " does not exist");
      d.(store := s, events := d.events + [Print(text)], input := rest)
  }

  /** "zdat": as handleZippedData, with "nosize" printed when the size is short. */
  function MainZipped(d: Device, allocOk: bool, inflate: seq<byte> -> Inflated): (d': Device)
    requires Ready(d)
    ensures Ready(d') && d'.store == d.store
  {
    if |d.input| < 4 then d.(events := d.events + [Print("nosize")], input := [])
    else ZippedHandled(d, allocOk, inflate)
  }

  /** One command of the loop. "get:", "data" and "stor" behave as in
      UsbHandler; "ipv4" and "ipv6" print the bare address; a code that matches
      no branch is ignored. */
  function MainProcessed(d: Device, command: string, net: Network, allocOk: bool, inflate: seq<byte> -> Inflated): (d': Device)
    requires Ready(d)
    ensures Ready(d')
  {
    if command == OLD_SET then MainSet(d)
    else if command == OLD_GET then GetHandled(d)
    else if command == OLD_DELETE then MainDelete(d)
    else if command == IPV4 then d.(events := d.events + [Print(net.ipv4)])
    else if command == IPV6 then d.(events := d.events + [Print(net.ipv6)])
    else if command == WRITE then
      var (s, ok) := Commit(d.store);
      d.(store := s, events := d.events + [Print(CommitMessage(ok))])
    else if command == DATA then DataHandled(d)
    else if command == OLD_ZIPPED then MainZipped(d, allocOk, inflate)
    else if command == OLD_RESET then d.(events := d.events + [Print("RST"), Reboot])
    else if command == OLD_BOOT then d.(events := d.events + [Print("USB"), BootSelect])
    else d
  }

  /** One turn of the loop: wait for the prefix, read the code, run it. */
  function MainStepped(d: Device, net: Network, allocOk: bool, inflate: seq<byte> -> Inflated): (d': Device)
    requires Ready(d)
    ensures Ready(d')
  {
    var (ok, rest) := Awaited(d.input, Ascii(MESSAGE_PREFIX));
    if !ok then d.(input := rest)
    else if |rest| < COMMAND_LEN then d.(input := [])
    else MainProcessed(d.(input := rest[COMMAND_LEN..]), Chars(rest[..COMMAND_LEN]), net, allocOk, inflate)
  }

  // ---------------------------------------------------------------------------
  // What the loop promises

  /** "set:" writes only when both fields are non-empty, and reports success
      exactly when setParam returned true, with the value it stored. */
  lemma SetReportsOutcome(d: Device, key: seq<byte>, value: seq<byte>, rest: seq<byte>)
    requires Ready(d) && key != [] && value != []
    requires |key| < CONFIG_KEY_LEN - 1 && |value| < CONFIG_VALUE_LEN - 1
    ensures var d' := MainSet(d.(input := Escaped(key) + [SEPARATOR] + Escaped(value) + [SEPARATOR] + rest));
            var (s, ok) := StoreSet(d.store, key, value);
            d'.store == s && d'.input == rest
            && (ok ==> d'.events == d.events + [Print("Key " + Chars(key) + " set to " + Chars(value))])
            && (!ok ==> d'.events == d.events + [Print("Failed to set key " + Chars(key) + " to " + Chars(value))])
  {
    var tail := Escaped(value) + [SEPARATOR] + rest;
    assert Escaped(key) + [SEPARATOR] + Escaped(value) + [SEPARATOR] + rest == Escaped(key) + [SEPARATOR] + tail;
    ScanRoundTrip(key, tail, CONFIG_KEY_LEN - 1, SEPARATOR, ESCAPE);
    ScanRoundTrip(value, rest, CONFIG_VALUE_LEN - 1, SEPARATOR, ESCAPE);
    if Find(d.store.record, key).Some? {
      SetExisting(d.store.record, key, value);
    } else if d.store.record.entryCount < MAX_ENTRIES {
      SetNew(d.store.record, key, value);
    }
  }

  /** An empty key field writes nothing and says so. */
  lemma SetWithoutKey(d: Device, rest: seq<byte>)
    requires Ready(d)
    ensures MainSet(d.(input := [SEPARATOR] + rest)) == d.(events := d.events + [Print("No valid data received")], input := rest)
  {
  }

  /** "stor" says "Config written to flash" exactly when commitToFlash returned true. */
  lemma MainStoreReportsCommit(d: Device, net: Network, allocOk: bool, inflate: seq<byte> -> Inflated)
    requires Ready(d)
    ensures var d' := MainProcessed(d, WRITE, net, allocOk, inflate);
            (d'.events == d.events + [Print("Config written to flash")] <==> Commit(d.store).1)
            && d'.store == Commit(d.store).0
  {
    var d' := MainProcessed(d, WRITE, net, allocOk, inflate);
    assert d'.events == d.events + [Print(CommitMessage(d.store.dirty))];
    if !d.store.dirty {
      assert d'.events[|d.events|].text[0] == 'F';
    }
  }

  /** A code that matches no branch changes nothing but the input it was read from. */
  lemma UnknownCodeIgnored(d: Device, command: string, net: Network, allocOk: bool, inflate: seq<byte> -> Inflated)
    requires Ready(d)
    requires command !in {OLD_SET, OLD_GET, OLD_DELETE, IPV4, IPV6, WRITE, DATA, OLD_ZIPPED, OLD_RESET, OLD_BOOT}
    ensures MainProcessed(d, command, net, allocOk, inflate) == d
  {
  }

  /** The frame is shown only after zlib returns Z_OK with a full frame. */
  lemma ZdatShownIffFullFrame(d: Device, data: seq<byte>, rest: seq<byte>, inflate: seq<byte> -> Inflated)
    requires Ready(d) && |data| <= Matrix.BUFFER_SIZE
    ensures var d' := MainZipped(d.(input := EncodeLittleEndianU32(|data|) + data + rest), true, inflate);
            var z := inflate(data);
            d'.frame == Overwrite(d.frame, z.output) && d'.input == rest
            && (d'.events == d.events + [Update] <==> z.ok && |z.output| == Matrix.BUFFER_SIZE)
  {
    ZippedShownIffFullFrame(d, data, rest, inflate);
  }

  // ---------------------------------------------------------------------------
  // The loop

  /** The state main's loop works on: the store, the serial port and
      display::buffer. */
  class CommandLoop {
    const kvStore: KVStore
    const port: SerialPort
    const frame: array<byte>
    var events: seq<Event>

    predicate Valid()
      reads this, kvStore
    {
      kvStore.Valid() && frame.Length == Matrix.BUFFER_SIZE
    }

    function Snapshot(): Device
      requires kvStore.entries.Length == MAX_ENTRIES
      reads this, kvStore, kvStore.entries, frame, port
    {
      Device(kvStore.State(), frame[..], events, port.input)
    }

    constructor(store: KVStore, serial: SerialPort, buffer: array<byte>)
      requires store.Valid() && buffer.Length == Matrix.BUFFER_SIZE
      ensures Valid() && kvStore == store && port == serial && frame == buffer && events == []
    {
      kvStore, port, frame := store, serial, buffer;
      events := [];
    }

    method Say(text: string)
      modifies this
      ensures events == old(events) + [Print(text)]
    {
      events := events + [Print(text)];
    }

    /** The body of the while loop. */
    method Step(net: Network, allocOk: bool, inflate: seq<byte> -> Inflated)
      requires Valid()
      modifies this, port, kvStore, kvStore.entries, frame
      ensures Valid() && Snapshot() == MainStepped(old(Snapshot()), net, allocOk, inflate)
    {
      ghost var d := Snapshot();
      var ok := port.WaitFor(Ascii(MESSAGE_PREFIX));
      if !ok {
        return;
      }
      ghost var rest := port.input;
      var commandBuffer := new byte[COMMAND_LEN];
      var n := port.GetBytes(commandBuffer, COMMAND_LEN);
      if n != COMMAND_LEN {
        return;
      }
      assert commandBuffer[..] == rest[..COMMAND_LEN];
      assert Snapshot() == d.(input := rest[COMMAND_LEN..]);
      Dispatch(Chars(commandBuffer[..]), net, allocOk, inflate);
    }

    /** The chain of comparisons with the command buffer. */
    method Dispatch(command: string, net: Network, allocOk: bool, inflate: seq<byte> -> Inflated)
      requires Valid()
      modifies this, port, kvStore, kvStore.entries, frame
      ensures Valid() && Snapshot() == MainProcessed(old(Snapshot()), command, net, allocOk, inflate)
    {
      if command == OLD_SET {
        Set();
      } else if command == OLD_GET {
        Get();
      } else if command == OLD_DELETE {
        Delete();
      } else if command == IPV4 {
        Say(net.ipv4);
      } else if command == IPV6 {
        Say(net.ipv6);
      } else if command == WRITE {
        var committed := kvStore.CommitToFlash();
        if committed {
          Say("Config written to flash");
        } else {
          Say("Flash already up to date");
        }
      } else if command == DATA {
        Data();
      } else if command == OLD_ZIPPED {
        Zipped(allocOk, inflate);
      } else if command == OLD_RESET {
        Say("RST");
        events := events + [Reboot];
      } else if command == OLD_BOOT {
        Say("USB");
        events := events + [BootSelect];
      }
    }

    /** "set:". */
    method Set()
      requires Valid()
      modifies this, port, kvStore, kvStore.entries
      ensures Valid() && Snapshot() == MainSet(old(Snapshot()))
    {
      var keyBuffer := new byte[CONFIG_KEY_LEN];
      var valueBuffer := new byte[CONFIG_VALUE_LEN];
      var keyLength := port.GetUntil(keyBuffer, CONFIG_KEY_LEN, SEPARATOR, ESCAPE);
      if keyLength > 0 {
        var valueLength := port.GetUntil(valueBuffer, CONFIG_VALUE_LEN, SEPARATOR, ESCAPE);
        if valueLength > 0 {
          var key, value := keyBuffer[..keyLength], valueBuffer[..valueLength];
          var ok := kvStore.SetParam(key, value);
          if ok {
            var stored := kvStore.GetParam(key);
            Say("Key " + Chars(key) + " set to " + Chars(stored));
          } else {
            Say("Failed to set key " + Chars(key) + " to " + Chars(value));
          }
        } else {
          Say("Key " + Chars(keyBuffer[..keyLength]) + " received but no value");
        }
      } else {
        Say("No valid data received");
      }
    }

    /** "get:". */
    method Get()
      requires Valid()
      modifies this, port
      ensures Valid() && Snapshot() == GetHandled(old(Snapshot()))
    {
      var keyBuffer := new byte[CONFIG_KEY_LEN];
      var keyLength := port.GetUntil(keyBuffer, CONFIG_KEY_LEN, SEPARATOR, ESCAPE);
      if keyLength > 0 {
        var key := keyBuffer[..keyLength];
        var value := kvStore.GetParam(key);
        Say(Chars(key) + " = " + Chars(value));
      }
    }

    /** "del:". */
    method Delete()
      requires Valid()
      modifies this, port, kvStore, kvStore.entries
      ensures Valid() && Snapshot() == MainDelete(old(Snapshot()))
    {
      var keyBuffer := new byte[CONFIG_KEY_LEN];
      var keyLength := port.GetUntil(keyBuffer, CONFIG_KEY_LEN, SEPARATOR, ESCAPE);
      if keyLength > 0 {
        var key := keyBuffer[..keyLength];
        var deleted := kvStore.DeleteParam(key);
        if deleted {
          Say("Key " + Chars(key) + " deleted");
        } else {
          Say("Key " + Chars(key) + " does not exist");
        }
      }
    }

    /** "data". */
    method Data()
      requires Valid()
      modifies this, port, frame
      ensures Valid() && Snapshot() == DataHandled(old(Snapshot()))
    {
      var n := port.GetBytes(frame, Matrix.BUFFER_SIZE);
      if n == Matrix.BUFFER_SIZE {
        events := events + [Update];
      }
      assert frame[..] == frame[..n] + frame[n..];
    }

    /** "zdat". */
    method Zipped(allocOk: bool, inflate: seq<byte> -> Inflated)
      requires Valid()
      modifies this, port, frame
      ensures Valid() && Snapshot() == MainZipped(old(Snapshot()), allocOk, inflate)
    {
      ghost var d := Snapshot();
      var sizeBuffer := new byte[4];
      var n := port.GetBytes(sizeBuffer, 4);
      if n != 4 {
        Say("nosize");
        return;
      }
      assert sizeBuffer[..] == d.input[..4];
      var compressedSize := LittleEndianU32(sizeBuffer[..]);
      if compressedSize > Matrix.BUFFER_SIZE {
        return;
      }
      if !allocOk {
        return;
      }
      var compressed := new byte[compressedSize];
      ghost var rest := port.input;
      var m := port.GetBytes(compressed, compressedSize);
      if m != compressedSize {
        return;
      }
      assert compressed[..] == rest[..compressedSize];
      assert Snapshot() == d.(input := rest[compressedSize..]);
      var z := inflate(compressed[..]);
      CopyToFrame(z.output);
      if z.ok && |z.output| == Matrix.BUFFER_SIZE {
        events := events + [Update];
      }
    }

    /** What uncompress writes into display::buffer. */
    method CopyToFrame(data: seq<byte>)
      modifies frame
      ensures frame[..] == Overwrite(old(frame[..]), data)
    {
      var n := Min(|data|, frame.Length);
      forall i | 0 <= i < n {
        frame[i] := data[i];
      }
      assert frame[..] == Overwrite(old(frame[..]), data);
    }
  }
}
