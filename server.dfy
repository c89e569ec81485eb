/** ApiServer (src/server/server.cpp): the settings its constructor reads from
    the store, and the receive path that updates the shared decoder state, the
    store and the frame buffer in place. Every method is proved to do what the
    functions of module Reassembly say. */
module Server {
  import opened Bytes
  import opened ConfigLayout
  import opened ConfigStore
  import opened Protocol
  import opened Reassembly
  import opened Wifi
  import Matrix

  // ---------------------------------------------------------------------------
  // Settings read by the constructor

  /** safe_stoi: the default for an empty string or one with a non-digit;
      otherwise the value when it lies in [lo, hi], else the default. */
  function SafeStoi(s: seq<byte>, default: int, lo: int, hi: int): (v: int)
    ensures v == default || (s != [] && AllDigits(s) && v == DecimalValue(s))
    ensures lo <= default <= hi ==> lo <= v <= hi
  {
    if s == [] || !AllDigits(s) then default
    else if lo <= DecimalValue(s) <= hi then DecimalValue(s)
    else default
  }

  /** A number written by std::to_string and within range is read back. */
  lemma SafeStoiReadsDecimal(n: nat, default: int, lo: int, hi: int)
    requires lo <= n <= hi
    ensures SafeStoi(Decimal(n), default, lo, hi) == n
  {
    DecimalRoundTrip(n);
  }

  /** A number out of range gives the default. */
  lemma SafeStoiOutOfRange(n: nat, default: int, lo: int, hi: int)
    requires n < lo || hi < n
    ensures SafeStoi(Decimal(n), default, lo, hi) == default
  {
    DecimalRoundTrip(n);
  }

  /** Any byte that is not a decimal digit gives the default. */
  lemma SafeStoiRejectsNonDigit(s: seq<byte>, i: nat, default: int, lo: int, hi: int)
    requires i < |s| && !IsDigit(s[i])
    ensures SafeStoi(s, default, lo, hi) == default
  {
  }

  const QUARTER_TURNS: set<int> := {0, 90, 180, 270}

  /** The rotation: safe_stoi in [0, 270], then anything but a quarter turn is 0. */
  function Rotation(s: seq<byte>): (r: nat)
    ensures r in QUARTER_TURNS
  {
    var v := SafeStoi(s, 0, 0, 270);
    if v in QUARTER_TURNS then v else 0
  }

  /** The constructor's test of the angle, one value at a time. */
  lemma RotationChecksAngle(s: seq<byte>)
    ensures var v := SafeStoi(s, 0, 0, 270);
            Rotation(s) == if v != 0 && v != 90 && v != 180 && v != 270 then 0 else v
  {
  }

  lemma RotationReadsQuarterTurn(q: nat)
    requires q in QUARTER_TURNS
    ensures Rotation(Decimal(q)) == q
  {
    SafeStoiReadsDecimal(q, 0, 0, 270);
  }

  lemma RotationRejectsOtherAngles(n: nat)
    requires n !in QUARTER_TURNS
    ensures Rotation(Decimal(n)) == 0
  {
    DecimalRoundTrip(n);
  }

  /** The configuration keys the constructor reads. */
  const SSID: seq<byte> := Ascii("ssid")
  const PASS: seq<byte> := Ascii("pass")
  const MCAST_IP: seq<byte> := Ascii("mcast_ip")
  const PORT: seq<byte> := Ascii("port")
  const MCAST_PORT: seq<byte> := Ascii("mcast_port")
  const ROTATION: seq<byte> := Ascii("rotation")
  const ORDER: seq<byte> := Ascii("order")
  const BRIGHTNESS: seq<byte> := Ascii("brightness")

  const U16_MAX: nat := 65535

  datatype Settings = Settings(ssid: seq<byte>, password: seq<byte>, multicastIp: seq<byte>,
                               port: nat, multicastPort: nat, rotation: nat, order: nat, brightness: nat)

  /** What the constructor reads from the store. Every number fits the
      uint16_t field it goes to. */
  function SettingsOf(r: Record): (s: Settings)
    requires ValidRecord(r)
    ensures s.port <= U16_MAX && s.multicastPort <= U16_MAX && s.order <= U16_MAX
    ensures s.brightness <= 255 && s.rotation in QUARTER_TURNS
  {
    Settings(Get(r, SSID), Get(r, PASS), Get(r, MCAST_IP),
             SafeStoi(Get(r, PORT), 54321, 0, U16_MAX),
             SafeStoi(Get(r, MCAST_PORT), 54321, 0, U16_MAX),
             Rotation(Get(r, ROTATION)),
             SafeStoi(Get(r, ORDER), 1, 0, U16_MAX),
             SafeStoi(Get(r, BRIGHTNESS), 127, 0, 255))
  }

  /** A port stored as decimal text is the port the server listens on; a
      missing one gives 54321. */
  lemma StoredPortIsUsed(r: Record, port: nat)
    requires ValidRecord(r) && port <= U16_MAX && Get(r, PORT) == Decimal(port)
    ensures SettingsOf(r).port == port
  {
    SafeStoiReadsDecimal(port, 54321, 0, U16_MAX);
  }

  lemma MissingPortDefaults(r: Record)
    requires ValidRecord(r) && Get(r, PORT) == []
    ensures SettingsOf(r).port == 54321
  {
  }

  // ---------------------------------------------------------------------------
  // The multicast discovery reply

  /** std::to_string of a non-negative number, as characters. */
  function Number(n: nat): (s: string)
    ensures s != [] && forall i :: 0 <= i < |s| ==> '0' <= s[i] <= '9'
  {
    Chars(Decimal(n))
  }

  const REPLY_HEAD: string :=
    "{ \"width\": " + Number(Matrix.WIDTH) + ", \"height\": " + Number(Matrix.HEIGHT) + ", \"rotation\": "

  /** The JSON text on_multicast_receive sends back to a discovery request. The
      pieces are nested to the right so that each field follows the text before it. */
  function DiscoveryReply(rotation: nat, order: nat, ip: string, port: nat, build: string): string {
    REPLY_HEAD + (Number(rotation) + OrderField(order, ip, port, build))
  }

  function OrderField(order: nat, ip: string, port: nat, build: string): string {
    ", \"order\": " + (Number(order) + AddressField(ip, port, build))
  }

  function AddressField(ip: string, port: nat, build: string): string {
    ", \"ip_address\": \"" + (ip + PortField(port, build))
  }

  function PortField(port: nat, build: string): string {
    "\", \"port\": " + (Number(port) + BuildField(build))
  }

  function BuildField(build: string): string {
    ", \"build\": \"" + (build + "\" }")
  }

  /** Two texts that agree after a common prefix agree. */
  lemma DropPrefix(p: string, x: string, y: string)
    requires p + x == p + y
    ensures x == y
  {
    assert x == (p + x)[|p|..];
  }

  /** A field that cannot contain the character that ends it is read back. */
  lemma SplitAtStop(a: string, x: string, b: string, y: string, stop: char)
    requires a + x == b + y && x != [] && y != [] && x[0] == stop && y[0] == stop
    requires stop !in a && stop !in b
    ensures a == b && x == y
  {
    assert a == (a + x)[..|a|] == (b + y)[..|b|] == b;
    DropPrefix(a, x, y);
  }

  lemma NumberInjective(m: nat, n: nat)
    requires Number(m) == Number(n)
    ensures m == n
  {
    assert Decimal(m) == Decimal(n) by {
      assert forall i :: 0 <= i < |Decimal(m)| ==> Decimal(m)[i] == Number(m)[i] as int;
    }
    DecimalInjective(m, n);
  }

  /** A number in the reply is read back up to the comma after it. */
  lemma NumberThenComma(m: nat, x: string, n: nat, y: string)
    requires Number(m) + x == Number(n) + y && x != [] && y != [] && x[0] == ',' && y[0] == ','
    ensures m == n && x == y
  {
    SplitAtStop(Number(m), x, Number(n), y, ',');
    NumberInjective(m, n);
  }

  /** The reply determines the rotation and the order; for one address it also
      determines the port and the build. */
  lemma DiscoveryReplyFields(r1: nat, o1: nat, ip1: string, p1: nat, b1: string,
                             r2: nat, o2: nat, ip2: string, p2: nat, b2: string)
    requires DiscoveryReply(r1, o1, ip1, p1, b1) == DiscoveryReply(r2, o2, ip2, p2, b2)
    ensures r1 == r2 && o1 == o2
    ensures AddressField(ip1, p1, b1) == AddressField(ip2, p2, b2)
    ensures ip1 == ip2 ==> p1 == p2 && b1 == b2
  {
    DropPrefix(REPLY_HEAD, Number(r1) + OrderField(o1, ip1, p1, b1), Number(r2) + OrderField(o2, ip2, p2, b2));
    NumberThenComma(r1, OrderField(o1, ip1, p1, b1), r2, OrderField(o2, ip2, p2, b2));
    DropPrefix(", \"order\": ", Number(o1) + AddressField(ip1, p1, b1), Number(o2) + AddressField(ip2, p2, b2));
    NumberThenComma(o1, AddressField(ip1, p1, b1), o2, AddressField(ip2, p2, b2));
    if ip1 == ip2 {
      DropPrefix(", \"ip_address\": \"", ip1 + PortField(p1, b1), ip2 + PortField(p2, b2));
      DropPrefix(ip1, PortField(p1, b1), PortField(p2, b2));
      DropPrefix("\", \"port\": ", Number(p1) + BuildField(b1), Number(p2) + BuildField(b2));
      NumberThenComma(p1, BuildField(b1), p2, BuildField(b2));
      DropPrefix(", \"build\": \"", b1 + "\" }", b2 + "\" }");
      assert b1 == (b1 + "\" }")[..|b1|];
    }
  }

  /** An address without a double quote (ip4addr_ntoa writes digits and dots)
      is read back too, so the reply determines every field. */
  lemma DiscoveryReplyInjective(r1: nat, o1: nat, ip1: string, p1: nat, b1: string,
                                r2: nat, o2: nat, ip2: string, p2: nat, b2: string)
    requires DiscoveryReply(r1, o1, ip1, p1, b1) == DiscoveryReply(r2, o2, ip2, p2, b2)
    requires '"' !in ip1 && '"' !in ip2
    ensures (r1, o1, ip1, p1, b1) == (r2, o2, ip2, p2, b2)
  {
    DiscoveryReplyFields(r1, o1, ip1, p1, b1, r2, o2, ip2, p2, b2);
    DropPrefix(", \"ip_address\": \"", ip1 + PortField(p1, b1), ip2 + PortField(p2, b2));
    SplitAtStop(ip1, PortField(p1, b1), ip2, PortField(p2, b2), '"');
  }

  // ---------------------------------------------------------------------------
  // The shared decoder state

  /** struct RecvState; one instance, recv_state, serves every connection. */
  class RecvState {
    var expectedSize: nat
    var receivedSize: nat
    var receivingData: bool
    var command: string
    var headerBuffer: seq<byte>
    var recvBuffer: seq<byte>

    function Value(): Recv
      reads this
    {
      Recv(expectedSize, receivedSize, receivingData, command, headerBuffer, recvBuffer)
    }

    constructor()
      ensures Value() == IDLE
    {
      expectedSize, receivedSize, receivingData := 0, 0, false;
      command, headerBuffer, recvBuffer := "", [], [];
    }
  }

  // ---------------------------------------------------------------------------
  // The server

  class ApiServer {
    /** The store, the decoder state and matrix::buffer are shared with the
        rest of the firmware; the server holds references to them. */
    const kvStore: KVStore
    const recvState: RecvState
    const frame: array<byte>
    /** What the server has asked of the console and the chip, in order. */
    var events: seq<Event>

    var ssid: seq<byte>
    var password: seq<byte>
    var multicastIp: seq<byte>
    var port: nat
    var multicastPort: nat
    var rotation: nat
    var order: nat
    var brightness: nat

    function Configured(): Settings
      reads this
    {
      Settings(ssid, password, multicastIp, port, multicastPort, rotation, order, brightness)
    }

    predicate Valid()
      reads this, kvStore, recvState
    {
      kvStore.Valid() && frame.Length == Matrix.BUFFER_SIZE && |recvState.recvBuffer| <= MAX_BUFFER_SIZE
    }

    /** The decoder state, the store, the frame buffer and the requests so far. */
    function Snapshot(): World
      requires kvStore.entries.Length == MAX_ENTRIES
      reads this, recvState, kvStore, kvStore.entries, frame
    {
      World(recvState.Value(), kvStore.State(), frame[..], events)
    }

    lemma ValidSnapshot()
      requires Valid()
      ensures Wf(Snapshot())
    {
    }

    /** The constructor reads the settings from the store. */
    constructor(store: KVStore, recv: RecvState, buffer: array<byte>)
      requires store.Valid() && buffer.Length == Matrix.BUFFER_SIZE && |recv.recvBuffer| <= MAX_BUFFER_SIZE
      ensures Valid() && kvStore == store && recvState == recv && frame == buffer && events == []
      ensures Configured() == SettingsOf(store.Contents())
    {
      kvStore, recvState, frame := store, recv, buffer;
      events := [];
      ghost var c := store.Contents();
      var id := store.GetParam(SSID);
      assert id == Get(c, SSID);
      var pass := store.GetParam(PASS);
      assert pass == Get(c, PASS);
      var ip := store.GetParam(MCAST_IP);
      assert ip == Get(c, MCAST_IP);
      var p := store.GetParam(PORT);
      assert p == Get(c, PORT);
      var pt := SafeStoi(p, 54321, 0, U16_MAX);
      var mp := store.GetParam(MCAST_PORT);
      assert mp == Get(c, MCAST_PORT);
      var mpt := SafeStoi(mp, 54321, 0, U16_MAX);
      var rot := store.GetParam(ROTATION);
      assert rot == Get(c, ROTATION);
      var r := SafeStoi(rot, 0, 0, 270);
      var ord := store.GetParam(ORDER);
      assert ord == Get(c, ORDER);
      var o := SafeStoi(ord, 1, 0, U16_MAX);
      var br := store.GetParam(BRIGHTNESS);
      assert br == Get(c, BRIGHTNESS);
      var b := SafeStoi(br, 127, 0, 255);
      if r != 0 && r != 90 && r != 180 && r != 270 {
        r := 0;
      }
      RotationChecksAngle(rot);
      assert Settings(id, pass, ip, pt, mpt, r, o, b) == SettingsOf(c);
      ssid, password, multicastIp := id, pass, ip;
      port, multicastPort, rotation, order, brightness := pt, mpt, r, o, b;
    }

    method Say(text: string)
      modifies this
      ensures events == old(events) + [Print(text)]
      ensures Configured() == old(Configured())
    {
      events := events + [Print(text)];
    }

    /** connect_wifi: `initFails` is what cyw43_arch_init reports and `connect`
        whether one call of cyw43_arch_wifi_connect_timeout_ms associates. */
    method ConnectWifi(initFails: bool, connect: Attempt -> bool) returns (outcome: Outcome)
      requires Valid()
      modifies this, kvStore, kvStore.entries
      ensures Valid() && Configured() == old(Configured())
      ensures var c := Connection(old(kvStore.State()), ssid, initFails, connect);
              kvStore.State() == c.0 && events == old(events) + c.1 && outcome == c.2
    {
      ghost var s := kvStore.State();
      if initFails {
        Say("Failed to initialize Wi-Fi module");
        return Failed;
      }
      ghost var hello := [Print("Connecting to Wi-Fi: " + Chars(ssid))];
      ghost var j := Joined(s, connect);
      assert Connection(s, ssid, false, connect) == (j.0, hello + j.1, j.2);
      Say("Connecting to Wi-Fi: " + Chars(ssid));
      outcome := Join(connect);
    }

    /** connect_wifi after "Connecting to Wi-Fi". */
    method Join(connect: Attempt -> bool) returns (outcome: Outcome)
      requires Valid()
      modifies this, kvStore, kvStore.entries
      ensures Valid() && Configured() == old(Configured())
      ensures var j := Joined(old(kvStore.State()), connect);
              kvStore.State() == j.0 && events == old(events) + j.1 && outcome == j.2
    {
      ghost var s := kvStore.State();
      var text := kvStore.GetParam(WIFI_AUTH);
      var parsed := Stoi(text);
      if parsed.None? {
        return Aborted;
      }
      var stored := ToU32(parsed.value);
      var winner := Associate(stored, connect);
      outcome := Settle(stored, winner);
    }

    /** The end of connect_wifi, after the attempts. */
    method Settle(stored: u32, winner: Option<nat>) returns (outcome: Outcome)
      requires Valid() && (winner.Some? ==> winner.value < |Schedule(stored)|)
      modifies this, kvStore, kvStore.entries
      ensures Valid() && Configured() == old(Configured())
      ensures var c := Settled(old(kvStore.State()), stored, winner);
              kvStore.State() == c.0 && events == old(events) + c.1 && outcome == c.2
    {
      match winner {
        case None =>
          Say("Unable to connect to Wi-Fi");
          return Failed;
        case Some(i) =>
          if i >= |First(stored)| {
            var _ := kvStore.SetParam(WIFI_AUTH, Decimal(Schedule(stored)[i].mode));
            var _ := kvStore.CommitToFlash();
          }
          return Connected;
      }
    }

    /** on_multicast_receive: `p` is the datagram's first buffer (None for a
        null pbuf), `build` is BUILD_NUMBER and `allocOk` whether pbuf_alloc
        finds room for the reply. A failed send is only logged. */
    method OnMulticastReceive(p: Option<seq<byte>>, net: Network, build: string, allocOk: bool)
      modifies this
      ensures Configured() == old(Configured())
      ensures p.Some? && Chars(p.value) == SYNC ==> events == old(events) + [Update]
      ensures p.Some? && Chars(p.value) == DISCOVERY ==>
                var reply := DiscoveryReply(rotation, order, net.ipv4, port, build);
                events == old(events) + [Print("Discovery request received")]
                          + (if allocOk then [Send(reply), Print("Sent discovery response: " + reply)] else [])
      ensures p.None? || (Chars(p.value) != SYNC && Chars(p.value) != DISCOVERY) ==> events == old(events)
    {
      if p.None? {
        return;
      }
      var received := Chars(p.value);
      if received == SYNC {
        events := events + [Update];
      } else if received == DISCOVERY {
        Say("Discovery request received");
        var reply := DiscoveryReply(rotation, order, net.ipv4, port, build);
        if !allocOk {
          return;
        }
        events := events + [Send(reply)];
        Say("Sent discovery response: " + reply);
      }
    }

    /** on_receive: `None` is the null pbuf of a closed connection. */
    method OnReceive(p: Option<seq<byte>>, net: Network, inflate: seq<byte> -> Inflated) returns (status: Status)
      requires Valid() && (p.Some? ==> |p.value| < CHUNK_LIMIT)
      modifies this, recvState, kvStore, kvStore.entries, frame
      ensures Valid() && (Snapshot(), status) == Received(old(Snapshot()), p, net, inflate)
    {
      if p.None? {
        ResetRecvState();
        return ErrOk;
      }
      var chunk := p.value;
      var offset := 0;
      if !recvState.receivingData {
        var more := ProcessHeader(chunk, net);
        if !more {
          return ErrOk;
        }
        offset := HEADER_SIZE;
      }
      status := Append(chunk, offset, inflate);
    }

    /** The part of on_receive after the header: the overflow check, the insert,
        and the dispatch of a complete payload. */
    method Append(chunk: seq<byte>, offset: nat, inflate: seq<byte> -> Inflated) returns (status: Status)
      requires Valid() && |chunk| < CHUNK_LIMIT && offset <= HEADER_SIZE
      modifies this, recvState, kvStore, kvStore.entries, frame
      ensures Valid() && (Snapshot(), status) == Appended(old(Snapshot()), chunk, offset, inflate)
    {
      ghost var w := Snapshot();
      if SizeAdd(|recvState.recvBuffer|, SizeSub(|chunk|, offset)) > MAX_BUFFER_SIZE {
        recvState.recvBuffer := [];
        return ErrMem;
      }
      if offset > |chunk| {
        return Undefined;
      }
      recvState.recvBuffer := recvState.recvBuffer + chunk[offset..];
      assert Snapshot() == w.(recv := w.recv.(buffer := w.recv.buffer + chunk[offset..]));
      Dispatch(inflate);
      return ErrOk;
    }

    /** The dispatch of a complete payload. */
    method Dispatch(inflate: seq<byte> -> Inflated)
      requires Valid()
      modifies this, recvState, kvStore, kvStore.entries, frame
      ensures Valid() && Snapshot() == Dispatched(old(Snapshot()), inflate)
    {
      if recvState.command == GET || recvState.command == SET || recvState.command == DELETE {
        if |recvState.recvBuffer| >= recvState.expectedSize {
          ProcessKeyValueCommand();
          recvState.receivingData := false;
          recvState.recvBuffer := [];
        }
        return;
      }
      if |recvState.recvBuffer| >= recvState.expectedSize {
        ProcessData(inflate);
        recvState.receivingData := false;
      }
    }

    /** process_header. */
    method ProcessHeader(chunk: seq<byte>, net: Network) returns (more: bool)
      requires Valid()
      modifies this, recvState, kvStore
      ensures Valid() && (Snapshot(), more) == HeaderProcessed(old(Snapshot()), chunk, net)
    {
      recvState.headerBuffer := recvState.headerBuffer + chunk;
      if |recvState.headerBuffer| < HEADER_SIZE {
        return false;
      }
      var h := recvState.headerBuffer;
      if Chars(h[..PREFIX_LENGTH]) != MESSAGE_PREFIX {
        recvState.headerBuffer := [];
        return false;
      }
      recvState.expectedSize := BigEndianU32(h[PREFIX_LENGTH..PREFIX_LENGTH + 4]);
      recvState.command := Chars(h[PREFIX_LENGTH + 4..HEADER_SIZE]);
      more := ReadCommand(net);
    }

    /** The rest of process_header once the size and the command are read. */
    method ReadCommand(net: Network) returns (more: bool)
      requires Valid()
      modifies this, recvState, kvStore
      ensures Valid() && (Snapshot(), more) == CommandRead(old(Snapshot()), net)
    {
      ghost var w := Snapshot();
      var command := recvState.command;
      if command !in SUPPORTED {
        return false;
      }
      recvState.receivedSize := 0;
      recvState.receivingData := command == DATA || command == SHOWDATA || command == ZIPPED || command == SHOWZIPPED;
      recvState.headerBuffer := [];
      ghost var r := w.recv.(receivedSize := 0, receivingData := command in FRAMES, header := []);
      assert Snapshot() == w.(recv := r);
      if command == GET || command == SET || command == DELETE {
        recvState.receivingData := true;
        assert Snapshot() == w.(recv := r.(receivingData := true));
        return true;
      }
      if command in IMMEDIATE {
        RunImmediate(command, net);
        return false;
      }
      return recvState.receivingData;
    }

    /** The branches of process_header that act at once. */
    method RunImmediate(command: string, net: Network)
      requires Valid()
      modifies this, kvStore
      ensures Valid() && Snapshot() == Immediate(old(Snapshot()), command, net)
    {
      if command == RESET {
        Say("Resetting...");
        events := events + [Reboot];
      } else if command == BOOTLOADER {
        Say("Entering BOOTSEL mode...");
        events := events + [BootSelect];
      } else if command == CLEARSCREEN {
        events := events + [ClearScreen];
      } else if command == SYNC {
        events := events + [Update];
      } else if command == IPV4 {
        Say(net.ipv4);
      } else if command == IPV6 {
        Say(net.ipv6);
      } else if command == WRITE {
        Say("Storing key-value store...");
        var _ := kvStore.CommitToFlash();
      }
    }

    /** process_key_value_command. */
    method ProcessKeyValueCommand()
      requires Valid()
      modifies this, kvStore, kvStore.entries
      ensures Valid() && Snapshot() == KeyValueProcessed(old(Snapshot()))
    {
      ghost var w := Snapshot();
      var b := recvState.recvBuffer;
      if b == [] {
        Say("Error: Received empty key-value buffer!");
        return;
      }
      var delimiter := IndexOf(b, COLON);
      if delimiter.None? {
        Say("Malformed key-value command");
        return;
      }
      var key, value := b[..delimiter.value], b[delimiter.value + 1..];
      if recvState.command == GET {
        var stored := kvStore.GetParam(key);
        Say("Get " + Chars(key) + ": " + Chars(stored));
        assert Snapshot() == Emit(w, Print("Get " + Chars(key) + ": " + Chars(Get(w.store.record, key))));
      } else if recvState.command == SET {
        Say("Set " + Chars(key) + " to " + Chars(value));
        var _ := kvStore.SetParam(key, value);
        assert kvStore.State() == StoreSet(w.store, key, value).0;
      } else if recvState.command == DELETE {
        Say("Deleting key: " + Chars(key));
        var _ := kvStore.DeleteParam(key);
        assert kvStore.State() == StoreDelete(w.store, key).0;
      }
    }

    /** process_data. */
    method ProcessData(inflate: seq<byte> -> Inflated)
      requires Valid()
      modifies this, recvState, frame
      ensures Valid() && Snapshot() == DataProcessed(old(Snapshot()), inflate)
    {
      var b := recvState.recvBuffer;
      if b == [] {
        return;
      }
      var command := recvState.command;
      if command == DATA || command == SHOWDATA {
        CopyToFrame(b);
      } else if command == ZIPPED || command == SHOWZIPPED {
        var z := inflate(b);
        CopyToFrame(z.output);
        if !z.ok {
          return;
        }
      }
      if command == SHOWDATA || command == SHOWZIPPED {
        events := events + [Update];
      }
      recvState.recvBuffer := [];
    }

    /** memcpy to the front of matrix::buffer, at most its length. */
    method CopyToFrame(data: seq<byte>)
      modifies frame
      ensures frame[..] == Overwrite(old(frame[..]), data)
    {
      var n := Min(|data|, frame.Length);
      forall i | 0 <= i < n {
        frame[i] := data[i];
      }
      assert frame[..] == Overwrite(old(frame[..]), data);
    }

    /** reset_recv_state: the reassembly buffer is left as it is. */
    method ResetRecvState()
      modifies recvState
      ensures recvState.Value() == Disconnected(old(recvState.Value()))
    {
      recvState.receivingData := false;
      recvState.expectedSize := 0;
      recvState.receivedSize := 0;
      recvState.command := "";
      recvState.headerBuffer := [];
    }
  }
}
