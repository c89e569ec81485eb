/** The TCP frame reassembler and dispatcher of ApiServer (src/server/server.cpp),
    stated as functions of one `World`: the shared decoder state `recv_state`,
    the configuration store, the frame buffer `matrix::buffer` and the requests
    made of the console. Class ApiServer in module Server runs the same steps in
    place and is proved equal to these functions. */
module Reassembly {
  import opened Bytes
  import opened ConfigLayout
  import opened ConfigStore
  import opened Protocol
  import Matrix

  /** size_t is 32 bits wide on the RP2040. */
  const SIZE_LIMIT: int := U32_LIMIT

  /** The reassembly ceiling, MAX_BUFFER_SIZE. */
  const MAX_BUFFER_SIZE: nat := 65 * 1024

  /** pbuf lengths are u16_t. */
  const CHUNK_LIMIT: nat := 0x1_0000

  /** The byte of ':' that splits a key-value payload. */
  const COLON: byte := 0x3A

  /** size_t addition and subtraction, modulo 2^32. */
  function SizeAdd(a: nat, b: nat): nat { (a + b) % SIZE_LIMIT }
  function SizeSub(a: nat, b: nat): nat { (a - b) % SIZE_LIMIT }

  /** RecvState: the one decoder state every connection shares. */
  datatype Recv = Recv(expectedSize: nat, receivedSize: nat, receivingData: bool,
                       command: string, header: seq<byte>, buffer: seq<byte>)

  /** The state at start-up. */
  const IDLE: Recv := Recv(0, 0, false, "", [], [])

  /** What the server asks of the console and of the chip; `Send` is a UDP
      reply to the sender of a multicast datagram. */
  datatype Event = Print(text: string) | ClearScreen | Update | Reboot | BootSelect | Send(text: string)

  /** The addresses ipv4addr and ipv6addr read from the network interface. */
  datatype Network = Network(ipv4: string, ipv6: string)

  /** What uncompress reports: whether it returned Z_OK, and the bytes it wrote. */
  datatype Inflated = Inflated(ok: bool, output: seq<byte>)

  /** The err_t on_receive returns; `Undefined` stands for the range insert whose
      start lies past its end, which C++ leaves undefined. */
  datatype Status = ErrOk | ErrMem | Undefined

  datatype World = World(recv: Recv, store: Store, frame: seq<byte>, events: seq<Event>)

  /** The store holds a record this firmware keeps, the sector and the frame
      buffer have their sizes, and the reassembly buffer is under its ceiling. */
  predicate Wf(w: World) {
    ValidRecord(w.store.record) && |w.store.flash| == FLASH_SECTOR_SIZE
    && |w.frame| == Matrix.BUFFER_SIZE && |w.recv.buffer| <= MAX_BUFFER_SIZE
  }

  function Emit(w: World, e: Event): (w': World)
    ensures w'.events == w.events + [e] && w' == w.(events := w'.events)
  {
    w.(events := w.events + [e])
  }

  // ---------------------------------------------------------------------------
  // process_header

  /** The commands that act as soon as their header is read. RSET and BOOT end
      in a reboot; stor commits the store and ignores whether it wrote. */
  function Immediate(w: World, command: string, net: Network): (w': World)
    requires Wf(w)
    ensures Wf(w') && w'.recv == w.recv && w'.frame == w.frame
    ensures command == WRITE ==> w'.store == Commit(w.store).0
    ensures command != WRITE ==> w'.store == w.store
    ensures command !in IMMEDIATE ==> w' == w
  {
    if command == RESET then Emit(Emit(w, Print("Resetting...")), Reboot)
    else if command == BOOTLOADER then Emit(Emit(w, Print("Entering BOOTSEL mode...")), BootSelect)
    else if command == CLEARSCREEN then Emit(w, ClearScreen)
    else if command == SYNC then Emit(w, Update)
    else if command == IPV4 then Emit(w, Print(net.ipv4))
    else if command == IPV6 then Emit(w, Print(net.ipv6))
    else if command == WRITE then Emit(w, Print("Storing key-value store...")).(store := Commit(w.store).0)
    else w
  }

  /** process_header: append the chunk to the header bytes; once 19 are held,
      check the prefix, read the size and the command, and either start a
      payload (true) or act at once (false). */
  function HeaderProcessed(w: World, chunk: seq<byte>, net: Network): (res: (World, bool))
    requires Wf(w)
    ensures Wf(res.0) && res.0.recv.buffer == w.recv.buffer && res.0.frame == w.frame
    ensures res.1 ==> res.0.recv.receivingData && res.0.recv.header == []
                      && res.0.recv.command in KEY_VALUE + FRAMES
                      && res.0.store == w.store && res.0.events == w.events
    ensures |w.recv.header + chunk| < HEADER_SIZE
            ==> res == (w.(recv := w.recv.(header := w.recv.header + chunk)), false)
  {
    var r := w.recv.(header := w.recv.header + chunk);
    if |r.header| < HEADER_SIZE then (w.(recv := r), false)
    else match DecodeHeader(r.header)
      case None => (w.(recv := r.(header := [])), false)
      case Some((size, command)) => CommandRead(w.(recv := r.(expectedSize := size, command := command)), net)
  }

  /** The rest of process_header once the size and the command are read: an
      unknown command keeps the header bytes; a known one clears them. */
  function CommandRead(w: World, net: Network): (res: (World, bool))
    requires Wf(w)
    ensures Wf(res.0) && res.0.recv.buffer == w.recv.buffer && res.0.frame == w.frame
    ensures res.1 ==> res.0.recv.receivingData && res.0.recv.header == []
                      && res.0.recv.command in KEY_VALUE + FRAMES
                      && res.0.store == w.store && res.0.events == w.events
    ensures w.recv.command !in SUPPORTED ==> res == (w, false)
  {
    var command := w.recv.command;
    if command !in SUPPORTED then (w, false)
    else
      var r := w.recv.(receivedSize := 0, receivingData := command in FRAMES, header := []);
      if command in KEY_VALUE then (w.(recv := r.(receivingData := true)), true)
      else if command in IMMEDIATE then (Immediate(w.(recv := r), command, net), false)
      else (w.(recv := r), r.receivingData)
  }

  // ---------------------------------------------------------------------------
  // process_key_value_command

  /** Split the payload at its first ':' and get, set or delete the key. */
  function KeyValueProcessed(w: World): (w': World)
    requires Wf(w)
    ensures Wf(w') && w'.recv == w.recv && w'.frame == w.frame
    ensures IndexOf(w.recv.buffer, COLON).None? ==> w'.store == w.store
    ensures w.recv.command !in {SET, DELETE} ==> w'.store == w.store
  {
    var b := w.recv.buffer;
    if b == [] then Emit(w, Print("Error: Received empty key-value buffer!"))
    else match IndexOf(b, COLON)
      case None => Emit(w, Print("Malformed key-value command"))
      case Some(d) =>
        var key, value := b[..d], b[d + 1..];
        var command := w.recv.command;
        if command == GET then
          Emit(w, Print("Get " + Chars(key) + ": " + Chars(Get(w.store.record, key))))
        else if command == SET then
          Emit(w, Print("Set " + Chars(key) + " to " + Chars(value))).(store := StoreSet(w.store, key, value).0)
        else if command == DELETE then
          Emit(w, Print("Deleting key: " + Chars(key))).(store := StoreDelete(w.store, key).0)
        else w
  }

  // ---------------------------------------------------------------------------
  // process_data

  /** memcpy of `data` to the front of the frame buffer, cut at its end. */
  function Overwrite(frame: seq<byte>, data: seq<byte>): (f: seq<byte>)
    ensures |f| == |frame|
    ensures forall i :: 0 <= i < |f| ==> f[i] == if i < |data| then data[i] else frame[i]
  {
    var n := Min(|data|, |frame|);
    data[..n] + frame[n..]
  }

  /** The tail of process_data: sdat and szip show the frame, then the buffer empties. */
  function Finished(w: World): (w': World)
    requires Wf(w)
    ensures Wf(w') && w'.recv == w.recv.(buffer := []) && w'.frame == w.frame && w'.store == w.store
    ensures w'.events == w.events + (if w.recv.command in {SHOWDATA, SHOWZIPPED} then [Update] else [])
  {
    var w1 := if w.recv.command in {SHOWDATA, SHOWZIPPED} then Emit(w, Update) else w;
    w1.(recv := w1.recv.(buffer := []))
  }

  /** process_data: copy or inflate the payload into the frame buffer. A failed
      inflate returns early and keeps the payload. */
  function DataProcessed(w: World, inflate: seq<byte> -> Inflated): (w': World)
    requires Wf(w)
    ensures Wf(w') && w'.store == w.store
    ensures w'.recv == w.recv || w'.recv == w.recv.(buffer := [])
    ensures w.recv.buffer == [] ==> w' == w
  {
    var r := w.recv;
    if r.buffer == [] then w
    else if r.command in {DATA, SHOWDATA} then Finished(w.(frame := Overwrite(w.frame, r.buffer)))
    else if r.command in {ZIPPED, SHOWZIPPED} then
      var z := inflate(r.buffer);
      var w1 := w.(frame := Overwrite(w.frame, z.output));
      if z.ok then Finished(w1) else w1
    else Finished(w)
  }

  // ---------------------------------------------------------------------------
  // on_receive and reset_recv_state

  /** reset_recv_state: everything but the reassembly buffer returns to its
      start-up value. */
  function Disconnected(r: Recv): (r': Recv)
    ensures r' == IDLE.(buffer := r.buffer)
  {
    r.(receivingData := false, expectedSize := 0, receivedSize := 0, command := "", header := [])
  }

  /** The payload part of on_receive: the chunk from `offset` on joins the
      buffer unless the ceiling is passed, then a complete payload is dispatched. */
  function Appended(w: World, chunk: seq<byte>, offset: nat, inflate: seq<byte> -> Inflated): (res: (World, Status))
    requires Wf(w) && |chunk| < CHUNK_LIMIT && offset <= HEADER_SIZE
    ensures Wf(res.0)
    ensures offset <= |chunk| ==>
              (res.1 == ErrMem <==> |w.recv.buffer| + |chunk| - offset > MAX_BUFFER_SIZE)
    ensures res.1 == Undefined <==> offset > |chunk| && |w.recv.buffer| >= offset - |chunk|
    ensures res.1 == ErrMem ==> res.0 == w.(recv := w.recv.(buffer := []))
    ensures res.1 == Undefined ==> res.0 == w
  {
    var r := w.recv;
    if SizeAdd(|r.buffer|, SizeSub(|chunk|, offset)) > MAX_BUFFER_SIZE then
      (w.(recv := r.(buffer := [])), ErrMem)
    else if offset > |chunk| then (w, Undefined)
    else
      (Dispatched(w.(recv := r.(buffer := r.buffer + chunk[offset..])), inflate), ErrOk)
  }

  /** The end of on_receive once the chunk has joined the buffer: a complete
      payload goes to process_key_value_command or process_data. */
  function Dispatched(w: World, inflate: seq<byte> -> Inflated): (w': World)
    requires Wf(w)
    ensures Wf(w')
  {
    if |w.recv.buffer| < w.recv.expectedSize then w
    else if w.recv.command in KEY_VALUE then
      var w1 := KeyValueProcessed(w);
      w1.(recv := w1.recv.(receivingData := false, buffer := []))
    else
      var w1 := DataProcessed(w, inflate);
      w1.(recv := w1.recv.(receivingData := false))
  }

  /** on_receive: `None` is the null pbuf of a closed connection; otherwise the
      chunk goes to process_header unless a payload is being received. */
  function Received(w: World, p: Option<seq<byte>>, net: Network, inflate: seq<byte> -> Inflated): (res: (World, Status))
    requires Wf(w) && (p.Some? ==> |p.value| < CHUNK_LIMIT)
    ensures Wf(res.0)
    ensures p.None? ==> res == (w.(recv := IDLE.(buffer := w.recv.buffer)), ErrOk)
  {
    match p
    case None => (w.(recv := Disconnected(w.recv)), ErrOk)
    case Some(chunk) =>
      if w.recv.receivingData then Appended(w, chunk, 0, inflate)
      else
        var (w1, more) := HeaderProcessed(w, chunk, net);
        if more then Appended(w1, chunk, HEADER_SIZE, inflate) else (w1, ErrOk)
  }

  // ---------------------------------------------------------------------------
  // Several chunks

  /** The chunks of a connection, delivered in order. */
  function Feed(w: World, chunks: seq<seq<byte>>, net: Network, inflate: seq<byte> -> Inflated): (w': World)
    requires Wf(w) && forall i :: 0 <= i < |chunks| ==> |chunks[i]| < CHUNK_LIMIT
    ensures Wf(w')
    decreases |chunks|
  {
    if chunks == [] then w else Feed(Received(w, Some(chunks[0]), net, inflate).0, chunks[1..], net, inflate)
  }

  /** All the bytes of the chunks, in order. */
  function Concat(chunks: seq<seq<byte>>): seq<byte>
    decreases |chunks|
  {
    if chunks == [] then [] else chunks[0] + Concat(chunks[1..])
  }

  // ---------------------------------------------------------------------------
  // Properties

  /** A header naming a command outside SUPPORTED_COMMANDS stays in the header
      buffer while the decoder waits for a header. */
  predicate Stuck(r: Recv) {
    !r.receivingData && |r.header| >= HEADER_SIZE && DecodeHeader(r.header).Some?
    && DecodeHeader(r.header).value.0 == r.expectedSize && DecodeHeader(r.header).value.1 == r.command
    && r.command !in SUPPORTED
  }

  /** An unknown command is read, and the header bytes are kept. */
  lemma UnknownCommandKeepsHeader(w: World, chunk: seq<byte>, net: Network)
    requires Wf(w) && !w.recv.receivingData && |w.recv.header + chunk| >= HEADER_SIZE
    requires var d := DecodeHeader(w.recv.header + chunk); d.Some? && d.value.1 !in SUPPORTED
    ensures var (w', more) := HeaderProcessed(w, chunk, net);
            !more && Stuck(w'.recv) && w'.recv.header == w.recv.header + chunk
            && w' == w.(recv := w'.recv)
  {
  }

  /** Once stuck, every further chunk is only appended to the header buffer:
      the same unknown command is read again and nothing else happens until the
      connection closes. */
  lemma StuckStaysStuck(w: World, chunk: seq<byte>, net: Network, inflate: seq<byte> -> Inflated)
    requires Wf(w) && Stuck(w.recv) && |chunk| < CHUNK_LIMIT
    ensures Received(w, Some(chunk), net, inflate) == (w.(recv := w.recv.(header := w.recv.header + chunk)), ErrOk)
    ensures Stuck(w.recv.(header := w.recv.header + chunk))
  {
    DecodeHeaderPrefix(w.recv.header, chunk);
  }

  /** The first 19 bytes of a chunk that starts with a header are the header. */
  lemma FramedChunk(size: u32, command: string, body: seq<byte>)
    requires |command| == 4 && IsAscii(command)
    ensures var chunk := EncodeHeader(size, command) + body;
            DecodeHeader([] + chunk) == Some((size, command)) && chunk[HEADER_SIZE..] == body
            && |chunk| == HEADER_SIZE + |body|
  {
    HeaderRoundTrip(size, command, body);
    var chunk := EncodeHeader(size, command) + body;
    assert [] + chunk == chunk;
  }

  /** A completed header naming a key-value or frame command starts that
      command's payload. */
  lemma HeaderStarts(w: World, chunk: seq<byte>, net: Network, size: u32, command: string)
    requires Wf(w) && |w.recv.header + chunk| >= HEADER_SIZE
    requires DecodeHeader(w.recv.header + chunk) == Some((size, command)) && command in KEY_VALUE + FRAMES
    ensures HeaderProcessed(w, chunk, net)
            == (w.(recv := Recv(size, 0, true, command, [], w.recv.buffer)), true)
  {
    CommandClasses();
    assert command in SUPPORTED && command !in IMMEDIATE;
    if command !in KEY_VALUE {
      assert command in FRAMES;
    }
  }

  /** A chunk that starts with the header of a key-value or frame command, on a
      decoder waiting for a header, starts that command's payload. */
  lemma HeaderStartsPayload(w: World, size: u32, command: string, body: seq<byte>, net: Network)
    requires Wf(w) && !w.recv.receivingData && w.recv.header == [] && command in KEY_VALUE + FRAMES
    ensures IsAscii(command)
    ensures HeaderProcessed(w, EncodeHeader(size, command) + body, net)
            == (w.(recv := Recv(size, 0, true, command, [], w.recv.buffer)), true)
  {
    assert IsAscii(command);
    FramedChunk(size, command, body);
    HeaderStarts(w, EncodeHeader(size, command) + body, net, size, command);
  }

  /** A whole key-value frame in one chunk on an idle connection is dispatched
      at once, and the decoder goes back to waiting for a header. */
  lemma KeyValueFrameInOneChunk(w: World, command: string, body: seq<byte>, net: Network, inflate: seq<byte> -> Inflated)
    requires Wf(w) && w.recv == IDLE && command in KEY_VALUE
    requires HEADER_SIZE + |body| < CHUNK_LIMIT
    ensures IsAscii(command)
    ensures var loaded := w.(recv := Recv(|body|, 0, true, command, [], body));
            Received(w, Some(EncodeHeader(|body|, command) + body), net, inflate)
            == (KeyValueProcessed(loaded).(recv := IDLE.(expectedSize := |body|, command := command)), ErrOk)
  {
    HeaderStartsPayload(w, |body|, command, body, net);
    FramedChunk(|body|, command, body);
    var chunk := EncodeHeader(|body|, command) + body;
    var w1 := w.(recv := Recv(|body|, 0, true, command, [], []));
    assert [] + body == body;
    assert Received(w, Some(chunk), net, inflate) == Appended(w1, chunk, HEADER_SIZE, inflate);
  }

  /** The payload a client sends for one key: the key, ':' and the value. */
  function KeyValueBody(key: seq<byte>, value: seq<byte>): (b: seq<byte>)
    ensures |b| == |key| + 1 + |value|
  {
    key + [COLON] + value
  }

  /** The payload splits back into the key and the value when the key has no ':'. */
  lemma KeyValueSplit(key: seq<byte>, value: seq<byte>)
    requires forall i :: 0 <= i < |key| ==> key[i] != COLON
    ensures var b := KeyValueBody(key, value);
            IndexOf(b, COLON) == Some(|key|) && b[..|key|] == key && b[|key| + 1..] == value
  {
    var b := KeyValueBody(key, value);
    assert b[|key|] == COLON;
    assert b[..|key|] == key;
    assert b[|key| + 1..] == value;
  }

  /** kset over TCP: a key that fits, with room or already stored, reads back
      as the value sent, and the store is marked for commit. */
  lemma KeySetOverTcp(w: World, key: seq<byte>, value: seq<byte>, net: Network, inflate: seq<byte> -> Inflated)
    requires Wf(w) && w.recv == IDLE
    requires forall i :: 0 <= i < |key| ==> key[i] != COLON
    requires |key| <= MAX_KEY_LEN && |value| <= MAX_VALUE_LEN
    requires Find(w.store.record, key).Some? || w.store.record.entryCount < MAX_ENTRIES
    ensures var body := KeyValueBody(key, value);
            var (w', status) := Received(w, Some(EncodeHeader(|body|, SET) + body), net, inflate);
            status == ErrOk && Get(w'.store.record, key) == value && w'.store.dirty
            && w'.recv == IDLE.(expectedSize := |body|, command := SET) && w'.frame == w.frame
            && w'.events == w.events + [Print("Set " + Chars(key) + " to " + Chars(value))]
  {
    var body := KeyValueBody(key, value);
    KeyValueFrameInOneChunk(w, SET, body, net, inflate);
    KeyValueSplit(key, value);
    if Find(w.store.record, key).Some? {
      SetExisting(w.store.record, key, value);
    } else {
      SetNew(w.store.record, key, value);
    }
  }

  /** kget over TCP prints the key and what it reads back, and changes nothing. */
  lemma KeyGetOverTcp(w: World, key: seq<byte>, rest: seq<byte>, net: Network, inflate: seq<byte> -> Inflated)
    requires Wf(w) && w.recv == IDLE
    requires forall i :: 0 <= i < |key| ==> key[i] != COLON
    requires HEADER_SIZE + |key| + 1 + |rest| < CHUNK_LIMIT
    ensures var body := KeyValueBody(key, rest);
            var (w', status) := Received(w, Some(EncodeHeader(|body|, GET) + body), net, inflate);
            status == ErrOk && w'.store == w.store && w'.frame == w.frame
            && w'.recv == IDLE.(expectedSize := |body|, command := GET)
            && w'.events == w.events + [Print("Get " + Chars(key) + ": " + Chars(Get(w.store.record, key)))]
  {
    KeyValueFrameInOneChunk(w, GET, KeyValueBody(key, rest), net, inflate);
    KeyValueSplit(key, rest);
  }

  /** kdel over TCP: in a table without repeated keys the key no longer reads back. */
  lemma KeyDeleteOverTcp(w: World, key: seq<byte>, rest: seq<byte>, net: Network, inflate: seq<byte> -> Inflated)
    requires Wf(w) && w.recv == IDLE && DistinctKeys(w.store.record)
    requires forall i :: 0 <= i < |key| ==> key[i] != COLON
    requires HEADER_SIZE + |key| + 1 + |rest| < CHUNK_LIMIT
    ensures var body := KeyValueBody(key, rest);
            var (w', status) := Received(w, Some(EncodeHeader(|body|, DELETE) + body), net, inflate);
            status == ErrOk && Get(w'.store.record, key) == [] && DistinctKeys(w'.store.record)
            && w'.store.dirty == (w.store.dirty || Find(w.store.record, key).Some?)
  {
    KeyValueFrameInOneChunk(w, DELETE, KeyValueBody(key, rest), net, inflate);
    KeyValueSplit(key, rest);
    DeleteThenGet(w.store.record, key);
  }

  /** A key-value payload without ':' leaves the store alone. */
  lemma MalformedKeyValue(w: World)
    requires Wf(w) && w.recv.buffer != [] && forall i :: 0 <= i < |w.recv.buffer| ==> w.recv.buffer[i] != COLON
    ensures KeyValueProcessed(w) == Emit(w, Print("Malformed key-value command"))
  {
    match IndexOf(w.recv.buffer, COLON)
    case None =>
    case Some(d) => assert false;
  }

  /** The chunk that completes a frame payload: the payload is processed and
      the transfer ends. */
  lemma FrameCompletes(w: World, chunk: seq<byte>, offset: nat, inflate: seq<byte> -> Inflated)
    requires Wf(w) && |chunk| < CHUNK_LIMIT && offset <= HEADER_SIZE && offset <= |chunk|
    requires w.recv.command !in KEY_VALUE
    requires w.recv.expectedSize <= |w.recv.buffer + chunk[offset..]| <= MAX_BUFFER_SIZE
    ensures var loaded := w.(recv := w.recv.(buffer := w.recv.buffer + chunk[offset..]));
            Wf(loaded) && var done := DataProcessed(loaded, inflate);
            Appended(w, chunk, offset, inflate) == (done.(recv := done.recv.(receivingData := false)), ErrOk)
  {
  }

  /** The chunk that completes a key-value payload: the whole buffer goes to
      process_key_value_command, then the transfer ends and the buffer is
      emptied. */
  lemma KeyValueCompletes(w: World, chunk: seq<byte>, offset: nat, inflate: seq<byte> -> Inflated)
    requires Wf(w) && |chunk| < CHUNK_LIMIT && offset <= HEADER_SIZE && offset <= |chunk|
    requires w.recv.command in KEY_VALUE
    requires w.recv.expectedSize <= |w.recv.buffer + chunk[offset..]| <= MAX_BUFFER_SIZE
    ensures var loaded := w.(recv := w.recv.(buffer := w.recv.buffer + chunk[offset..]));
            Wf(loaded) && var done := KeyValueProcessed(loaded);
            Appended(w, chunk, offset, inflate)
            == (done.(recv := done.recv.(receivingData := false, buffer := [])), ErrOk)
  {
  }

  /** A completed header whose first 11 bytes are not "multiverse:" is
      dropped: the header bytes are cleared and nothing else changes. */
  lemma BadPrefixDropsHeader(w: World, chunk: seq<byte>, net: Network)
    requires Wf(w)
    requires |w.recv.header + chunk| >= HEADER_SIZE
    requires Chars((w.recv.header + chunk)[..PREFIX_LENGTH]) != MESSAGE_PREFIX
    ensures HeaderProcessed(w, chunk, net) == (w.(recv := w.recv.(header := [])), false)
  {
  }

  /** A whole frame payload in one chunk on an idle connection is processed at
      once, and the decoder goes back to waiting for a header. */
  lemma FrameInOneChunk(w: World, command: string, body: seq<byte>, net: Network, inflate: seq<byte> -> Inflated)
    requires Wf(w) && w.recv == IDLE && command in FRAMES
    requires 0 < |body| && HEADER_SIZE + |body| < CHUNK_LIMIT
    ensures IsAscii(command)
    ensures var loaded := w.(recv := Recv(|body|, 0, true, command, [], body));
            Wf(loaded) && var done := DataProcessed(loaded, inflate);
            Received(w, Some(EncodeHeader(|body|, command) + body), net, inflate)
            == (done.(recv := done.recv.(receivingData := false)), ErrOk)
  {
    HeaderStartsPayload(w, |body|, command, body, net);
    FramedChunk(|body|, command, body);
    var chunk := EncodeHeader(|body|, command) + body;
    var w1 := w.(recv := Recv(|body|, 0, true, command, [], []));
    assert [] + body == body;
    assert Received(w, Some(chunk), net, inflate) == Appended(w1, chunk, HEADER_SIZE, inflate);
    FrameCompletes(w1, chunk, HEADER_SIZE, inflate);
    assert w1.recv.buffer + chunk[HEADER_SIZE..] == body;
  }

  /** An uncompressed frame in one chunk on an idle connection lands at the
      front of the frame buffer; sdat also shows it. */
  lemma DataFrameInOneChunk(w: World, command: string, body: seq<byte>, net: Network, inflate: seq<byte> -> Inflated)
    requires Wf(w) && w.recv == IDLE && command in {DATA, SHOWDATA}
    requires 0 < |body| && HEADER_SIZE + |body| < CHUNK_LIMIT
    ensures IsAscii(command)
    ensures var (w', status) := Received(w, Some(EncodeHeader(|body|, command) + body), net, inflate);
            status == ErrOk && w'.frame[..|body|] == body && w'.frame[|body|..] == w.frame[|body|..]
            && w'.store == w.store && w'.recv == IDLE.(expectedSize := |body|, command := command)
            && w'.events == w.events + (if command == SHOWDATA then [Update] else [])
  {
    FrameInOneChunk(w, command, body, net, inflate);
    var loaded := w.(recv := Recv(|body|, 0, true, command, [], body));
    assert DataProcessed(loaded, inflate) == Finished(loaded.(frame := Overwrite(w.frame, body)));
    OverwriteFront(w.frame, body);
  }

  /** The payload lands at the front of the frame buffer; the rest stays. */
  lemma OverwriteFront(frame: seq<byte>, data: seq<byte>)
    requires |data| <= |frame|
    ensures Overwrite(frame, data)[..|data|] == data
    ensures Overwrite(frame, data)[|data|..] == frame[|data|..]
  {
  }

  /** A failed inflate keeps the payload in the buffer and shows nothing; the
      frame buffer holds whatever uncompress wrote. */
  lemma ZlibFailureKeepsPayload(w: World, command: string, body: seq<byte>, net: Network, inflate: seq<byte> -> Inflated)
    requires Wf(w) && w.recv == IDLE && command in {ZIPPED, SHOWZIPPED}
    requires 0 < |body| && HEADER_SIZE + |body| < CHUNK_LIMIT && !inflate(body).ok
    ensures IsAscii(command)
    ensures var (w', status) := Received(w, Some(EncodeHeader(|body|, command) + body), net, inflate);
            status == ErrOk && w'.recv == IDLE.(expectedSize := |body|, command := command, buffer := body)
            && w'.frame == Overwrite(w.frame, inflate(body).output) && w'.events == w.events
  {
    FrameInOneChunk(w, command, body, net, inflate);
  }

  /** Bytes left in the buffer (after a disconnect or a failed inflate) stay in
      front of the next frame's payload. */
  lemma LeftoverPrefixesPayload(w: World, command: string, size: u32, body: seq<byte>, net: Network, inflate: seq<byte> -> Inflated)
    requires Wf(w) && w.recv == IDLE.(buffer := w.recv.buffer) && command in FRAMES
    requires HEADER_SIZE + |body| < CHUNK_LIMIT && |w.recv.buffer| + |body| <= MAX_BUFFER_SIZE
    requires |w.recv.buffer| + |body| < size
    ensures IsAscii(command)
    ensures var (w', status) := Received(w, Some(EncodeHeader(size, command) + body), net, inflate);
            status == ErrOk && w'.recv.receivingData && w'.recv.buffer == w.recv.buffer + body
  {
    HeaderStartsPayload(w, size, command, body, net);
    FramedChunk(size, command, body);
  }

  /** A header split over two chunks: the payload is still cut at offset 19 of
      the second chunk, so the first |c1| payload bytes are lost. */
  lemma SplitHeaderDropsPayload(w: World, c1: seq<byte>, c2: seq<byte>, net: Network, inflate: seq<byte> -> Inflated)
    requires Wf(w) && w.recv == IDLE
    requires 0 < |c1| < HEADER_SIZE && HEADER_SIZE <= |c2| < CHUNK_LIMIT
    requires var d := DecodeHeader(c1 + c2); d.Some? && d.value.1 in FRAMES && d.value.0 > |c2|
    ensures var w1 := Received(w, Some(c1), net, inflate).0;
            Wf(w1) && var (w2, status) := Received(w1, Some(c2), net, inflate);
            status == ErrOk && w2.recv.receivingData && w2.recv.buffer == (c1 + c2)[|c1| + HEADER_SIZE..]
  {
    assert [] + c1 == c1;
    var w1 := w.(recv := IDLE.(header := c1));
    assert Received(w, Some(c1), net, inflate).0 == w1;
    var (size, command) := DecodeHeader(c1 + c2).value;
    HeaderStarts(w1, c2, net, size, command);
    var w2 := w.(recv := Recv(size, 0, true, command, [], []));
    assert Received(w1, Some(c2), net, inflate) == Appended(w2, c2, HEADER_SIZE, inflate);
    assert [] + c2[HEADER_SIZE..] == c2[HEADER_SIZE..];
    assert (c1 + c2)[|c1| + HEADER_SIZE..] == c2[HEADER_SIZE..];
  }

  /** A header completed by a chunk shorter than 19 bytes makes the payload
      length wrap around: with an empty buffer the chunk is refused with ERR_MEM. */
  lemma SplitHeaderShortChunk(w: World, c1: seq<byte>, c2: seq<byte>, net: Network, inflate: seq<byte> -> Inflated)
    requires Wf(w) && w.recv == IDLE
    requires |c1| < HEADER_SIZE && |c2| < HEADER_SIZE && |c1 + c2| >= HEADER_SIZE
    requires var d := DecodeHeader(c1 + c2); d.Some? && d.value.1 in KEY_VALUE + FRAMES
    ensures var w1 := Received(w, Some(c1), net, inflate).0;
            Wf(w1) && var (w2, status) := Received(w1, Some(c2), net, inflate);
            status == ErrMem && w2.recv.receivingData && w2.recv.buffer == []
  {
    assert [] + c1 == c1;
    var w1 := w.(recv := IDLE.(header := c1, buffer := w.recv.buffer));
    assert Received(w, Some(c1), net, inflate).0 == w1;
    var (size, command) := DecodeHeader(c1 + c2).value;
    HeaderStarts(w1, c2, net, size, command);
    var w2 := w.(recv := Recv(size, 0, true, command, [], w.recv.buffer));
    assert Received(w1, Some(c2), net, inflate) == Appended(w2, c2, HEADER_SIZE, inflate);
  }

  /** The same short chunk after a disconnect that left enough bytes behind
      reaches the range insert with its start past its end. */
  lemma SplitHeaderUndefined(w: World, c1: seq<byte>, c2: seq<byte>, net: Network, inflate: seq<byte> -> Inflated)
    requires Wf(w) && w.recv == IDLE.(buffer := w.recv.buffer)
    requires |c1| < HEADER_SIZE && |c2| < HEADER_SIZE && |c1 + c2| >= HEADER_SIZE
    requires |w.recv.buffer| >= HEADER_SIZE - |c2|
    requires var d := DecodeHeader(c1 + c2); d.Some? && d.value.1 in KEY_VALUE + FRAMES
    ensures var w1 := Received(w, Some(c1), net, inflate).0;
            Wf(w1) && Received(w1, Some(c2), net, inflate).1 == Undefined
  {
    assert [] + c1 == c1;
    var w1 := w.(recv := IDLE.(header := c1, buffer := w.recv.buffer));
    assert Received(w, Some(c1), net, inflate).0 == w1;
    var (size, command) := DecodeHeader(c1 + c2).value;
    HeaderStarts(w1, c2, net, size, command);
    var w2 := w.(recv := Recv(size, 0, true, command, [], w.recv.buffer));
    assert Received(w1, Some(c2), net, inflate) == Appended(w2, c2, HEADER_SIZE, inflate);
  }

  lemma {:induction false} ConcatCons(c: seq<byte>, chunks: seq<seq<byte>>)
    ensures Concat([c] + chunks) == c + Concat(chunks)
  {
    assert ([c] + chunks)[1..] == chunks;
  }

  /** While a payload is incomplete and under the ceiling, chunks are only
      appended to the buffer, in order. */
  lemma {:induction false} PayloadAccumulates(w: World, chunks: seq<seq<byte>>, net: Network, inflate: seq<byte> -> Inflated)
    requires Wf(w) && w.recv.receivingData
    requires forall i :: 0 <= i < |chunks| ==> |chunks[i]| < CHUNK_LIMIT
    requires |w.recv.buffer + Concat(chunks)| < w.recv.expectedSize
    requires |w.recv.buffer + Concat(chunks)| <= MAX_BUFFER_SIZE
    ensures Feed(w, chunks, net, inflate) == w.(recv := w.recv.(buffer := w.recv.buffer + Concat(chunks)))
    decreases |chunks|
  {
    if chunks != [] {
      var c := chunks[0];
      assert chunks == [c] + chunks[1..];
      ConcatCons(c, chunks[1..]);
      var w1 := w.(recv := w.recv.(buffer := w.recv.buffer + c));
      assert c[0..] == c;
      assert Received(w, Some(c), net, inflate).0 == w1;
      assert w.recv.buffer + Concat(chunks) == w1.recv.buffer + Concat(chunks[1..]);
      PayloadAccumulates(w1, chunks[1..], net, inflate);
    }
  }

  /** The chunk that completes an uncompressed payload copies the whole payload
      to the frame buffer and ends the transfer. */
  lemma DataFrameCompletes(w: World, chunk: seq<byte>, net: Network, inflate: seq<byte> -> Inflated)
    requires Wf(w) && w.recv.receivingData && w.recv.command in {DATA, SHOWDATA}
    requires |chunk| < CHUNK_LIMIT && 0 < |w.recv.buffer + chunk| <= MAX_BUFFER_SIZE
    requires |w.recv.buffer + chunk| >= w.recv.expectedSize
    ensures var (w', status) := Received(w, Some(chunk), net, inflate);
            status == ErrOk && w'.frame == Overwrite(w.frame, w.recv.buffer + chunk)
            && w'.recv == w.recv.(receivingData := false, buffer := []) && w'.store == w.store
  {
    assert chunk[0..] == chunk;
  }
}
