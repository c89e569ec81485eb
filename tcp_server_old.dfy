/** The TCP decoder of the older firmware (src/tcp_server/tcp_server-old.cpp):
    `on_receive`, which copies raw frames straight into display::buffer, and
    `process_message`, which cuts a buffered message into 1460-byte pieces for
    the binary callback. The header is "Multiverse:" (capital M) + big-endian
    u32 size + four-character command, 19 bytes in all. */
module OldTcp {
  import opened Bytes
  import opened Protocol
  import opened Reassembly
  import Matrix

  const OLD_PREFIX: string := "Multiverse:"
  const OLD_PREFIX_LENGTH: nat := 11
  const OLD_HEADER_SIZE: nat := 19
  /** The size of the pieces process_message hands to the callback. */
  const PIECE: nat := 1460

  lemma OldHeaderGeometry()
    ensures |OLD_PREFIX| == OLD_PREFIX_LENGTH && OLD_PREFIX_LENGTH + 4 + 4 == OLD_HEADER_SIZE
  {
  }

  // ---------------------------------------------------------------------------
  // on_receive

  /** The global RecvState of this file. */
  datatype OldRecv = OldRecv(expectedSize: nat, receivedSize: nat, receivingData: bool,
                             command: string, header: seq<byte>)

  const OLD_IDLE: OldRecv := OldRecv(0, 0, false, "", [])

  /** The decoder state, display::buffer and the requests made of the display. */
  datatype Screen = Screen(recv: OldRecv, frame: seq<byte>, events: seq<Event>)

  /** The frame buffer keeps its size, and the copy position never passes it. */
  predicate Wf(s: Screen) {
    |s.frame| == Matrix.BUFFER_SIZE && s.recv.receivedSize <= Matrix.BUFFER_SIZE
  }

  /** A frame with `data` written at `at`, as memcpy does. */
  function Placed(frame: seq<byte>, at: nat, data: seq<byte>): (f: seq<byte>)
    requires at + |data| <= |frame|
    ensures |f| == |frame| && f[at..at + |data|] == data
    ensures forall i :: 0 <= i < |frame| && !(at <= i < at + |data|) ==> f[i] == frame[i]
  {
    frame[..at] + data + frame[at + |data|..]
  }

  /** Two copies side by side are one copy of both. */
  lemma PlacedTwice(frame: seq<byte>, at: nat, a: seq<byte>, b: seq<byte>)
    requires at + |a| + |b| <= |frame|
    ensures Placed(Placed(frame, at, a), at + |a|, b) == Placed(frame, at, a + b)
  {
    var f := Placed(Placed(frame, at, a), at + |a|, b);
    var g := Placed(frame, at, a + b);
    forall i | 0 <= i < |frame|
      ensures f[i] == g[i]
    {
      if at <= i < at + |a| {
        assert g[i] == g[at..at + |a + b|][i - at] == (a + b)[i - at];
      } else if at + |a| <= i < at + |a| + |b| {
        assert g[i] == g[at..at + |a + b|][i - at] == (a + b)[i - at];
        assert f[i] == f[at + |a|..at + |a| + |b|][i - at - |a|];
      }
    }
  }

  /** A closed connection: every field of the state is reset. */
  function OldDisconnected(s: Screen): (s': Screen)
    requires Wf(s)
    ensures Wf(s') && s'.recv == OLD_IDLE && s'.frame == s.frame
    ensures s'.events == s.events + [Print("Client disconnected")]
  {
    Screen(OLD_IDLE, s.frame, s.events + [Print("Client disconnected")])
  }

  /** The screen with `more` requests made of the display. */
  function Told(s: Screen, more: seq<Event>): Screen {
    s.(events := s.events + more)
  }

  /** What is announced for each command once the header is read, and whether
      the same chunk goes on to the data step. */
  function Announced(s: Screen, command: string, net: Network): (res: (Screen, bool))
    requires Wf(s)
    ensures Wf(res.0) && res.0.recv == s.recv && res.0.frame == s.frame
  {
    if command == OLD_RESET then (Told(s, [Print("Resetting..."), Reboot]), false)
    else if command == OLD_BOOT then (Told(s, [Print("Entering BOOTSEL mode..."), BootSelect]), false)
    else if command == OLD_CLEAR then (Told(s, [ClearScreen, Print("Cleared display")]), false)
    else if command == WRITE then (Told(s, [Print("Storing key-value store...")]), false)
    else if command == SYNC then (Told(s, [Update]), false)
    else if command == IPV4 then (Told(s, [Print(net.ipv4)]), false)
    else if command == IPV6 then (Told(s, [Print(net.ipv6)]), false)
    else if command == DATA || command == OLD_DATA_WAIT then (Told(s, [Print("Receiving raw image data...")]), true)
    else if command == OLD_ZIPPED || command == OLD_ZIPPED_WAIT then (Told(s, [Print("Receiving compressed image data...")]), true)
    else if command == OLD_GET then (Told(s, [Print("Retrieving value from key-value store...")]), true)
    else if command == OLD_SET || command == OLD_DELETE then (Told(s, [Print("Setting value in key-value store...")]), true)
    else (Told(s, [Print("Unknown command: " + command)]), false)
  }

  /** The header step, taken while no raw frame is being received: the chunk is
      added to the header buffer, and once 19 bytes are there the header is
      checked, read and cleared. */
  function HeaderRead(s: Screen, chunk: seq<byte>, net: Network): (res: (Screen, bool))
    requires Wf(s)
    ensures Wf(res.0) && res.0.frame == s.frame
  {
    var h := s.recv.header + chunk;
    if |h| < OLD_HEADER_SIZE then (s.(recv := s.recv.(header := h)), false)
    else if h[..OLD_PREFIX_LENGTH] != Ascii(OLD_PREFIX) then
      (s.(recv := s.recv.(header := []), events := s.events + [Print("Invalid message prefix: " + Chars(h[..OLD_PREFIX_LENGTH]))]), false)
    else
      var command := Chars(h[15..OLD_HEADER_SIZE]);
      var r := OldRecv(BigEndianU32(h[OLD_PREFIX_LENGTH..15]), 0, command == DATA || command == OLD_DATA_WAIT, command, []);
      Announced(Screen(r, s.frame, s.events + [Print("Received command: " + command)]), command, net)
  }

  /** The data step: for "data" and "datw" the chunk is copied at the copy
      position, as much as fits; once the expected size is reached "data"
      shows the frame, "datw" only reports, and the transfer ends. */
  function Copied(s: Screen, chunk: seq<byte>): (s': Screen)
    requires Wf(s)
    ensures Wf(s')
  {
    var r := s.recv;
    if r.command != DATA && r.command != OLD_DATA_WAIT then s
    else
      var n := Min(|chunk|, Matrix.BUFFER_SIZE - r.receivedSize);
      var s1 := if n > 0 then Screen(r.(receivedSize := r.receivedSize + n), Placed(s.frame, r.receivedSize, chunk[..n]), s.events)
                else s;
      if s1.recv.receivedSize < r.expectedSize then s1
      else
        var shown := if r.command == DATA then [Update, Print("Image received and updated")]
                     else [Print("Image received (waiting for sync)")];
        Screen(s1.recv.(receivingData := false, command := ""), s1.frame, s1.events + shown)
  }

  /** on_receive; `None` is the null pbuf of a closed connection. */
  function OldReceived(s: Screen, p: Option<seq<byte>>, net: Network): (s': Screen)
    requires Wf(s)
    ensures Wf(s')
  {
    if p.None? then OldDisconnected(s)
    else if s.recv.receivingData then Copied(s, p.value)
    else
      var (s1, more) := HeaderRead(s, p.value, net);
      if more then Copied(s1, p.value) else s1
  }

  /** on_receive over a stream of chunks, without a disconnect. */
  function OldFeed(s: Screen, chunks: seq<seq<byte>>, net: Network): (s': Screen)
    requires Wf(s)
    ensures Wf(s')
    decreases |chunks|
  {
    if chunks == [] then s else OldFeed(OldReceived(s, Some(chunks[0]), net), chunks[1..], net)
  }

  // ---------------------------------------------------------------------------
  // What on_receive promises

  /** A header that does not start with "Multiverse:" is dropped as a whole. */
  lemma BadPrefixClears(s: Screen, chunk: seq<byte>, net: Network)
    requires Wf(s) && !s.recv.receivingData
    requires var h := s.recv.header + chunk; |h| >= OLD_HEADER_SIZE && h[..OLD_PREFIX_LENGTH] != Ascii(OLD_PREFIX)
    ensures var s' := OldReceived(s, Some(chunk), net);
            s'.recv == s.recv.(header := []) && s'.frame == s.frame && |s'.events| == |s.events| + 1
  {
  }

  /** A header that arrives in pieces is read once all 19 bytes are there:
      the size is the big-endian u32 of bytes 11 to 14 and the command is
      bytes 15 to 18. For the codes that announce a payload but are not raw
      frames, the decoder goes straight back to waiting for a header, so their
      payload is read as the next header. */
  lemma HeaderInPieces(s: Screen, prefix: seq<byte>, size: u32, command: string, net: Network)
    requires Wf(s) && s.recv == OLD_IDLE && |command| == 4 && IsAscii(command)
    requires command in {OLD_ZIPPED, OLD_ZIPPED_WAIT, OLD_GET, OLD_SET, OLD_DELETE}
    requires prefix == Ascii(OLD_PREFIX)
    ensures var s1 := OldReceived(s, Some(prefix), net);
            var s2 := OldReceived(s1, Some(EncodeBigEndianU32(size) + Ascii(command)), net);
            s1.recv.header == prefix && s1.frame == s.frame
            && s2.recv == OldRecv(size as nat, 0, false, command, []) && s2.frame == s.frame
  {
    var s1 := OldReceived(s, Some(prefix), net);
    var tail := EncodeBigEndianU32(size) + Ascii(command);
    var h := prefix + tail;
    assert h[..OLD_PREFIX_LENGTH] == prefix;
    assert h[OLD_PREFIX_LENGTH..15] == EncodeBigEndianU32(size);
    assert h[15..OLD_HEADER_SIZE] == Ascii(command);
    AsciiChars(command);
    BigEndianRoundTrip(size);
  }

  /** A whole "data" header read from an idle state starts the transfer. */
  lemma DataHeaderRead(s: Screen, size: u32, chunk: seq<byte>, net: Network)
    requires Wf(s) && s.recv == OLD_IDLE && |chunk| >= OLD_HEADER_SIZE
    requires chunk[..OLD_PREFIX_LENGTH] == Ascii(OLD_PREFIX) && chunk[OLD_PREFIX_LENGTH..15] == EncodeBigEndianU32(size)
    requires chunk[15..OLD_HEADER_SIZE] == Ascii(DATA)
    ensures HeaderRead(s, chunk, net)
            == (Screen(OldRecv(size as nat, 0, true, DATA, []), s.frame,
                       s.events + [Print("Received command: " + DATA), Print("Receiving raw image data...")]), true)
  {
    assert s.recv.header + chunk == chunk;
    AsciiChars(DATA);
    BigEndianRoundTrip(size);
    var said := s.events + [Print("Received command: " + DATA)];
    assert said + [Print("Receiving raw image data...")]
        == s.events + [Print("Received command: " + DATA), Print("Receiving raw image data...")];
  }

  /** The chunk that completes the header is copied into the frame buffer from
      its first byte, so the header itself lands at the front of the frame;
      a "data" transfer no longer than that chunk is shown at once. */
  lemma HeaderEntersFrame(s: Screen, size: u32, chunk: seq<byte>, net: Network)
    requires Wf(s) && s.recv == OLD_IDLE && OLD_HEADER_SIZE <= |chunk| <= Matrix.BUFFER_SIZE
    requires chunk[..OLD_PREFIX_LENGTH] == Ascii(OLD_PREFIX) && chunk[OLD_PREFIX_LENGTH..15] == EncodeBigEndianU32(size)
    requires chunk[15..OLD_HEADER_SIZE] == Ascii(DATA)
    ensures var s' := OldReceived(s, Some(chunk), net);
            s'.frame == Placed(s.frame, 0, chunk)
            && (size as nat <= |chunk| ==> !s'.recv.receivingData && Update in s'.events[|s.events|..])
            && (size as nat > |chunk| ==> s'.recv == OldRecv(size as nat, |chunk|, true, DATA, []))
  {
    DataHeaderRead(s, size, chunk, net);
    assert chunk[..|chunk|] == chunk;
    var s' := OldReceived(s, Some(chunk), net);
    if size as nat <= |chunk| {
      assert s'.events[|s.events|..][2] == Update;
    }
  }

  /** Once a transfer is under way, a chunk that does not reach the expected
      size is copied right after the bytes before it. */
  lemma ChunkAppended(s: Screen, chunk: seq<byte>, net: Network)
    requires Wf(s) && s.recv.receivingData && s.recv.command in {DATA, OLD_DATA_WAIT}
    requires s.recv.receivedSize + |chunk| < s.recv.expectedSize && s.recv.receivedSize + |chunk| <= Matrix.BUFFER_SIZE
    ensures OldReceived(s, Some(chunk), net)
            == s.(recv := s.recv.(receivedSize := s.recv.receivedSize + |chunk|),
                  frame := Placed(s.frame, s.recv.receivedSize, chunk))
  {
    assert chunk[..|chunk|] == chunk;
    if chunk == [] {
      assert Placed(s.frame, s.recv.receivedSize, chunk) == s.frame;
    }
  }

  /** A stream of chunks that stays short of the expected size is laid into
      the frame one after the other, at the copy position. */
  lemma {:induction false} StreamAppended(s: Screen, chunks: seq<seq<byte>>, net: Network)
    requires Wf(s) && s.recv.receivingData && s.recv.command in {DATA, OLD_DATA_WAIT}
    requires s.recv.receivedSize + |Concat(chunks)| < s.recv.expectedSize
    requires s.recv.receivedSize + |Concat(chunks)| <= Matrix.BUFFER_SIZE
    ensures OldFeed(s, chunks, net)
            == s.(recv := s.recv.(receivedSize := s.recv.receivedSize + |Concat(chunks)|),
                  frame := Placed(s.frame, s.recv.receivedSize, Concat(chunks)))
    decreases |chunks|
  {
    if chunks == [] {
      assert Placed(s.frame, s.recv.receivedSize, []) == s.frame;
    } else {
      var c := chunks[0];
      assert Concat(chunks) == c + Concat(chunks[1..]);
      ChunkAppended(s, c, net);
      var s1 := OldReceived(s, Some(c), net);
      StreamAppended(s1, chunks[1..], net);
      PlacedTwice(s.frame, s.recv.receivedSize, c, Concat(chunks[1..]));
    }
  }

  /** A transfer announced larger than the frame buffer never completes: the
      copy position stops at BUFFER_SIZE and every chunk after that is dropped. */
  lemma {:induction false} OversizeNeverCompletes(s: Screen, chunks: seq<seq<byte>>, net: Network)
    requires Wf(s) && s.recv.receivingData && s.recv.command in {DATA, OLD_DATA_WAIT}
    requires s.recv.expectedSize > Matrix.BUFFER_SIZE
    ensures var s' := OldFeed(s, chunks, net);
            s'.recv.receivingData && s'.recv.expectedSize == s.recv.expectedSize
            && s'.recv.command == s.recv.command && s'.events == s.events
    decreases |chunks|
  {
    if chunks != [] {
      OversizeNeverCompletes(OldReceived(s, Some(chunks[0]), net), chunks[1..], net);
    }
  }

  /** Reaching the expected size ends the transfer; "data" shows the frame and
      "datw" does not. */
  lemma TransferCompletes(s: Screen, chunk: seq<byte>, net: Network)
    requires Wf(s) && s.recv.receivingData && s.recv.command in {DATA, OLD_DATA_WAIT}
    requires s.recv.receivedSize + |chunk| >= s.recv.expectedSize && s.recv.receivedSize + |chunk| <= Matrix.BUFFER_SIZE
    ensures var s' := OldReceived(s, Some(chunk), net);
            !s'.recv.receivingData && s'.recv.command == ""
            && s'.frame == Placed(s.frame, s.recv.receivedSize, chunk)
            && (Update in s'.events[|s.events|..] <==> s.recv.command == DATA)
  {
    assert chunk[..|chunk|] == chunk;
    if chunk == [] {
      assert Placed(s.frame, s.recv.receivedSize, chunk) == s.frame;
    }
  }

  // ---------------------------------------------------------------------------
  // process_message

  /** The pieces of at most 1460 bytes that process_message hands over, in order. */
  function Pieces(data: seq<byte>): (ps: seq<seq<byte>>)
    ensures forall i :: 0 <= i < |ps| ==> 0 < |ps[i]| <= PIECE
    decreases |data|
  {
    if data == [] then []
    else
      var n := Min(PIECE, |data|);
      [data[..n]] + Pieces(data[n..])
  }

  /** The pieces put back together are the data. */
  lemma {:induction false} PiecesConcat(data: seq<byte>)
    ensures Concat(Pieces(data)) == data
    decreases |data|
  {
    if data != [] {
      var n := Min(PIECE, |data|);
      PiecesConcat(data[n..]);
      assert Pieces(data)[1..] == Pieces(data[n..]);
      assert data[..n] + data[n..] == data;
    }
  }

  /** There are as many pieces as 1460 goes into the size, rounded up. */
  lemma {:induction false} PiecesCount(data: seq<byte>)
    ensures |Pieces(data)| == (|data| + PIECE - 1) / PIECE
    decreases |data|
  {
    if data != [] {
      PiecesCount(data[Min(PIECE, |data|)..]);
    }
  }

  /** One turn of process_message's loop takes the first piece. */
  lemma PiecesStep(left: seq<byte>, piece: seq<byte>, later: seq<byte>)
    requires left != [] && piece == left[..Min(PIECE, |left|)] && later == left[Min(PIECE, |left|)..]
    ensures Pieces(left) == [piece] + Pieces(later)
  {
  }

  /** The TcpServer fields process_message works on: recv_buffer, what the
      binary callback has been given, and the display requests. */
  datatype Inbox = Inbox(buffer: seq<byte>, delivered: seq<seq<byte>>, events: seq<Event>)

  function FileSize(b: seq<byte>): u32
    requires |b| >= OLD_HEADER_SIZE
  {
    BigEndianU32(b[OLD_PREFIX_LENGTH..15])
  }

  /** expected_message_size: 19 + file_size, either in the 32-bit size_t of
      the target (`wrapped`, as written) or exactly. */
  function MessageSize(b: seq<byte>, wrapped: bool): (n: nat)
    requires |b| >= OLD_HEADER_SIZE
    ensures !wrapped ==> n == OLD_HEADER_SIZE + FileSize(b) as nat
    ensures wrapped && FileSize(b) as nat + OLD_HEADER_SIZE < U32_LIMIT ==> n == OLD_HEADER_SIZE + FileSize(b) as nat
  {
    if wrapped then SizeAdd(OLD_HEADER_SIZE, FileSize(b) as nat) else OLD_HEADER_SIZE + FileSize(b) as nat
  }

  /** process_message: whether a message was taken, and the new fields. The
      callback may be unset (`callback` false), and then nothing is handed over. */
  function Taken(m: Inbox, callback: bool, wrapped: bool): (res: (Inbox, bool))
  {
    var b := m.buffer;
    if |b| < OLD_HEADER_SIZE then (m, false)
    else if b[..OLD_PREFIX_LENGTH] != Ascii(OLD_PREFIX) then
      (m.(buffer := [], events := m.events + [Print("Invalid message prefix")]), false)
    else
      var size := MessageSize(b, wrapped);
      if |b| < size then (m, false)
      else
        var pieces := if callback && OLD_HEADER_SIZE <= size then Pieces(b[OLD_HEADER_SIZE..size]) else [];
        (Inbox(b[size..], m.delivered + pieces,
               m.events + [Print("Received command: " + Chars(b[15..OLD_HEADER_SIZE])),
                           Print("Received file size: " + Chars(Decimal(FileSize(b) as nat)))]), true)
  }

  /** A whole message at the front of the buffer is taken: the callback gets
      exactly its data, in pieces of at most 1460 bytes, and exactly the
      message is removed, leaving what follows. */
  lemma MessageRoundTrip(m: Inbox, command: string, data: seq<byte>, rest: seq<byte>)
    requires |data| < U32_LIMIT && |command| == 4 && IsAscii(command)
    requires m.buffer == Ascii(OLD_PREFIX) + EncodeBigEndianU32(|data|) + Ascii(command) + data + rest
    ensures var (m', ok) := Taken(m, true, false);
            ok && m'.buffer == rest && Concat(m'.delivered[|m.delivered|..]) == data
            && (forall i :: |m.delivered| <= i < |m'.delivered| ==> |m'.delivered[i]| <= PIECE)
            && m'.events[|m.events|] == Print("Received command: " + command)
  {
    var b := m.buffer;
    assert b[..OLD_PREFIX_LENGTH] == Ascii(OLD_PREFIX);
    assert b[OLD_PREFIX_LENGTH..15] == EncodeBigEndianU32(|data|);
    assert b[15..OLD_HEADER_SIZE] == Ascii(command);
    BigEndianRoundTrip(|data| as u32);
    AsciiChars(command);
    assert b[OLD_HEADER_SIZE..OLD_HEADER_SIZE + |data|] == data;
    assert b[OLD_HEADER_SIZE + |data|..] == rest;
    PiecesConcat(data);
    var (m', ok) := Taken(m, true, false);
    assert m'.delivered[|m.delivered|..] == Pieces(data);
  }

  /** Until the whole message is there, nothing changes. */
  lemma WaitsForWholeMessage(m: Inbox, callback: bool)
    requires |m.buffer| < OLD_HEADER_SIZE
          || (m.buffer[..OLD_PREFIX_LENGTH] == Ascii(OLD_PREFIX) && |m.buffer| < OLD_HEADER_SIZE + FileSize(m.buffer) as nat)
    ensures Taken(m, callback, false) == (m, false)
  {
  }

  /** A buffer that does not start with "Multiverse:" is emptied. */
  lemma BadMessagePrefixClears(m: Inbox, callback: bool, wrapped: bool)
    requires |m.buffer| >= OLD_HEADER_SIZE && m.buffer[..OLD_PREFIX_LENGTH] != Ascii(OLD_PREFIX)
    ensures var (m', ok) := Taken(m, callback, wrapped);
            !ok && m'.buffer == [] && m'.delivered == m.delivered
  {
  }

  /** As written, 19 + file_size wraps in the 32-bit size_t: a header
      announcing 0xFFFFFFFF bytes makes the expected size 18, so the bare
      header is taken as a whole message, nothing is handed over, and only
      18 of its 19 bytes are removed. The exact sum waits instead. */
  lemma MessageSizeWraps(m: Inbox, callback: bool)
    requires m.buffer == Ascii(OLD_PREFIX) + [0xFF, 0xFF, 0xFF, 0xFF] + Ascii(DATA)
    ensures var (m', ok) := Taken(m, callback, true);
            ok && m'.buffer == [m.buffer[18]] && m'.delivered == m.delivered
    ensures Taken(m, callback, false) == (m, false)
  {
    var b := m.buffer;
    assert b[..OLD_PREFIX_LENGTH] == Ascii(OLD_PREFIX);
    assert b[OLD_PREFIX_LENGTH..15] == [0xFF, 0xFF, 0xFF, 0xFF];
    assert FileSize(b) == 0xFFFF_FFFF;
    assert MessageSize(b, true) == 18;
    assert b[18..] == [b[18]];
  }

  /** Below the wrap the code as written and the exact sum agree. */
  lemma NoWrapAgrees(m: Inbox, callback: bool)
    requires |m.buffer| >= OLD_HEADER_SIZE && FileSize(m.buffer) as nat + OLD_HEADER_SIZE < U32_LIMIT
    ensures Taken(m, callback, true) == Taken(m, callback, false)
  {
  }

  // ---------------------------------------------------------------------------
  // The server

  /** recv_state of this file. */
  class OldRecvState {
    var expectedSize: nat
    var receivedSize: nat
    var receivingData: bool
    var command: string
    var headerBuffer: seq<byte>

    function Value(): OldRecv
      reads this
    {
      OldRecv(expectedSize, receivedSize, receivingData, command, headerBuffer)
    }

    constructor()
      ensures Value() == OLD_IDLE
    {
      expectedSize, receivedSize, receivingData := 0, 0, false;
      command, headerBuffer := "", [];
    }
  }

  class TcpServer {
    /** The global decoder state and display::buffer. */
    const recvState: OldRecvState
    const frame: array<byte>
    var events: seq<Event>
    /** recv_buffer, and every piece the binary callback has received. */
    var recvBuffer: seq<byte>
    var delivered: seq<seq<byte>>
    /** Whether binary_callback is set. */
    const callback: bool

    predicate Valid()
      reads this, recvState
    {
      frame.Length == Matrix.BUFFER_SIZE && recvState.receivedSize <= Matrix.BUFFER_SIZE
    }

    function Snapshot(): Screen
      reads this, recvState, frame
    {
      Screen(recvState.Value(), frame[..], events)
    }

    function Mailbox(): Inbox
      reads this
    {
      Inbox(recvBuffer, delivered, events)
    }

    constructor(recv: OldRecvState, buffer: array<byte>, hasCallback: bool)
      requires buffer.Length == Matrix.BUFFER_SIZE && recv.receivedSize <= Matrix.BUFFER_SIZE
      ensures Valid() && recvState == recv && frame == buffer && callback == hasCallback
      ensures events == [] && recvBuffer == [] && delivered == []
    {
      recvState, frame, callback := recv, buffer, hasCallback;
      events, recvBuffer, delivered := [], [], [];
    }

    method Say(text: string)
      modifies this
      ensures events == old(events) + [Print(text)]
      ensures recvBuffer == old(recvBuffer) && delivered == old(delivered)
    {
      events := events + [Print(text)];
    }

    /** on_receive. */
    method OnReceive(p: Option<seq<byte>>, net: Network)
      requires Valid()
      modifies this, recvState, frame
      ensures Valid() && Snapshot() == OldReceived(old(Snapshot()), p, net)
    {
      if p.None? {
        Say("Client disconnected");
        recvState.receivingData := false;
        recvState.expectedSize := 0;
        recvState.receivedSize := 0;
        recvState.command := "";
        recvState.headerBuffer := [];
        return;
      }
      if !recvState.receivingData {
        var more := ReadHeader(p.value, net);
        if !more {
          return;
        }
      }
      CopyChunk(p.value);
    }

    /** The header step of on_receive. */
    method ReadHeader(chunk: seq<byte>, net: Network) returns (more: bool)
      requires Valid()
      modifies this, recvState
      ensures Valid() && (Snapshot(), more) == HeaderRead(old(Snapshot()), chunk, net)
    {
      ghost var s := Snapshot();
      recvState.headerBuffer := recvState.headerBuffer + chunk;
      var h := recvState.headerBuffer;
      if |h| < OLD_HEADER_SIZE {
        assert Snapshot() == s.(recv := s.recv.(header := h));
        return false;
      }
      if h[..OLD_PREFIX_LENGTH] != Ascii(OLD_PREFIX) {
        Say("Invalid message prefix: " + Chars(h[..OLD_PREFIX_LENGTH]));
        recvState.headerBuffer := [];
        assert Snapshot() == s.(recv := s.recv.(header := []), events := s.events + [Print("Invalid message prefix: " + Chars(h[..OLD_PREFIX_LENGTH]))]);
        return false;
      }
      var command := Chars(h[15..OLD_HEADER_SIZE]);
      recvState.expectedSize := BigEndianU32(h[OLD_PREFIX_LENGTH..15]);
      recvState.command := command;
      recvState.receivedSize := 0;
      recvState.receivingData := command == DATA || command == OLD_DATA_WAIT;
      Say("Received command: " + command);
      recvState.headerBuffer := [];
      assert Snapshot() == Screen(OldRecv(BigEndianU32(h[OLD_PREFIX_LENGTH..15]), 0, command == DATA || command == OLD_DATA_WAIT, command, []),
                                  s.frame, s.events + [Print("Received command: " + command)]);
      more := Announce(command, net);
    }

    /** The chain of comparisons after the header. */
    method Announce(command: string, net: Network) returns (more: bool)
      requires Valid()
      modifies this
      ensures Valid() && (Snapshot(), more) == Announced(old(Snapshot()), command, net)
    {
      more := false;
      if command == OLD_RESET {
        events := events + [Print("Resetting..."), Reboot];
      } else if command == OLD_BOOT {
        events := events + [Print("Entering BOOTSEL mode..."), BootSelect];
      } else if command == OLD_CLEAR {
        events := events + [ClearScreen, Print("Cleared display")];
      } else if command == WRITE {
        Say("Storing key-value store...");
      } else if command == SYNC {
        events := events + [Update];
      } else if command == IPV4 {
        Say(net.ipv4);
      } else if command == IPV6 {
        Say(net.ipv6);
      } else if command == DATA || command == OLD_DATA_WAIT {
        Say("Receiving raw image data...");
        more := true;
      } else if command == OLD_ZIPPED || command == OLD_ZIPPED_WAIT {
        Say("Receiving compressed image data...");
        more := true;
      } else if command == OLD_GET {
        Say("Retrieving value from key-value store...");
        more := true;
      } else if command == OLD_SET || command == OLD_DELETE {
        Say("Setting value in key-value store...");
        more := true;
      } else {
        Say("Unknown command: " + command);
      }
    }

    /** The data step of on_receive. */
    method CopyChunk(chunk: seq<byte>)
      requires Valid()
      modifies this, recvState, frame
      ensures Valid() && Snapshot() == Copied(old(Snapshot()), chunk)
    {
      ghost var s := Snapshot();
      if recvState.command != DATA && recvState.command != OLD_DATA_WAIT {
        return;
      }
      var at := recvState.receivedSize;
      var n := Min(|chunk|, Matrix.BUFFER_SIZE - at);
      if n > 0 {
        CopyAt(at, chunk[..n]);
        recvState.receivedSize := at + n;
      }
      ghost var s1 := if n > 0 then Screen(s.recv.(receivedSize := at + n), Placed(s.frame, at, chunk[..n]), s.events) else s;
      assert Snapshot() == s1;
      if recvState.receivedSize >= recvState.expectedSize {
        Finish();
      }
    }

    /** The end of a raw transfer: "data" shows the frame, "datw" waits for sync. */
    method Finish()
      requires Valid() && recvState.command in {DATA, OLD_DATA_WAIT}
      modifies this, recvState
      ensures Valid() && recvState.Value() == old(recvState.Value()).(receivingData := false, command := "")
      ensures old(recvState.command) == DATA ==> events == old(events) + [Update, Print("Image received and updated")]
      ensures old(recvState.command) != DATA ==> events == old(events) + [Print("Image received (waiting for sync)")]
    {
      if recvState.command == DATA {
        events := events + [Update, Print("Image received and updated")];
      } else {
        Say("Image received (waiting for sync)");
      }
      recvState.receivingData := false;
      recvState.command := "";
    }

    /** memcpy into display::buffer at `at`. */
    method CopyAt(at: nat, data: seq<byte>)
      requires at + |data| <= frame.Length
      modifies frame
      ensures frame[..] == Placed(old(frame[..]), at, data)
    {
      forall i | 0 <= i < |data| {
        frame[at + i] := data[i];
      }
      assert frame[..] == Placed(old(frame[..]), at, data);
    }

    /** process_message, with expected_message_size computed in 32 bits as the
        source does. */
    method ProcessMessage() returns (ok: bool)
      modifies this
      ensures (Mailbox(), ok) == Taken(old(Mailbox()), callback, true)
    {
      var b := recvBuffer;
      if |b| < OLD_HEADER_SIZE {
        return false;
      }
      if b[..OLD_PREFIX_LENGTH] != Ascii(OLD_PREFIX) {
        Say("Invalid message prefix");
        recvBuffer := [];
        return false;
      }
      var fileSize := BigEndianU32(b[OLD_PREFIX_LENGTH..15]);
      var size := SizeAdd(OLD_HEADER_SIZE, fileSize);
      if |b| < size {
        return false;
      }
      var command := Chars(b[15..OLD_HEADER_SIZE]);
      if OLD_HEADER_SIZE <= size {
        HandOver(b, size);
      } else {
        assert delivered == delivered + [];
      }
      ghost var said := events;
      recvBuffer := b[size..];
      Say("Received command: " + command);
      Say("Received file size: " + Chars(Decimal(fileSize)));
      assert events == said + [Print("Received command: " + command), Print("Received file size: " + Chars(Decimal(fileSize)))];
      return true;
    }

    /** The loop of process_message: bytes 19 up to `size` go to the callback,
        1460 at a time. */
    method HandOver(b: seq<byte>, size: nat)
      requires OLD_HEADER_SIZE <= size <= |b|
      modifies this
      ensures delivered == old(delivered) + (if callback then Pieces(b[OLD_HEADER_SIZE..size]) else [])
      ensures events == old(events) && recvBuffer == old(recvBuffer)
    {
      ghost var before := delivered;
      var offset := OLD_HEADER_SIZE;
      while offset < size
        invariant OLD_HEADER_SIZE <= offset <= size
        invariant events == old(events) && recvBuffer == old(recvBuffer)
        invariant Remaining(before, b[OLD_HEADER_SIZE..size], delivered, b[offset..size])
        decreases size - offset
      {
        var n := Min(PIECE, size - offset);
        var piece := b[offset..offset + n];
        if callback {
          delivered := delivered + [piece];
        }
        assert piece == b[offset..size][..n];
        assert b[offset + n..size] == b[offset..size][n..];
        PiecesStep(b[offset..size], piece, b[offset + n..size]);
        offset := offset + n;
      }
      assert b[offset..size] == [];
      assert delivered + Pieces([]) == delivered;
    }

    /** What the callback has been handed so far, plus the pieces of what is
        left, is what it is handed in the end. */
    ghost predicate Remaining(before: seq<seq<byte>>, data: seq<byte>, now: seq<seq<byte>>, left: seq<byte>)
      reads this
    {
      (callback ==> before + Pieces(data) == now + Pieces(left)) && (!callback ==> now == before)
    }
  }
}
