/** The wire protocol shared by the TCP server, the USB handler and the clients:
    the closed set of four-character command codes (CommandConfig) and the
    19-byte frame header "multiverse:" + big-endian u32 size + command. */
module Protocol {
  import opened Bytes

  const RESET: string := "RSET"
  const BOOTLOADER: string := "BOOT"
  const DISCOVERY: string := "dscv"
  const CLEARSCREEN: string := "clsc"
  const SYNC: string := "sync"
  const IPV4: string := "ipv4"
  const IPV6: string := "ipv6"
  const WRITE: string := "stor"
  const GET: string := "kget"
  const SET: string := "kset"
  const DELETE: string := "kdel"
  const SHOWDATA: string := "sdat"
  const DATA: string := "data"
  const SHOWZIPPED: string := "szip"
  const ZIPPED: string := "zipd"

  /** Every code CommandConfig defines, in declaration order. */
  const CODES: seq<string> := [RESET, BOOTLOADER, DISCOVERY, CLEARSCREEN, SYNC, IPV4, IPV6,
                               WRITE, GET, SET, DELETE, SHOWDATA, DATA, SHOWZIPPED, ZIPPED]

  /** SUPPORTED_COMMANDS. */
  const SUPPORTED: set<string> := {RESET, BOOTLOADER, CLEARSCREEN, SYNC, IPV4, IPV6, WRITE,
                                   GET, SET, DELETE, DATA, SHOWDATA, SHOWZIPPED, ZIPPED}

  /** The commands whose header is followed by a payload. */
  const KEY_VALUE: set<string> := {GET, SET, DELETE}
  const FRAMES: set<string> := {DATA, SHOWDATA, ZIPPED, SHOWZIPPED}

  /** The commands that act as soon as their header is read. */
  const IMMEDIATE: set<string> := {RESET, BOOTLOADER, CLEARSCREEN, SYNC, IPV4, IPV6, WRITE}

  /** The codes of the older firmware: the command loop in main.cpp and the
      TCP decoder it ran. "data", "ipv4", "ipv6", "stor" and "sync" are
      spelled as above. */
  const OLD_SET: string := "set:"
  const OLD_GET: string := "get:"
  const OLD_DELETE: string := "del:"
  const OLD_ZIPPED: string := "zdat"
  const OLD_ZIPPED_WAIT: string := "zdtw"
  const OLD_DATA_WAIT: string := "datw"
  const OLD_RESET: string := "_rst"
  const OLD_BOOT: string := "_usb"
  const OLD_CLEAR: string := "_cls"

  predicate IsUpperLetter(c: char) { 'A' <= c <= 'Z' }
  predicate IsLowerLetter(c: char) { 'a' <= c <= 'z' }

  /** A code made of upper-case letters and digits. */
  predicate UpperCase(s: string) {
    forall i :: 0 <= i < |s| ==> !IsLowerLetter(s[i])
  }

  /** A code made of lower-case letters and digits. */
  predicate LowerCase(s: string) {
    forall i :: 0 <= i < |s| ==> !IsUpperLetter(s[i])
  }

  /** Every code is four ASCII characters, and no two codes are equal. */
  lemma CodesAreFourAsciiCharacters()
    ensures forall i :: 0 <= i < |CODES| ==> |CODES[i]| == 4 && IsAscii(CODES[i])
    ensures forall i, j :: 0 <= i < j < |CODES| ==> CODES[i] != CODES[j]
  {
  }

  /** DISCOVERY is defined but not supported: a framed "dscv" is unknown. */
  lemma DiscoveryUnsupported()
    ensures DISCOVERY !in SUPPORTED
  {
  }

  /** The supported set is every defined code but DISCOVERY. */
  lemma SupportedAreDefinedCodes()
    ensures SUPPORTED + {DISCOVERY} == set c | c in CODES
  {
  }

  lemma SupportedCount()
    ensures |SUPPORTED| == 14
  {
  }

  /** The supported commands split into the immediate ones, the key-value ones
      and the frame transfers. */
  lemma CommandClasses()
    ensures SUPPORTED == IMMEDIATE + KEY_VALUE + FRAMES
    ensures IMMEDIATE !! KEY_VALUE && IMMEDIATE !! FRAMES && KEY_VALUE !! FRAMES
  {
  }

  /** Comparison is case-sensitive: RSET and BOOT are the upper-case codes,
      every other supported code is lower-case. */
  lemma CodeCase(c: string)
    requires c in SUPPORTED
    ensures c in {RESET, BOOTLOADER} ==> UpperCase(c)
    ensures c !in {RESET, BOOTLOADER} ==> LowerCase(c)
  {
  }

  // ---------------------------------------------------------------------------
  // Frame header (server.hpp)

  const MESSAGE_PREFIX: string := "multiverse:"
  const PREFIX_LENGTH: nat := |MESSAGE_PREFIX|
  /** The prefix, a four-byte size and a four-character command. */
  const HEADER_SIZE: nat := PREFIX_LENGTH + 8

  lemma HeaderGeometry()
    ensures PREFIX_LENGTH == 11 && HEADER_SIZE == 19 && IsAscii(MESSAGE_PREFIX)
  {
  }

  /** The header a client sends: `b"multiverse:" + struct.pack('!I', size) + command`. */
  function EncodeHeader(size: u32, command: string): (h: seq<byte>)
    requires |command| == 4 && IsAscii(command)
    ensures |h| == HEADER_SIZE
  {
    Ascii(MESSAGE_PREFIX) + EncodeBigEndianU32(size) + Ascii(command)
  }

  /** What process_header reads from the first 19 bytes it holds: nothing when
      the prefix differs, else the big-endian size and the command text. */
  function DecodeHeader(h: seq<byte>): (res: Option<(u32, string)>)
    requires |h| >= HEADER_SIZE
    ensures res.Some? <==> Chars(h[..PREFIX_LENGTH]) == MESSAGE_PREFIX
    ensures res.Some? ==> |res.value.1| == 4
  {
    if Chars(h[..PREFIX_LENGTH]) != MESSAGE_PREFIX then None
    else Some((BigEndianU32(h[PREFIX_LENGTH..PREFIX_LENGTH + 4]),
               Chars(h[PREFIX_LENGTH + 4..HEADER_SIZE])))
  }

  /** The server reads back the size and command the client encoded, whatever
      follows the header. */
  lemma HeaderRoundTrip(size: u32, command: string, rest: seq<byte>)
    requires |command| == 4 && IsAscii(command)
    ensures DecodeHeader(EncodeHeader(size, command) + rest) == Some((size, command))
  {
    var h := EncodeHeader(size, command) + rest;
    assert h[..PREFIX_LENGTH] == Ascii(MESSAGE_PREFIX);
    assert h[PREFIX_LENGTH..PREFIX_LENGTH + 4] == EncodeBigEndianU32(size);
    assert h[PREFIX_LENGTH + 4..HEADER_SIZE] == Ascii(command);
    AsciiChars(MESSAGE_PREFIX);
    AsciiChars(command);
    BigEndianRoundTrip(size);
  }

  /** Only the first 19 bytes held decide what the header says. */
  lemma DecodeHeaderPrefix(h: seq<byte>, more: seq<byte>)
    requires |h| >= HEADER_SIZE
    ensures DecodeHeader(h + more) == DecodeHeader(h)
  {
    assert (h + more)[..HEADER_SIZE] == h[..HEADER_SIZE];
    assert (h + more)[..PREFIX_LENGTH] == h[..PREFIX_LENGTH];
    assert (h + more)[PREFIX_LENGTH..PREFIX_LENGTH + 4] == h[PREFIX_LENGTH..PREFIX_LENGTH + 4];
    assert (h + more)[PREFIX_LENGTH + 4..HEADER_SIZE] == h[PREFIX_LENGTH + 4..HEADER_SIZE];
  }

  /** Every header the server accepts with an ASCII command is the encoding of
      what it read. */
  lemma HeaderDecodeRoundTrip(h: seq<byte>)
    requires |h| == HEADER_SIZE && DecodeHeader(h).Some?
    requires IsAscii(DecodeHeader(h).value.1)
    ensures EncodeHeader(DecodeHeader(h).value.0, DecodeHeader(h).value.1) == h
  {
    var (size, command) := DecodeHeader(h).value;
    BigEndianDecodeRoundTrip(h[PREFIX_LENGTH..PREFIX_LENGTH + 4]);
    CharsAscii(h[..PREFIX_LENGTH]);
    CharsAscii(h[PREFIX_LENGTH + 4..]);
    assert h == h[..PREFIX_LENGTH] + h[PREFIX_LENGTH..PREFIX_LENGTH + 4] + h[PREFIX_LENGTH + 4..];
  }
}
