/** The three primitives that read the USB CDC serial port: waitFor, getBytes
    and getUntil in src/usb_handler/usb_handler.cpp, and their older twins
    cdc_wait_for, cdc_get_bytes and cdc_get_until in src/main.cpp, which do
    the same. The input is the finite sequence of bytes the host sends; its
    end stands for the timeout that ends every read. */
module Serial {
  import opened Bytes

  /** The most bytes one cdc_task call hands over (MAX_UART_PACKET). Its value
      does not change which bytes a read returns. */
  const MAX_UART_PACKET: nat := 64

  // ---------------------------------------------------------------------------
  // waitFor

  /** waitFor: the expected bytes, in order. A mismatching byte is consumed
      and ends the wait; the end of the input is the timeout. */
  function Awaited(input: seq<byte>, expected: seq<byte>): (res: (bool, seq<byte>))
    ensures res.0 <==> expected <= input
    ensures res.0 ==> res.1 == input[|expected|..]
    ensures |res.1| <= |input| && res.1 == input[|input| - |res.1|..]
    decreases |expected|
  {
    if expected == [] then (true, input)
    else if input == [] then (false, [])
    else if input[0] != expected[0] then (false, input[1..])
    else Awaited(input[1..], expected[1..])
  }

  /** The wait ends at the first mismatch, with that byte consumed. */
  lemma {:induction false} AwaitedMismatch(input: seq<byte>, expected: seq<byte>, k: nat)
    requires k < |expected| && k < |input| && input[..k] == expected[..k] && input[k] != expected[k]
    ensures Awaited(input, expected) == (false, input[k + 1..])
    decreases k
  {
    if k > 0 {
      assert input[1..][..k - 1] == input[1..k] == expected[1..k] == expected[1..][..k - 1];
      AwaitedMismatch(input[1..], expected[1..], k - 1);
      assert input[1..][k..] == input[k + 1..];
    }
  }

  // ---------------------------------------------------------------------------
  // getUntil

  /** The loop of getUntil from the state `escaped`, with room for `room` more
      bytes: the bytes stored and the input left over. An escape byte is
      dropped and the byte after it stored whatever it is; an unescaped
      separator ends the field and is not stored. */
  function Scan(input: seq<byte>, room: nat, sep: byte, esc: byte, escaped: bool): (res: (seq<byte>, seq<byte>))
    decreases |input|
  {
    if room == 0 then ([], input)
    else if input == [] then ([], [])
    else if !escaped && input[0] == esc then Scan(input[1..], room, sep, esc, true)
    else if !escaped && input[0] == sep then ([], input[1..])
    else
      var r := Scan(input[1..], room - 1, sep, esc, false);
      ([input[0]] + r.0, r.1)
  }

  /** getUntil into a buffer of `maxLen` bytes: at most maxLen - 1 are stored,
      since the last holds the terminator. */
  function Field(input: seq<byte>, maxLen: nat, sep: byte, esc: byte): (res: (seq<byte>, seq<byte>))
    requires maxLen >= 1
  {
    Scan(input, maxLen - 1, sep, esc, false)
  }

  /** The field stays within its room and the rest is a suffix of the input. */
  lemma {:induction false} ScanBounds(input: seq<byte>, room: nat, sep: byte, esc: byte, escaped: bool)
    ensures var (f, rest) := Scan(input, room, sep, esc, escaped);
            |f| <= room && |rest| <= |input| && rest == input[|input| - |rest|..]
    decreases |input|
  {
    if room > 0 && input != [] {
      if !escaped && input[0] == esc {
        ScanBounds(input[1..], room, sep, esc, true);
      } else if !(!escaped && input[0] == sep) {
        ScanBounds(input[1..], room - 1, sep, esc, false);
      }
    }
  }

  /** How a host writes a field: every separator and escape byte is preceded
      by an escape byte. */
  function Escape(s: seq<byte>, sep: byte, esc: byte): (e: seq<byte>)
    decreases |s|
  {
    if s == [] then []
    else (if s[0] == sep || s[0] == esc then [esc, s[0]] else [s[0]]) + Escape(s[1..], sep, esc)
  }

  /** How a host writes one byte of a field. */
  function EscapeByte(c: byte, sep: byte, esc: byte): seq<byte> {
    if c == sep || c == esc then [esc, c] else [c]
  }

  /** One byte written by the host is read back as that byte. */
  lemma ScanStep(c: byte, rest: seq<byte>, room: nat, sep: byte, esc: byte)
    requires sep != esc && room > 0
    ensures var r := Scan(rest, room - 1, sep, esc, false);
            Scan(EscapeByte(c, sep, esc) + rest, room, sep, esc, false) == ([c] + r.0, r.1)
  {
    var input := EscapeByte(c, sep, esc) + rest;
    if c == sep || c == esc {
      assert input[1..][1..] == rest;
    } else {
      assert input[1..] == rest;
    }
  }

  lemma EscapeCons(s: seq<byte>, tail: seq<byte>, sep: byte, esc: byte)
    requires s != []
    ensures Escape(s, sep, esc) + tail == EscapeByte(s[0], sep, esc) + (Escape(s[1..], sep, esc) + tail)
  {
  }

  /** A field that fits is read back exactly, and the separator after it is
      consumed. */
  lemma {:induction false} ScanRoundTrip(s: seq<byte>, rest: seq<byte>, room: nat, sep: byte, esc: byte)
    requires sep != esc && |s| < room
    ensures Scan(Escape(s, sep, esc) + [sep] + rest, room, sep, esc, false) == (s, rest)
    decreases |s|
  {
    if s == [] {
      assert Escape(s, sep, esc) + [sep] + rest == [sep] + rest;
    } else {
      ScanRoundTrip(s[1..], rest, room - 1, sep, esc);
      EscapeCons(s, [sep] + rest, sep, esc);
      assert Escape(s, sep, esc) + [sep] + rest == Escape(s, sep, esc) + ([sep] + rest);
      assert Escape(s[1..], sep, esc) + ([sep] + rest) == Escape(s[1..], sep, esc) + [sep] + rest;
      ScanStep(s[0], Escape(s[1..], sep, esc) + [sep] + rest, room, sep, esc);
      assert [s[0]] + s[1..] == s;
    }
  }

  /** A field longer than the room is cut after `room` bytes; the rest of it,
      still escaped, stays in the input. */
  lemma {:induction false} ScanTruncates(s: seq<byte>, tail: seq<byte>, room: nat, sep: byte, esc: byte)
    requires sep != esc && room <= |s|
    ensures Scan(Escape(s, sep, esc) + tail, room, sep, esc, false) == (s[..room], Escape(s[room..], sep, esc) + tail)
    decreases room
  {
    if room == 0 {
      assert s[room..] == s;
    } else {
      var later := Escape(s[1..], sep, esc) + tail;
      var head := s[1..][..room - 1];
      var left := Escape(s[room..], sep, esc) + tail;
      assert Scan(later, room - 1, sep, esc, false) == (head, left) by {
        ScanTruncates(s[1..], tail, room - 1, sep, esc);
        assert s[1..][room - 1..] == s[room..];
      }
      assert Escape(s, sep, esc) + tail == EscapeByte(s[0], sep, esc) + later by {
        EscapeCons(s, tail, sep, esc);
      }
      assert [s[0]] + head == s[..room];
      ScanStep(s[0], later, room, sep, esc);
    }
  }

  /** When the input ends before the separator, the field is what arrived. */
  lemma {:induction false} ScanTimesOut(s: seq<byte>, room: nat, sep: byte, esc: byte)
    requires sep != esc && |s| <= room
    ensures Scan(Escape(s, sep, esc), room, sep, esc, false) == (s, [])
    decreases |s|
  {
    if s != [] {
      ScanTimesOut(s[1..], room - 1, sep, esc);
      EscapeCons(s, [], sep, esc);
      assert Escape(s, sep, esc) + [] == Escape(s, sep, esc);
      assert Escape(s[1..], sep, esc) + [] == Escape(s[1..], sep, esc);
      ScanStep(s[0], Escape(s[1..], sep, esc), room, sep, esc);
      assert [s[0]] + s[1..] == s;
    }
  }

  // ---------------------------------------------------------------------------
  // The port

  /** The serial port: the bytes the host has sent and the firmware has not
      read yet. */
  class SerialPort {
    var input: seq<byte>

    constructor(input: seq<byte>)
      ensures this.input == input
    {
      this.input := input;
    }

    /** waitFor: one byte at a time, each compared with the next expected one. */
    method WaitFor(expected: seq<byte>) returns (ok: bool)
      modifies this
      ensures (ok, input) == Awaited(old(input), expected)
    {
      var i := 0;
      while i < |expected|
        invariant i <= |expected|
        invariant Awaited(old(input), expected) == Awaited(input, expected[i..])
      {
        if input == [] {
          return false;
        }
        var got := input[0];
        input := input[1..];
        if got != expected[i] {
          return false;
        }
        i := i + 1;
      }
      return true;
    }

    /** getBytes: zero `len` bytes of the buffer, then fill them from the front
        packet by packet until they are all read or the input ends. */
    method GetBytes(buffer: array<byte>, len: nat) returns (n: nat)
      requires len <= buffer.Length
      modifies this, buffer
      ensures n == Min(len, |old(input)|) && input == old(input)[n..]
      ensures buffer[..n] == old(input)[..n]
      ensures forall i :: n <= i < len ==> buffer[i] == 0
      ensures buffer[len..] == old(buffer[len..])
    {
      forall i | 0 <= i < len {
        buffer[i] := 0;
      }
      ghost var sent := input;
      n := 0;
      while n < len && input != []
        invariant n <= len && n <= |sent| && input == sent[n..]
        invariant buffer[..n] == sent[..n]
        invariant forall i :: n <= i < len ==> buffer[i] == 0
        invariant buffer[len..] == old(buffer[len..])
        decreases len - n
      {
        var got := Min(Min(len - n, MAX_UART_PACKET), |input|);
        forall i | 0 <= i < got {
          buffer[n + i] := input[i];
        }
        assert buffer[..n + got] == sent[..n + got] by {
          assert forall i :: 0 <= i < n + got ==> buffer[i] == sent[i];
        }
        input := input[got..];
        n := n + got;
      }
    }

    /** getUntil: store the field's bytes at the front of the buffer, then the
        terminator after them, and return how many were stored. */
    method GetUntil(buffer: array<byte>, maxLen: nat, sep: byte, esc: byte) returns (n: nat)
      requires 1 <= maxLen <= buffer.Length
      modifies this, buffer
      ensures var (f, rest) := Field(old(input), maxLen, sep, esc);
              n == |f| && n < maxLen && buffer[..n] == f && buffer[n] == 0 && input == rest
      ensures buffer[n + 1..] == old(buffer[n + 1..])
    {
      ghost var target := Field(input, maxLen, sep, esc);
      ghost var original := buffer[..];
      ghost var stored: seq<byte> := [];
      n := 0;
      var escaped := false;
      while n < maxLen - 1 && input != []
        invariant n <= maxLen - 1 && n == |stored|
        invariant Pending(target, stored, Scan(input, maxLen - 1 - n, sep, esc, escaped))
        invariant buffer[..] == stored + original[n..]
        decreases |input|
      {
        Advance(target, stored, input, maxLen - 1 - n, sep, esc, escaped);
        var b := input[0];
        input := input[1..];
        if escaped {
          escaped := false;
        } else if b == esc {
          escaped := true;
          continue;
        } else if b == sep {
          break;
        }
        buffer[n] := b;
        Stored(stored, original[n..], b);
        stored := stored + [b];
        n := n + 1;
      }
      buffer[n] := 0;
      Stored(stored, original[n..], 0);
      assert buffer[..n] == stored;
      assert buffer[n + 1..] == original[n + 1..];
    }
  }

  /** Writing after the bytes already stored: the byte joins them and the
      rest of the buffer loses its first byte. */
  lemma Stored(stored: seq<byte>, rest: seq<byte>, b: byte)
    requires rest != []
    ensures (stored + rest)[|stored| := b] == (stored + [b]) + rest[1..]
  {
    assert (stored + rest)[|stored| := b] == (stored + [b]) + rest[1..];
  }

  /** One turn of the loop of getUntil keeps its invariant: a byte after an
      escape, or one that is neither escape nor separator, is stored; an
      escape byte only changes the state; a separator ends the field. */
  lemma Advance(target: (seq<byte>, seq<byte>), stored: seq<byte>, input: seq<byte>, room: nat,
                sep: byte, esc: byte, escaped: bool)
    requires room > 0 && input != []
    requires Pending(target, stored, Scan(input, room, sep, esc, escaped))
    ensures escaped || (input[0] != esc && input[0] != sep) ==>
              Pending(target, stored + [input[0]], Scan(input[1..], room - 1, sep, esc, false))
    ensures !escaped && input[0] == esc ==> Pending(target, stored, Scan(input[1..], room, sep, esc, true))
    ensures !escaped && input[0] == sep && input[0] != esc ==> target == (stored, input[1..])
  {
    var r := Scan(input[1..], room - 1, sep, esc, false);
    if escaped || (input[0] != esc && input[0] != sep) {
      assert Scan(input, room, sep, esc, escaped) == ([input[0]] + r.0, r.1);
      assert stored + ([input[0]] + r.0) == (stored + [input[0]]) + r.0;
    } else if input[0] == sep && input[0] != esc {
      assert stored + [] == stored;
    }
  }

  /** The loop invariant of getUntil: what is stored so far, followed by what
      the rest of the loop stores, is the field. */
  predicate Pending(target: (seq<byte>, seq<byte>), stored: seq<byte>, later: (seq<byte>, seq<byte>)) {
    target.0 == stored + later.0 && target.1 == later.1
  }
}
