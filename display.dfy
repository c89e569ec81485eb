/** The display of the older firmware (src/display/i75w/display.cpp): the
    shadow buffer that `scroll_up` rewrites in place, the frame buffer `update`
    fills from it, and the text cursor of `print`. The panel geometry is that
    of module Matrix: 256 x 64 pixels, and buffers of four bytes a pixel
    (PicoGraphics_PenRGB888 keeps each pixel in a 32-bit word). scroll_up
    indexes the buffer with a stride of three bytes a pixel instead; the
    functions below state byte by byte what it does, and what that means for
    the panel's 4-byte pixels. */
module Display {
  import opened Bytes
  import opened Matrix

  /** The bytes of one row as scroll_up indexes them, three a pixel. */
  const ROW_BYTES: nat := WIDTH * 3
  /** How far scroll_up moves a byte: eight of its 3-byte rows. */
  const SHIFT: nat := FONT_HEIGHT * ROW_BYTES
  /** The bytes scroll_up copies into: its first 56 rows of 3-byte pixels. */
  const MOVED: nat := (HEIGHT - FONT_HEIGHT) * ROW_BYTES
  /** The end of what scroll_up touches: 64 rows of 3-byte pixels, three
      quarters of the buffer. */
  const PIXELS_END: nat := HEIGHT * ROW_BYTES

  lemma ScrollGeometry()
    ensures MOVED + SHIFT == PIXELS_END && PIXELS_END < BUFFER_SIZE
    ensures ROW_BYTES == 768 && SHIFT == 6144 && PIXELS_END == 49152
  {
  }

  // ---------------------------------------------------------------------------
  // scroll_up

  /** The byte scroll_up addresses as channel k of pixel (x, y): (y·256+x)·3+k. */
  function PixelIndex(y: nat, x: nat, k: nat): (i: nat)
    requires y < HEIGHT && x < WIDTH && k < 3
    ensures i < PIXELS_END && i == y * ROW_BYTES + x * 3 + k
  {
    (y * WIDTH + x) * 3 + k
  }

  /** The shadow buffer after scroll_up, stated byte by byte: the first MOVED
      bytes take the byte SHIFT further on, bytes MOVED up to PIXELS_END are
      zero, and the last quarter is as it was. */
  function ScrolledUp(b: seq<byte>): (r: seq<byte>)
    requires |b| == BUFFER_SIZE
    ensures |r| == BUFFER_SIZE
    ensures forall i :: 0 <= i < MOVED ==> r[i] == b[i + SHIFT]
    ensures forall i :: MOVED <= i < PIXELS_END ==> r[i] == 0
    ensures forall i :: PIXELS_END <= i < BUFFER_SIZE ==> r[i] == b[i]
  {
    seq(BUFFER_SIZE, i requires 0 <= i < BUFFER_SIZE => if i < MOVED then b[i + SHIFT] else if i < PIXELS_END then 0 else b[i])
  }

  /** In scroll_up's 3-byte indexing, the byte of (x, y) for y < 56 takes the
      old byte of (x, y + 8). */
  lemma ScrollMovesPixels(b: seq<byte>, y: nat, x: nat, k: nat)
    requires |b| == BUFFER_SIZE && y < HEIGHT - FONT_HEIGHT && x < WIDTH && k < 3
    ensures ScrolledUp(b)[PixelIndex(y, x, k)] == b[PixelIndex(y + FONT_HEIGHT, x, k)]
  {
    assert PixelIndex(y + FONT_HEIGHT, x, k) == PixelIndex(y, x, k) + SHIFT;
  }

  /** In scroll_up's 3-byte indexing, the bytes of rows 56 to 63 are zero. */
  lemma ScrollClearsLastLine(b: seq<byte>, y: nat, x: nat, k: nat)
    requires |b| == BUFFER_SIZE && HEIGHT - FONT_HEIGHT <= y < HEIGHT && x < WIDTH && k < 3
    ensures ScrolledUp(b)[PixelIndex(y, x, k)] == 0
  {
  }

  // ---------------------------------------------------------------------------
  // scroll_up on the panel's 4-byte pixels

  /** The bytes of one panel row: four a pixel. */
  const WORD_ROW_BYTES: nat := WIDTH * 4

  /** Byte k of the 32-bit word that holds pixel (x, y) in a PenRGB888 buffer. */
  function PixelByte(y: nat, x: nat, k: nat): (i: nat)
    requires y < HEIGHT && x < WIDTH && k < 4
    ensures i < BUFFER_SIZE && i == y * WORD_ROW_BYTES + x * 4 + k
  {
    (y * WIDTH + x) * 4 + k
  }

  /** As written, scroll_up moves the top of the panel up by six rows, not
      eight: for y < 42, every byte of pixel (x, y) takes the old byte of pixel
      (x, y + 6). */
  lemma ScrollMovesSixRows(b: seq<byte>, y: nat, x: nat, k: nat)
    requires |b| == BUFFER_SIZE && y < 42 && x < WIDTH && k < 4
    ensures ScrolledUp(b)[PixelByte(y, x, k)] == b[PixelByte(y + 6, x, k)]
  {
    assert PixelByte(y, x, k) < MOVED;
    assert PixelByte(y + 6, x, k) == PixelByte(y, x, k) + SHIFT;
  }

  /** As written, scroll_up leaves the whole last text line of the panel (rows
      56 to 63) as it was, so the line the cursor returns to is not cleared. */
  lemma ScrollKeepsBottomLine(b: seq<byte>, y: nat, x: nat, k: nat)
    requires |b| == BUFFER_SIZE && HEIGHT - FONT_HEIGHT <= y < HEIGHT && x < WIDTH && k < 4
    ensures ScrolledUp(b)[PixelByte(y, x, k)] == b[PixelByte(y, x, k)]
  {
    assert PixelByte(y, x, k) >= PIXELS_END;
  }

  /** scroll_up with the buffer's own stride of four bytes a pixel: each byte
      of the first 56 panel rows takes the byte eight rows further on, and the
      last eight rows are zero. */
  function ScrolledUpByLine(b: seq<byte>): (r: seq<byte>)
    requires |b| == BUFFER_SIZE
    ensures |r| == BUFFER_SIZE
  {
    var moved := (HEIGHT - FONT_HEIGHT) * WORD_ROW_BYTES;
    seq(BUFFER_SIZE, i requires 0 <= i < BUFFER_SIZE =>
      if i < moved then b[i + FONT_HEIGHT * WORD_ROW_BYTES] else 0)
  }

  /** Corrected, every pixel above the last text line takes the colour of the
      pixel one text line below it. */
  lemma ScrollByLineMovesPixels(b: seq<byte>, y: nat, x: nat, k: nat)
    requires |b| == BUFFER_SIZE && y < HEIGHT - FONT_HEIGHT && x < WIDTH && k < 4
    ensures ScrolledUpByLine(b)[PixelByte(y, x, k)] == b[PixelByte(y + FONT_HEIGHT, x, k)]
  {
    assert PixelByte(y, x, k) < (HEIGHT - FONT_HEIGHT) * WORD_ROW_BYTES;
    assert PixelByte(y + FONT_HEIGHT, x, k) == PixelByte(y, x, k) + FONT_HEIGHT * WORD_ROW_BYTES;
  }

  /** Corrected, every pixel of the last text line is black. */
  lemma ScrollByLineClearsLastLine(b: seq<byte>, y: nat, x: nat, k: nat)
    requires |b| == BUFFER_SIZE && HEIGHT - FONT_HEIGHT <= y < HEIGHT && x < WIDTH && k < 4
    ensures ScrolledUpByLine(b)[PixelByte(y, x, k)] == 0
  {
    assert PixelByte(y, x, k) >= (HEIGHT - FONT_HEIGHT) * WORD_ROW_BYTES;
  }

  /** The part of the shadow buffer the first loop has rewritten. */
  predicate MovedUpTo(b: seq<byte>, s: seq<byte>, n: nat)
    requires |b| == |s| == BUFFER_SIZE
  {
    (forall i :: 0 <= i < n && i < MOVED ==> s[i] == b[i + SHIFT]) && (forall i :: n <= i < BUFFER_SIZE ==> s[i] == b[i])
  }

  /** The part the second loop has cleared. */
  predicate ClearedUpTo(b: seq<byte>, s: seq<byte>, n: nat)
    requires |b| == |s| == BUFFER_SIZE
  {
    (forall i :: 0 <= i < MOVED ==> s[i] == b[i + SHIFT]) && (forall i :: MOVED <= i < n && i < BUFFER_SIZE ==> s[i] == 0)
    && (forall i :: n <= i < BUFFER_SIZE && MOVED <= i ==> s[i] == b[i])
  }

  /** The offsets the loops of scroll_up compute for (x, y). */
  lemma PixelOffsets(y: nat, x: nat)
    requires y < HEIGHT && x < WIDTH
    ensures (y * WIDTH + x) * 3 + 3 == (y * WIDTH + x + 1) * 3
    ensures (y * WIDTH + x) * 3 + 3 <= (y + 1) * WIDTH * 3 <= PIXELS_END
    ensures y < HEIGHT - FONT_HEIGHT ==> (y + 1) * WIDTH * 3 <= MOVED
    ensures y < HEIGHT - FONT_HEIGHT ==> ((y + FONT_HEIGHT) * WIDTH + x) * 3 == (y * WIDTH + x) * 3 + SHIFT
    ensures y >= HEIGHT - FONT_HEIGHT ==> MOVED <= y * WIDTH * 3
  {
  }

  // ---------------------------------------------------------------------------
  // The cursor of print

  /** Where graphics.text was asked to draw one character. */
  datatype Glyph = Glyph(c: char, x: int, y: int)

  /** cursor_x, cursor_y, the shadow buffer and the characters drawn so far. */
  datatype Panel = Panel(x: int, y: int, shadow: seq<byte>, drawn: seq<Glyph>)

  /** The move to a new line. As written, scroll_up already lifts the cursor
      by a line and print lifts it once more; `corrected` drops the second lift. */
  function NextLine(p: Panel, corrected: bool): (q: Panel)
    requires |p.shadow| == BUFFER_SIZE
    ensures |q.shadow| == BUFFER_SIZE && q.x == 0 && q.drawn == p.drawn
  {
    var down := p.(x := 0, y := p.y + FONT_HEIGHT);
    if down.y + FONT_HEIGHT > HEIGHT then
      var scrolled := down.(shadow := ScrolledUp(down.shadow), y := down.y - FONT_HEIGHT);
      if corrected then scrolled else scrolled.(y := scrolled.y - FONT_HEIGHT)
    else down
  }

  /** One character of print: a new line for '\n' or when the character does
      not fit, then (unless it is '\n') the character at the cursor, which
      moves right by its measured width. */
  function PrintedChar(p: Panel, c: char, measure: string -> nat, corrected: bool): (q: Panel)
    requires |p.shadow| == BUFFER_SIZE
    ensures |q.shadow| == BUFFER_SIZE
  {
    var w := measure([c]);
    var p1 := if c == NEWLINE || p.x + w >= WIDTH then NextLine(p, corrected) else p;
    if c == NEWLINE then p1 else p1.(x := p1.x + w, drawn := p1.drawn + [Glyph(c, p1.x, p1.y)])
  }

  /** The characters of `text` printed one by one. */
  function Printed(p: Panel, text: string, measure: string -> nat, corrected: bool): (q: Panel)
    requires |p.shadow| == BUFFER_SIZE
    ensures |q.shadow| == BUFFER_SIZE
    decreases |text|
  {
    if text == [] then p
    else PrintedChar(Printed(p, text[..|text| - 1], measure, corrected), text[|text| - 1], measure, corrected)
  }

  /** The cursor is on one of the eight text lines, and x is not negative. */
  predicate OnScreen(p: Panel) {
    0 <= p.y <= HEIGHT - FONT_HEIGHT && p.y % FONT_HEIGHT == 0 && p.x >= 0
  }

  /** Each character keeps the cursor on screen, in both versions, and is
      drawn on a text line of the screen. */
  lemma PrintedCharOnScreen(p: Panel, c: char, measure: string -> nat, corrected: bool)
    requires |p.shadow| == BUFFER_SIZE && OnScreen(p)
    ensures var q := PrintedChar(p, c, measure, corrected);
            OnScreen(q) && |q.drawn| >= |p.drawn| && q.drawn[..|p.drawn|] == p.drawn
            && forall i :: |p.drawn| <= i < |q.drawn| ==> 0 <= q.drawn[i].y <= HEIGHT - FONT_HEIGHT
  {
  }

  /** Printing a whole text keeps the cursor on screen and draws every
      character on a text line of the screen. */
  lemma {:induction false} PrintStaysOnScreen(p: Panel, text: string, measure: string -> nat, corrected: bool)
    requires |p.shadow| == BUFFER_SIZE && OnScreen(p)
    ensures var q := Printed(p, text, measure, corrected);
            OnScreen(q) && |q.drawn| >= |p.drawn| && q.drawn[..|p.drawn|] == p.drawn
            && forall i :: |p.drawn| <= i < |q.drawn| ==> 0 <= q.drawn[i].y <= HEIGHT - FONT_HEIGHT
    decreases |text|
  {
    if text != [] {
      var p1 := Printed(p, text[..|text| - 1], measure, corrected);
      PrintStaysOnScreen(p, text[..|text| - 1], measure, corrected);
      PrintedCharOnScreen(p1, text[|text| - 1], measure, corrected);
    }
  }

  /** The three bytes scroll_up treats as pixel (x, y), in its own 3-byte
      indexing (not the panel's pixel, which PixelByte locates). */
  function Pixel(b: seq<byte>, y: nat, x: nat): (c: (byte, byte, byte))
    requires |b| == BUFFER_SIZE && y < HEIGHT && x < WIDTH
  {
    (b[PixelIndex(y, x, 0)], b[PixelIndex(y, x, 1)], b[PixelIndex(y, x, 2)])
  }

  /** As written, a new line from the last text line lifts the cursor to the
      line above, and in scroll_up's 3-byte indexing the bytes of the old
      cursor line are now found at the new cursor line. */
  lemma NewLineAtBottomOverwrites(p: Panel, r: nat, x: nat)
    requires |p.shadow| == BUFFER_SIZE && p.y == HEIGHT - FONT_HEIGHT && r < FONT_HEIGHT && x < WIDTH
    ensures var q := NextLine(p, false);
            q.y == HEIGHT - 2 * FONT_HEIGHT && Pixel(q.shadow, q.y + r, x) == Pixel(p.shadow, p.y + r, x)
  {
    var q := NextLine(p, false);
    ScrollMovesPixels(p.shadow, q.y + r, x, 0);
    ScrollMovesPixels(p.shadow, q.y + r, x, 1);
    ScrollMovesPixels(p.shadow, q.y + r, x, 2);
  }

  /** With the cursor corrected, a new line always leaves the bytes of the
      line the cursor was on directly above the cursor, in scroll_up's 3-byte
      indexing, whether or not the buffer scrolled. */
  lemma NewLineKeepsLineAbove(p: Panel, r: nat, x: nat)
    requires |p.shadow| == BUFFER_SIZE && OnScreen(p) && r < FONT_HEIGHT && x < WIDTH
    ensures var q := NextLine(p, true);
            OnScreen(q) && q.y >= FONT_HEIGHT
            && Pixel(q.shadow, q.y - FONT_HEIGHT + r, x) == Pixel(p.shadow, p.y + r, x)
  {
    if p.y == HEIGHT - FONT_HEIGHT {
      var q := NextLine(p, true);
      assert q.shadow == ScrolledUp(p.shadow) && q.y == p.y;
      ScrollMovesPixels(p.shadow, p.y - FONT_HEIGHT + r, x, 0);
      ScrollMovesPixels(p.shadow, p.y - FONT_HEIGHT + r, x, 1);
      ScrollMovesPixels(p.shadow, p.y - FONT_HEIGHT + r, x, 2);
    }
  }

  /** With the cursor corrected, a new line from the last text line leaves
      the cursor there, on the line scroll_up has zeroed in its own 3-byte
      indexing. */
  lemma NewLineAtBottomClears(p: Panel, r: nat, x: nat)
    requires |p.shadow| == BUFFER_SIZE && p.y == HEIGHT - FONT_HEIGHT && r < FONT_HEIGHT && x < WIDTH
    ensures var q := NextLine(p, true);
            q.y == p.y && Pixel(q.shadow, q.y + r, x) == (0, 0, 0)
  {
    ScrollClearsLastLine(p.shadow, p.y + r, x, 0);
    ScrollClearsLastLine(p.shadow, p.y + r, x, 1);
    ScrollClearsLastLine(p.shadow, p.y + r, x, 2);
  }

  /** As written, on the panel's 4-byte pixels: a new line from the last text
      line lifts the cursor to row 48, whose pixels scroll_up has left as they
      were, and the line the cursor was on stays where it was below it. The
      next character is drawn over the line printed before the last one. */
  lemma NewLineAtBottomOnPanel(p: Panel, r: nat, x: nat, k: nat)
    requires |p.shadow| == BUFFER_SIZE && p.y == HEIGHT - FONT_HEIGHT && r < FONT_HEIGHT && x < WIDTH && k < 4
    ensures var q := NextLine(p, false);
            q.y == HEIGHT - 2 * FONT_HEIGHT
            && q.shadow[PixelByte(q.y + r, x, k)] == p.shadow[PixelByte(q.y + r, x, k)]
            && q.shadow[PixelByte(p.y + r, x, k)] == p.shadow[PixelByte(p.y + r, x, k)]
  {
    var q := NextLine(p, false);
    assert PixelByte(q.y + r, x, k) >= PIXELS_END;
    assert PixelByte(p.y + r, x, k) >= PIXELS_END;
  }

  /** The new line print evidently intends: the cursor moves down one text
      line, and from the last text line the panel scrolls by a whole text
      line of 4-byte pixels and the cursor stays on the last line. */
  function IntendedNextLine(p: Panel): (q: Panel)
    requires |p.shadow| == BUFFER_SIZE
    ensures |q.shadow| == BUFFER_SIZE && q.x == 0 && q.drawn == p.drawn
  {
    var down := p.(x := 0, y := p.y + FONT_HEIGHT);
    if down.y + FONT_HEIGHT > HEIGHT then
      down.(shadow := ScrolledUpByLine(down.shadow), y := down.y - FONT_HEIGHT)
    else down
  }

  /** Intended, on the panel's pixels: a new line always leaves every pixel of
      the line the cursor was on directly above the cursor, whether or not the
      panel scrolled. */
  lemma IntendedNewLineKeepsLineAbove(p: Panel, r: nat, x: nat, k: nat)
    requires |p.shadow| == BUFFER_SIZE && OnScreen(p) && r < FONT_HEIGHT && x < WIDTH && k < 4
    ensures var q := IntendedNextLine(p);
            OnScreen(q) && q.y >= FONT_HEIGHT
            && q.shadow[PixelByte(q.y - FONT_HEIGHT + r, x, k)] == p.shadow[PixelByte(p.y + r, x, k)]
  {
    if p.y == HEIGHT - FONT_HEIGHT {
      ScrollByLineMovesPixels(p.shadow, p.y - FONT_HEIGHT + r, x, k);
    }
  }

  /** Intended, on the panel's pixels: a new line from the last text line
      leaves the cursor there, on a line whose every pixel is black. */
  lemma IntendedNewLineAtBottomClears(p: Panel, r: nat, x: nat, k: nat)
    requires |p.shadow| == BUFFER_SIZE && p.y == HEIGHT - FONT_HEIGHT && r < FONT_HEIGHT && x < WIDTH && k < 4
    ensures var q := IntendedNextLine(p);
            q.y == p.y && q.shadow[PixelByte(q.y + r, x, k)] == 0
  {
    ScrollByLineClearsLastLine(p.shadow, p.y + r, x, k);
  }

  // ---------------------------------------------------------------------------
  // The display

  class Display {
    /** display::buffer, which graphics draws on and the panel shows, and
        shadow_buffer. */
    const buffer: array<byte>
    const shadow: array<byte>
    var cursorX: int
    var cursorY: int
    /** The characters graphics.text was asked to draw, and the frames handed
        to hub75.update. */
    var drawn: seq<Glyph>
    var shown: seq<seq<byte>>

    predicate Valid()
      reads this
    {
      buffer.Length == BUFFER_SIZE && shadow.Length == BUFFER_SIZE && buffer != shadow
    }

    function State(): Panel
      reads this, shadow
    {
      Panel(cursorX, cursorY, shadow[..], drawn)
    }

    /** The cursor starts at the top-left corner. */
    constructor(frame: array<byte>, back: array<byte>)
      requires frame.Length == BUFFER_SIZE && back.Length == BUFFER_SIZE && frame != back
      ensures Valid() && buffer == frame && shadow == back
      ensures cursorX == 0 && cursorY == 0 && drawn == [] && shown == []
    {
      buffer, shadow := frame, back;
      cursorX, cursorY := 0, 0;
      drawn, shown := [], [];
    }

    /** update: the frame buffer becomes a copy of the shadow buffer, and the
        panel is handed the frame. */
    method Update()
      requires Valid()
      modifies this, buffer
      ensures Valid() && buffer[..] == shadow[..] && shown == old(shown) + [shadow[..]]
      ensures cursorX == old(cursorX) && cursorY == old(cursorY) && drawn == old(drawn)
    {
      forall i | 0 <= i < BUFFER_SIZE {
        buffer[i] := shadow[i];
      }
      assert buffer[..] == shadow[..];
      shown := shown + [buffer[..]];
    }

    /** scroll_up. */
    method ScrollUp()
      requires Valid()
      modifies this, shadow
      ensures Valid() && shadow[..] == ScrolledUp(old(shadow[..]))
      ensures cursorY == old(cursorY) - FONT_HEIGHT
      ensures cursorX == old(cursorX) && drawn == old(drawn) && shown == old(shown)
    {
      ghost var b := shadow[..];
      MoveUp();
      ClearLastLine(b);
      cursorY := cursorY - FONT_HEIGHT;
    }

    /** The first loop of scroll_up: each of the first MOVED bytes takes the
        byte SHIFT further on, copied upwards in place. */
    method MoveUp()
      requires Valid()
      modifies shadow
      ensures MovedUpTo(old(shadow[..]), shadow[..], MOVED)
    {
      ghost var b := shadow[..];
      var y := 0;
      while y < HEIGHT - FONT_HEIGHT
        invariant 0 <= y <= HEIGHT - FONT_HEIGHT
        invariant MovedUpTo(b, shadow[..], y * WIDTH * 3)
      {
        MoveRow(b, y);
        y := y + 1;
      }
    }

    /** One pass of the inner loop: row y takes the colours of row y + 8. */
    method MoveRow(ghost b: seq<byte>, y: nat)
      requires Valid() && |b| == BUFFER_SIZE && y < HEIGHT - FONT_HEIGHT
      requires MovedUpTo(b, shadow[..], y * WIDTH * 3)
      modifies shadow
      ensures MovedUpTo(b, shadow[..], (y + 1) * WIDTH * 3)
    {
      var x := 0;
      while x < WIDTH
        invariant 0 <= x <= WIDTH
        invariant MovedUpTo(b, shadow[..], (y * WIDTH + x) * 3)
      {
        var from := ((y + FONT_HEIGHT) * WIDTH + x) * 3;
        var to := (y * WIDTH + x) * 3;
        PixelOffsets(y, x);
        MovePixel(b, to, from);
        x := x + 1;
      }
    }

    /** The three channel copies of one pixel. */
    method MovePixel(ghost b: seq<byte>, to: nat, from: nat)
      requires Valid() && |b| == BUFFER_SIZE && from == to + SHIFT && to + 3 <= MOVED
      requires MovedUpTo(b, shadow[..], to)
      modifies shadow
      ensures MovedUpTo(b, shadow[..], to + 3)
    {
      shadow[to] := shadow[from];
      shadow[to + 1] := shadow[from + 1];
      shadow[to + 2] := shadow[from + 2];
    }

    /** The second loop of scroll_up: bytes MOVED up to PIXELS_END turn zero. */
    method ClearLastLine(ghost b: seq<byte>)
      requires Valid() && |b| == BUFFER_SIZE && MovedUpTo(b, shadow[..], MOVED)
      modifies shadow
      ensures shadow[..] == ScrolledUp(b)
    {
      var y := HEIGHT - FONT_HEIGHT;
      while y < HEIGHT
        invariant HEIGHT - FONT_HEIGHT <= y <= HEIGHT
        invariant ClearedUpTo(b, shadow[..], y * WIDTH * 3)
      {
        ClearRow(b, y);
        y := y + 1;
      }
      assert shadow[..] == ScrolledUp(b);
    }

    /** One pass of the inner loop: the 768 bytes of row y turn zero. */
    method ClearRow(ghost b: seq<byte>, y: nat)
      requires Valid() && |b| == BUFFER_SIZE && HEIGHT - FONT_HEIGHT <= y < HEIGHT
      requires ClearedUpTo(b, shadow[..], y * WIDTH * 3)
      modifies shadow
      ensures ClearedUpTo(b, shadow[..], (y + 1) * WIDTH * 3)
    {
      var x := 0;
      while x < WIDTH
        invariant 0 <= x <= WIDTH
        invariant ClearedUpTo(b, shadow[..], (y * WIDTH + x) * 3)
      {
        var index := (y * WIDTH + x) * 3;
        PixelOffsets(y, x);
        shadow[index] := 0;
        shadow[index + 1] := 0;
        shadow[index + 2] := 0;
        x := x + 1;
      }
    }

    /** One turn of print's loop. */
    method PrintChar(c: char, measure: string -> nat)
      requires Valid()
      modifies this, shadow
      ensures Valid() && State() == PrintedChar(old(State()), c, measure, false) && shown == old(shown)
    {
      var w := measure([c]);
      if c == NEWLINE || cursorX + w >= WIDTH {
        NewLine();
      }
      if c != NEWLINE {
        drawn := drawn + [Glyph(c, cursorX, cursorY)];
        cursorX := cursorX + w;
      }
    }

    /** The move to a new line, with the scroll at the bottom. */
    method NewLine()
      requires Valid()
      modifies this, shadow
      ensures Valid() && State() == NextLine(old(State()), false) && shown == old(shown)
    {
      cursorX := 0;
      cursorY := cursorY + FONT_HEIGHT;
      if cursorY + FONT_HEIGHT > HEIGHT {
        ScrollUp();
        cursorY := cursorY - FONT_HEIGHT;
      }
    }

    /** print: the text, with a newline unless appending, character by
        character; then update. */
    method Print(text: string, append: bool, measure: string -> nat)
      requires Valid()
      modifies this, shadow, buffer
      ensures Valid() && State() == Printed(old(State()), Terminated(text, append), measure, false)
      ensures buffer[..] == shadow[..] && shown == old(shown) + [shadow[..]]
    {
      var t := if append then text else text + [NEWLINE];
      ghost var start := State();
      for i := 0 to |t|
        invariant Valid() && State() == Printed(start, t[..i], measure, false)
        invariant shown == old(shown)
      {
        assert t[..i + 1][..i] == t[..i];
        PrintChar(t[i], measure);
      }
      assert t[..|t|] == t;
      Update();
    }
  }
}
