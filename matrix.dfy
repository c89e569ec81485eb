/** The text console of the matrix (matrix.cpp): the character buffer that print
    appends to and scroll trims, the line layout that info draws, and the colour
    order read from the configuration. Drawing itself is not modelled; the width
    of a piece of text (measure_text) is a parameter. */
module Matrix {
  import opened Bytes

  const WIDTH: nat := 256
  const HEIGHT: nat := 64
  /** The frame buffer: four bytes per pixel. */
  const BUFFER_SIZE: nat := WIDTH * HEIGHT * 4
  const FONT_HEIGHT: nat := 8
  /** The number of text rows the panel shows. */
  const MAX_LINES: nat := HEIGHT / FONT_HEIGHT

  const NEWLINE: char := '\n'

  lemma Geometry()
    ensures BUFFER_SIZE == 65536 && MAX_LINES == 8
  {
  }

  // ---------------------------------------------------------------------------
  // Scrolling

  /** The number of newlines in `t`. */
  function Newlines(t: seq<char>): nat
    decreases |t|
  {
    if t == [] then 0 else Newlines(t[..|t| - 1]) + (if t[|t| - 1] == NEWLINE then 1 else 0)
  }

  lemma {:induction false} NewlinesAppend(a: seq<char>, b: seq<char>)
    ensures Newlines(a + b) == Newlines(a) + Newlines(b)
    decreases |b|
  {
    if b != [] {
      assert (a + b)[..|a + b| - 1] == a + b[..|b| - 1];
      assert (a + b)[|a + b| - 1] == b[|b| - 1];
      NewlinesAppend(a, b[..|b| - 1]);
    } else {
      assert a + b == a;
    }
  }

  lemma {:induction false} NoNewlines(t: seq<char>)
    requires NEWLINE !in t
    ensures Newlines(t) == 0
    decreases |t|
  {
    if t != [] {
      assert t[..|t| - 1] <= t;
      NoNewlines(t[..|t| - 1]);
    }
  }

  /** What the pop loop of scroll leaves: the characters after the first newline,
      or nothing when there is no newline. */
  function DropLine(t: seq<char>): (d: seq<char>)
    ensures |d| <= |t| && d == t[|t| - |d|..]
    ensures NEWLINE in t ==> |d| < |t| && t[|t| - |d| - 1] == NEWLINE && NEWLINE !in t[..|t| - |d| - 1]
    ensures NEWLINE !in t ==> d == []
    decreases |t|
  {
    if t == [] then []
    else if t[0] == NEWLINE then t[1..]
    else
      assert NEWLINE in t ==> NEWLINE in t[1..] by {
        if NEWLINE in t {
          var i :| 0 <= i < |t| && t[i] == NEWLINE;
          assert t[1..][i - 1] == NEWLINE;
        }
      }
      DropLine(t[1..])
  }

  /** Dropping the first line removes exactly one newline. */
  lemma DropLineNewlines(t: seq<char>)
    requires NEWLINE in t
    ensures Newlines(DropLine(t)) == Newlines(t) - 1
  {
    var d := DropLine(t);
    var k := |t| - |d| - 1;
    assert t == t[..k] + [NEWLINE] + d;
    NewlinesAppend(t[..k] + [NEWLINE], d);
    NewlinesAppend(t[..k], [NEWLINE]);
    NoNewlines(t[..k]);
    assert Newlines([NEWLINE]) == 1 by {
      assert [NEWLINE][..0] == [];
    }
  }

  /** scroll: with at least MAX_LINES newlines buffered, the first line goes. */
  function Scrolled(t: seq<char>): seq<char>
  {
    if Newlines(t) >= MAX_LINES then DropLine(t) else t
  }

  /** Each scroll removes exactly one line when the panel is full, and nothing
      otherwise. */
  lemma ScrollRemovesOneLine(t: seq<char>)
    ensures Newlines(t) >= MAX_LINES ==> Newlines(Scrolled(t)) == Newlines(t) - 1
    ensures Newlines(t) < MAX_LINES ==> Scrolled(t) == t
  {
    if Newlines(t) >= MAX_LINES {
      if NEWLINE !in t {
        NoNewlines(t);
      }
      DropLineNewlines(t);
    }
  }

  // ---------------------------------------------------------------------------
  // Printing

  /** The text print pushes: a trailing newline unless appending. */
  function Terminated(text: string, append: bool): string {
    if append then text else text + [NEWLINE]
  }

  /** The line-full test of print. temp_line is never extended, so it is the
      width of the character measured twice. */
  predicate LineFull(measure: string -> nat, c: char) {
    measure([] + [c]) + measure([c]) >= WIDTH
  }

  /** One character of print: a newline when the line is full, a scroll, then
      the character. */
  function PushChar(t: seq<char>, c: char, measure: string -> nat): seq<char> {
    var wrapped := if LineFull(measure, c) then t + [NEWLINE] else t;
    Scrolled(wrapped) + [c]
  }

  /** The characters of `text` pushed one by one. */
  function Pushed(t: seq<char>, text: string, measure: string -> nat): seq<char>
    decreases |text|
  {
    if text == [] then t
    else PushChar(Pushed(t, text[..|text| - 1], measure), text[|text| - 1], measure)
  }

  /** With characters narrower than half the panel, printing never leaves more
      newlines buffered than the panel has rows. */
  lemma {:induction false} PrintKeepsLineBound(t: seq<char>, text: string, measure: string -> nat)
    requires Newlines(t) <= MAX_LINES
    requires forall i :: 0 <= i < |text| ==> !LineFull(measure, text[i])
    ensures Newlines(Pushed(t, text, measure)) <= MAX_LINES
    decreases |text|
  {
    if text != [] {
      var prefix := text[..|text| - 1];
      var c := text[|text| - 1];
      PrintKeepsLineBound(t, prefix, measure);
      var before := Pushed(t, prefix, measure);
      ScrollRemovesOneLine(before);
      NewlinesAppend(Scrolled(before), [c]);
      assert Newlines([c]) == (if c == NEWLINE then 1 else 0) by {
        assert [c][..0] == [];
      }
    }
  }

  /** Below a full panel and with no wrapping, print appends its text as it is. */
  lemma {:induction false} PrintAppends(t: seq<char>, text: string, measure: string -> nat)
    requires Newlines(t + text) < MAX_LINES
    requires forall i :: 0 <= i < |text| ==> !LineFull(measure, text[i])
    ensures Pushed(t, text, measure) == t + text
    decreases |text|
  {
    if text != [] {
      var prefix := text[..|text| - 1];
      assert t + text == (t + prefix) + [text[|text| - 1]];
      NewlinesAppend(t + prefix, [text[|text| - 1]]);
      PrintAppends(t, prefix, measure);
    }
  }

  /** The deque text_buffer, which print, scroll and clearscreen change. */
  class Console {
    var text: seq<char>

    constructor()
      ensures text == []
    {
      text := [];
    }

    /** Count the newlines; when the panel is full, pop characters up to and
        including the first newline. */
    method Scroll()
      modifies this
      ensures text == Scrolled(old(text))
    {
      var lineCount := 0;
      for i := 0 to |text|
        invariant lineCount == Newlines(text[..i])
      {
        assert text[..i + 1][..i] == text[..i];
        if text[i] == NEWLINE {
          lineCount := lineCount + 1;
        }
      }
      assert text[..|text|] == text;
      if lineCount >= MAX_LINES {
        while text != []
          invariant DropLine(text) == DropLine(old(text))
          decreases |text|
        {
          var c := text[0];
          text := text[1..];
          if c == NEWLINE {
            break;
          }
        }
      }
    }

    /** print: push every character of the (terminated) text, wrapping when
        the line is full and scrolling before each push. */
    method Print(s: string, append: bool, measure: string -> nat)
      modifies this
      ensures text == Pushed(old(text), Terminated(s, append), measure)
    {
      var tempLine: string := [];
      var line := if append then s else s + [NEWLINE];
      for i := 0 to |line|
        invariant tempLine == []
        invariant text == Pushed(old(text), line[..i], measure)
      {
        var c := line[i];
        var currentWidth := measure(tempLine + [c]);
        var charWidth := measure([c]);
        assert line[..i + 1][..i] == line[..i];
        Push(c, currentWidth + charWidth >= WIDTH);
        tempLine := if currentWidth + charWidth >= WIDTH then [] else tempLine;
      }
      assert line[..|line|] == line;
    }

    /** One character of print, given the outcome of the line-full test. */
    method Push(c: char, full: bool)
      modifies this
      ensures text == Scrolled(if full then old(text) + [NEWLINE] else old(text)) + [c]
    {
      if full {
        text := text + [NEWLINE];
      }
      Scroll();
      text := text + [c];
    }

    /** clearscreen: empty the buffer. */
    method ClearScreen()
      modifies this
      ensures text == []
    {
      text := [];
    }
  }

  // ---------------------------------------------------------------------------
  // Line layout of info

  /** The lines info draws: every newline-terminated segment, then the segment
      after the last newline when it is not empty. */
  function Lines(t: string): (ls: seq<string>)
    decreases |t|
  {
    match IndexOf(t, NEWLINE)
    case None => if t == [] then [] else [t]
    case Some(k) => [t[..k]] + Lines(t[k + 1..])
  }

  /** No line contains a newline. */
  lemma {:induction false} LinesHaveNoNewline(t: string)
    ensures forall i :: 0 <= i < |Lines(t)| ==> NEWLINE !in Lines(t)[i]
    decreases |t|
  {
    match IndexOf(t, NEWLINE)
    case None =>
    case Some(k) =>
      LinesHaveNoNewline(t[k + 1..]);
      assert Lines(t)[1..] == Lines(t[k + 1..]);
  }

  /** Every line followed by a newline. */
  function Unlines(ls: seq<string>): string
    decreases |ls|
  {
    if ls == [] then [] else ls[0] + [NEWLINE] + Unlines(ls[1..])
  }

  /** The lines put back together give the text, with a final newline added
      when it had none. */
  lemma {:induction false} LinesRoundTrip(t: string)
    ensures Unlines(Lines(t)) == Closed(t)
    decreases |t|
  {
    match IndexOf(t, NEWLINE)
    case None =>
      LastLineRoundTrip(t);
    case Some(k) =>
      var rest := t[k + 1..];
      LinesRoundTrip(rest);
      LinesCons(t, k);
      UnlinesCons(t[..k], Lines(rest));
      ClosedCons(t, k);
  }

  /** The text with a final newline added when it had none. */
  function Closed(t: string): string {
    if t == [] || t[|t| - 1] == NEWLINE then t else t + [NEWLINE]
  }

  lemma LastLineRoundTrip(t: string)
    requires IndexOf(t, NEWLINE).None?
    ensures Unlines(Lines(t)) == Closed(t)
  {
    if t != [] {
      assert Lines(t) == [t];
      assert Unlines([t]) == t + [NEWLINE] + Unlines([]);
      assert t[|t| - 1] != NEWLINE;
    }
  }

  lemma ClosedCons(t: string, k: nat)
    requires k < |t| && t[k] == NEWLINE
    ensures Closed(t) == t[..k] + [NEWLINE] + Closed(t[k + 1..])
  {
    assert t == t[..k] + [NEWLINE] + t[k + 1..];
  }

  lemma UnlinesCons(line: string, ls: seq<string>)
    ensures Unlines([line] + ls) == line + [NEWLINE] + Unlines(ls)
  {
    assert ([line] + ls)[1..] == ls;
  }

  /** The row a line is drawn at. */
  function Row(line: nat): nat {
    FONT_HEIGHT * line
  }

  /** info: the text of each line and the row it is drawn at. */
  method InfoLines(t: string) returns (drawn: seq<(string, nat)>)
    ensures |drawn| == |Lines(t)|
    ensures forall i :: 0 <= i < |drawn| ==> drawn[i] == (Lines(t)[i], Row(i))
  {
    drawn := [];
    var start := 0;
    var lineNumber := 0;
    var found := IndexOf(t, NEWLINE);
    LinesStart(t);
    while found.Some?
      invariant start <= |t| && lineNumber == |drawn|
      invariant found == IndexOf(t[start..], NEWLINE)
      invariant Progress(t, drawn, start)
      invariant forall i :: 0 <= i < |drawn| ==> drawn[i].1 == Row(i)
      decreases |t| - start
    {
      var end := start + found.value;
      AdvanceLine(t, drawn, start, end, Row(lineNumber));
      drawn := drawn + [(t[start..end], Row(lineNumber))];
      start := end + 1;
      lineNumber := lineNumber + 1;
      found := IndexOf(t[start..], NEWLINE);
    }
    LastLine(t, drawn, start, Row(lineNumber));
    if start < |t| {
      drawn := drawn + [(t[start..], Row(lineNumber))];
    }
    DrawnAtRows(drawn, Lines(t));
  }

  /** The text after the last newline, when there is any, is the last line. */
  lemma LastLine(t: string, drawn: seq<(string, nat)>, start: nat, row: nat)
    requires Progress(t, drawn, start)
    requires IndexOf(t[start..], NEWLINE).None?
    ensures Lines(t) == Texts(if start < |t| then drawn + [(t[start..], row)] else drawn)
  {
    LinesLast(t[start..]);
    if start < |t| {
      TextsSnoc(drawn, (t[start..], row));
    } else {
      assert Lines(t) == Texts(drawn) + [];
    }
  }

  lemma DrawnAtRows(drawn: seq<(string, nat)>, lines: seq<string>)
    requires lines == Texts(drawn)
    requires forall i :: 0 <= i < |drawn| ==> drawn[i].1 == Row(i)
    ensures forall i :: 0 <= i < |drawn| ==> drawn[i] == (lines[i], Row(i))
  {
  }

  /** The lines drawn so far and the lines of the text from `start` on make up
      the lines of the whole text. */
  predicate Progress(t: string, drawn: seq<(string, nat)>, start: nat) {
    start <= |t| && Lines(t) == Texts(drawn) + Lines(t[start..])
  }

  lemma LinesStart(t: string)
    ensures Progress(t, [], 0)
  {
    assert t[0..] == t;
    assert Texts([]) == [];
  }

  /** One more line drawn keeps the drawn texts and the rest of the text
      together equal to the lines of the whole. */
  lemma AdvanceLine(t: string, drawn: seq<(string, nat)>, start: nat, end: nat, row: nat)
    requires Progress(t, drawn, start)
    requires IndexOf(t[start..], NEWLINE).Some? && end == start + IndexOf(t[start..], NEWLINE).value
    ensures end < |t| && Progress(t, drawn + [(t[start..end], row)], end + 1)
  {
    LinesStep(t, start, end);
    TextsSnoc(drawn, (t[start..end], row));
    ConsAssociates(Texts(drawn), t[start..end], Lines(t[end + 1..]));
  }

  lemma ConsAssociates<T>(x: seq<T>, a: T, y: seq<T>)
    ensures x + ([a] + y) == (x + [a]) + y
  {
  }

  lemma LinesStep(t: string, start: nat, end: nat)
    requires start <= |t| && IndexOf(t[start..], NEWLINE).Some?
    requires end == start + IndexOf(t[start..], NEWLINE).value
    ensures end < |t| && Lines(t[start..]) == [t[start..end]] + Lines(t[end + 1..])
  {
    var u := t[start..];
    LinesCons(u, end - start);
    assert u[..end - start] == t[start..end];
    assert u[end - start + 1..] == t[end + 1..];
  }

  lemma LinesCons(u: string, k: nat)
    requires IndexOf(u, NEWLINE) == Some(k) && k < |u|
    ensures Lines(u) == [u[..k]] + Lines(u[k + 1..])
  {
  }

  lemma LinesLast(u: string)
    requires IndexOf(u, NEWLINE).None?
    ensures Lines(u) == if u == [] then [] else [u]
  {
  }

  lemma TextsSnoc(drawn: seq<(string, nat)>, d: (string, nat))
    ensures Texts(drawn + [d]) == Texts(drawn) + [d.0]
  {
  }

  function Texts(drawn: seq<(string, nat)>): (ts: seq<string>)
    ensures |ts| == |drawn| && forall i :: 0 <= i < |drawn| ==> ts[i] == drawn[i].0
  {
    seq(|drawn|, i requires 0 <= i < |drawn| => drawn[i].0)
  }

  // ---------------------------------------------------------------------------
  // Colour order

  datatype ColorOrder = RGB | RBG | GRB | GBR | BRG | BGR

  function OrderName(o: ColorOrder): string {
    match o
    case RGB => "RGB"
    case RBG => "RBG"
    case GRB => "GRB"
    case GBR => "GBR"
    case BRG => "BRG"
    case BGR => "BGR"
  }

  /** The characters find_first_not_of / find_last_not_of skip. */
  predicate IsBlank(c: char) {
    c == ' ' || c == '\t' || c == '\n' || c == '\r'
  }

  /** ::toupper on ASCII letters. */
  function ToUpper(c: char): char {
    if 'a' <= c <= 'z' then (c as int - 32) as char else c
  }

  /** The string with blanks trimmed from both ends and upper-cased. */
  function Normalized(s: string): (r: string)
    ensures forall i :: 0 <= i < |r| ==> r[i] == ToUpper(r[i])
  {
    var lo := FirstNonBlank(s, 0);
    var hi := LastNonBlank(s, |s|);
    if lo >= hi then [] else Upper(s[lo..hi])
  }

  function Upper(s: string): (r: string)
    ensures |r| == |s| && forall i :: 0 <= i < |s| ==> r[i] == ToUpper(s[i])
  {
    seq(|s|, i requires 0 <= i < |s| => ToUpper(s[i]))
  }

  /** The index of the first non-blank character at or after `i`, or |s|. */
  function FirstNonBlank(s: string, i: nat): (k: nat)
    requires i <= |s|
    ensures i <= k <= |s| && (k < |s| ==> !IsBlank(s[k]))
    ensures forall j :: i <= j < k ==> IsBlank(s[j])
    decreases |s| - i
  {
    if i == |s| || !IsBlank(s[i]) then i else FirstNonBlank(s, i + 1)
  }

  /** One past the last non-blank character before `i`, or 0. */
  function LastNonBlank(s: string, i: nat): (k: nat)
    requires i <= |s|
    ensures k <= i && (k > 0 ==> !IsBlank(s[k - 1]))
    ensures forall j :: k <= j < i ==> IsBlank(s[j])
    decreases i
  {
    if i == 0 || !IsBlank(s[i - 1]) then i else LastNonBlank(s, i - 1)
  }

  /** The colour order the panel is started with: the normalised setting when
      it names an order, RGB otherwise. */
  function ColorOrderOf(s: string): ColorOrder {
    var n := Normalized(s);
    if n == "RGB" then RGB
    else if n == "RBG" then RBG
    else if n == "GRB" then GRB
    else if n == "GBR" then GBR
    else if n == "BRG" then BRG
    else if n == "BGR" then BGR
    else RGB
  }

  /** Every order's own name selects it. */
  lemma ColorOrderRoundTrip(o: ColorOrder)
    ensures ColorOrderOf(OrderName(o)) == o
  {
    TrimPadding([], OrderName(o), []);
    assert [] + OrderName(o) + [] == OrderName(o);
    UpperName(o);
    NamedOrder(OrderName(o), o);
  }

  /** Normalising twice is normalising once. */
  lemma NormalizedIdempotent(s: string)
    ensures Normalized(Normalized(s)) == Normalized(s)
  {
    var n := Normalized(s);
    if n != [] {
      var lo := FirstNonBlank(s, 0);
      var hi := LastNonBlank(s, |s|);
      assert !IsBlank(n[0]) && !IsBlank(n[|n| - 1]);
      assert FirstNonBlank(n, 0) == 0;
      assert LastNonBlank(n, |n|) == |n|;
      assert n[0..|n|] == n;
    }
  }

  /** Surrounding blanks do not change the order. */
  lemma ColorOrderPadding(o: ColorOrder, left: string, right: string)
    requires forall i :: 0 <= i < |left| ==> IsBlank(left[i])
    requires forall i :: 0 <= i < |right| ==> IsBlank(right[i])
    ensures ColorOrderOf(left + OrderName(o) + right) == o
  {
    TrimPadding(left, OrderName(o), right);
    UpperName(o);
    NamedOrder(left + OrderName(o) + right, o);
  }

  lemma UpperName(o: ColorOrder)
    ensures Upper(OrderName(o)) == OrderName(o)
  {
  }

  lemma NamedOrder(s: string, o: ColorOrder)
    requires Normalized(s) == OrderName(o)
    ensures ColorOrderOf(s) == o
  {
  }

  /** Trimming removes exactly the blanks around a word that starts and ends
      with non-blanks. */
  lemma TrimPadding(left: string, word: string, right: string)
    requires forall i :: 0 <= i < |left| ==> IsBlank(left[i])
    requires forall i :: 0 <= i < |right| ==> IsBlank(right[i])
    requires word != [] && !IsBlank(word[0]) && !IsBlank(word[|word| - 1])
    ensures Normalized(left + word + right) == Upper(word)
  {
    var s := left + word + right;
    var k := |left| + |word|;
    assert forall j :: 0 <= j < |left| ==> s[j] == left[j];
    assert forall j :: k <= j < |s| ==> s[j] == right[j - k];
    assert s[|left|] == word[0] && s[k - 1] == word[|word| - 1];
    FirstNonBlankIsFirst(s, 0, |left|);
    LastNonBlankIsLast(s, |s|, k);
    assert s[|left|..k] == word;
  }

  /** The setting is compared without regard to letter case. */
  lemma ColorOrderCaseInsensitive(s: string)
    ensures ColorOrderOf(Upper(s)) == ColorOrderOf(s)
  {
    NormalizedUpper(s);
  }

  lemma NormalizedUpper(s: string)
    ensures Normalized(Upper(s)) == Normalized(s)
  {
    var u := Upper(s);
    FirstNonBlankUpper(s, 0);
    LastNonBlankUpper(s, |s|);
    var lo := FirstNonBlank(s, 0);
    var hi := LastNonBlank(s, |s|);
    if lo < hi {
      assert Upper(u[lo..hi]) == Upper(s[lo..hi]);
    }
  }

  lemma {:induction false} FirstNonBlankUpper(s: string, i: nat)
    requires i <= |s|
    ensures FirstNonBlank(Upper(s), i) == FirstNonBlank(s, i)
    decreases |s| - i
  {
    if i < |s| && IsBlank(s[i]) {
      FirstNonBlankUpper(s, i + 1);
    }
  }

  lemma {:induction false} LastNonBlankUpper(s: string, i: nat)
    requires i <= |s|
    ensures LastNonBlank(Upper(s), i) == LastNonBlank(s, i)
    decreases i
  {
    if i > 0 && IsBlank(s[i - 1]) {
      LastNonBlankUpper(s, i - 1);
    }
  }

  /** The trim and upper-case steps of init, done with the scans of
      find_first_not_of / find_last_not_of and std::transform. */
  method NormalizeColorOrder(s: string) returns (r: string)
    ensures r == Normalized(s)
  {
    var first := 0;
    while first < |s| && IsBlank(s[first])
      invariant first <= |s|
      invariant forall j :: 0 <= j < first ==> IsBlank(s[j])
    {
      first := first + 1;
    }
    FirstNonBlankIsFirst(s, 0, first);
    var last := |s|;
    while last > first && IsBlank(s[last - 1])
      invariant first <= last <= |s|
      invariant forall j :: last <= j < |s| ==> IsBlank(s[j])
    {
      last := last - 1;
    }
    TrimAgrees(s, first, last);
    r := UpperInPlace(s[first..last]);
  }

  lemma FirstNonBlankIsFirst(s: string, i: nat, k: nat)
    requires i <= k <= |s| && (k < |s| ==> !IsBlank(s[k]))
    requires forall j :: i <= j < k ==> IsBlank(s[j])
    ensures FirstNonBlank(s, i) == k
    decreases k - i
  {
    if i < k {
      FirstNonBlankIsFirst(s, i + 1, k);
    }
  }

  lemma LastNonBlankIsLast(s: string, i: nat, k: nat)
    requires k <= i <= |s| && (k > 0 ==> !IsBlank(s[k - 1]))
    requires forall j :: k <= j < i ==> IsBlank(s[j])
    ensures LastNonBlank(s, i) == k
    decreases i - k
  {
    if k < i {
      LastNonBlankIsLast(s, i - 1, k);
    }
  }

  lemma TrimAgrees(s: string, first: nat, last: nat)
    requires first == FirstNonBlank(s, 0) && first <= last <= |s|
    requires last > first ==> !IsBlank(s[last - 1])
    requires forall j :: last <= j < |s| ==> IsBlank(s[j])
    ensures Normalized(s) == Upper(s[first..last])
  {
    if last > first {
      LastNonBlankIsLast(s, |s|, last);
    } else {
      LastNonBlankIsLast(s, |s|, 0);
    }
  }

  /** std::transform with ::toupper over the string. */
  method UpperInPlace(s: string) returns (r: string)
    ensures r == Upper(s)
  {
    r := s;
    for i := 0 to |r|
      invariant |r| == |s|
      invariant forall j :: 0 <= j < i ==> r[j] == ToUpper(s[j])
      invariant forall j :: i <= j < |r| ==> r[j] == s[j]
    {
      r := r[i := ToUpper(r[i])];
    }
  }
}
