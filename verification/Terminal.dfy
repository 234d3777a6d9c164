/** The VGA text terminal of src/kernel/kernel.cpp as an unbounded page of rows: the
    25x80 buffer is the window on its last 25 rows. */
module ScreenSpec {
  type Byte = bv8
  type Cell = bv16

  const WIDTH: nat := 80
  const HEIGHT: nat := 25
  const CELLS: nat := 2000

  const NEWLINE: Byte := 10
  const BACKSPACE: Byte := 8
  const SPACE: Byte := 32

  function VgaEntry(c: Byte, color: Byte): Cell {
    (c as bv16) | ((color as bv16) << 8)
  }

  lemma VgaEntryInjective(c: Byte, d: Byte, color: Byte)
    requires VgaEntry(c, color) == VgaEntry(d, color)
    ensures c == d
  {
    assert VgaEntry(c, color) & 0xFF == c as bv16;
    assert VgaEntry(d, color) & 0xFF == d as bv16;
  }

  /** The cell shows c in color: its low byte is the character, its high byte the color. */
  predicate Shows(cell: Cell, c: Byte, color: Byte) {
    cell & 0xFF == c as bv16 && cell >> 8 == color as bv16
  }

  lemma VgaEntryShows(c: Byte, color: Byte)
    ensures Shows(VgaEntry(c, color), c, color)
  {
  }

  function Blank(color: Byte): Cell {
    VgaEntry(SPACE, color)
  }

  function Blanks(n: nat, color: Byte): (s: seq<Cell>)
    ensures |s| == n
  {
    seq(n, _ => Blank(color))
  }

  /** page holds every row since the last clear; cur is the cursor as an index into it. */
  datatype Screen = Screen(page: seq<Cell>, cur: nat, color: Byte) {
    predicate Ok() {
      |page| % 80 == 0 && |page| >= CELLS && Top() <= cur < |page|
    }

    /** The index of the first visible cell. */
    function Top(): nat
      requires |page| >= CELLS
    {
      |page| - CELLS
    }

    function Window(): (w: seq<Cell>)
      requires |page| >= CELLS
      ensures |w| == CELLS
    {
      page[Top()..]
    }
  }

  /** The cursor moves to the cell next, which may be just behind the page: then the
      page gets a blank row, which scrolls the window. */
  function MoveTo(s: Screen, next: nat): Screen {
    Screen(if next == |s.page| then s.page + Blanks(80, s.color) else s.page, next, s.color)
  }

  function PutChar(s: Screen, c: Byte): (s': Screen)
    requires s.Ok()
    ensures s'.Ok() && s'.color == s.color
  {
    if c == NEWLINE then MoveTo(s, (s.cur / 80 + 1) * 80)
    else if c == BACKSPACE then
      var back := if s.cur > s.Top() then s.cur - 1 else s.cur;
      s.(page := s.page[back := Blank(s.color)], cur := back)
    else MoveTo(s.(page := s.page[s.cur := VgaEntry(c, s.color)]), s.cur + 1)
  }

  /** A printed character: a newline (10) moves the cursor to the next row, a backspace (8)
      one cell back unless it is at the first visible cell, where it stores a blank; any
      other character is stored at the cursor, which moves one cell on. At the end of the
      page 80 blanks follow. No other cell changes. */
  lemma PutCells(s: Screen, c: Byte)
    requires s.Ok()
    ensures var s' := PutChar(s, c);
      && s'.cur == (if c == 10 then s.cur + 80 - s.cur % 80
                    else if c == 8 then (if s.cur > |s.page| - 2000 then s.cur - 1 else s.cur)
                    else s.cur + 1)
      && |s'.page| == |s.page| + (if s'.cur == |s.page| then 80 else 0)
      && (c == 8 ==> Shows(s'.page[s'.cur], 32, s.color))
      && (c != 8 && c != 10 ==> Shows(s'.page[s.cur], c, s.color))
      && (forall i :: |s.page| <= i < |s'.page| ==> Shows(s'.page[i], 32, s.color))
      && forall i :: 0 <= i < |s.page| && (if c == 8 then i != s'.cur else c == 10 || i != s.cur) ==>
           s'.page[i] == s.page[i]
  {
    VgaEntryShows(SPACE, s.color);
    VgaEntryShows(c, s.color);
    hide VgaEntry, Shows;
  }

  function Clear(color: Byte): (s: Screen)
    ensures s.Ok()
  {
    Screen(Blanks(CELLS, color), 0, color)
  }

  /** A cleared screen: 2000 blanks, the cursor at the first. */
  lemma ClearCells(color: Byte)
    ensures var s := Clear(color);
      |s.page| == 2000 && s.cur == 0 && forall i :: 0 <= i < 2000 ==> Shows(s.page[i], 32, color)
  {
    VgaEntryShows(SPACE, color);
    hide VgaEntry, Shows;
  }

  function Write(s: Screen, text: seq<Byte>): (s': Screen)
    requires s.Ok()
    ensures s'.Ok() && s'.color == s.color
    decreases |text|
  {
    if text == [] then s else PutChar(Write(s, text[..|text| - 1]), text[|text| - 1])
  }

  // ---------- A declarative layout ----------

  /** The index of the last newline, or -1. */
  function LastNewline(text: seq<Byte>): (k: int)
    ensures -1 <= k < |text|
    ensures k >= 0 ==> text[k] == NEWLINE
    ensures forall i :: k < i < |text| ==> text[i] != NEWLINE
  {
    if text == [] then -1
    else if text[|text| - 1] == NEWLINE then |text| - 1
    else LastNewline(text[..|text| - 1])
  }

  function Glyphs(line: seq<Byte>, color: Byte): (s: seq<Cell>)
    ensures |s| == |line|
  {
    seq(|line|, i requires 0 <= i < |line| => VgaEntry(line[i], color))
  }

  /** A line of n characters takes n / 80 + 1 rows, filled up with blanks. */
  function PadLine(line: seq<Byte>, color: Byte): (s: seq<Cell>)
    ensures |s| % 80 == 0 && |line| < |s| <= |line| + 80
  {
    Glyphs(line, color) + Blanks(80 - |line| % 80, color)
  }

  /** The 80-column wrapping of a text: its lines, each padded to whole rows. */
  function Layout(text: seq<Byte>, color: Byte): (s: seq<Cell>)
    ensures |s| % 80 == 0 && |s| > 0
    decreases |text|
  {
    var k := LastNewline(text);
    if k < 0 then PadLine(text, color)
    else
      var head, last := Layout(text[..k], color), PadLine(text[k + 1..], color);
      WholeRows(|head|, |last|);
      head + last
  }

  lemma WholeRows(a: nat, b: nat)
    requires a % 80 == 0 && b % 80 == 0
    ensures (a + b) % 80 == 0
  {
  }

  /** Where the text ends in its layout. */
  function EndOf(text: seq<Byte>, color: Byte): nat {
    var k := LastNewline(text);
    (if k < 0 then 0 else |Layout(text[..k], color)|) + (|text| - (k + 1))
  }

  /** A page has at least 25 rows. */
  function FillPage(p: seq<Cell>, color: Byte): seq<Cell> {
    if |p| >= CELLS then p else p + Blanks(CELLS - |p|, color)
  }

  lemma LastNewlineAppend(text: seq<Byte>, c: Byte)
    ensures LastNewline(text + [c]) == if c == NEWLINE then |text| else LastNewline(text)
  {
    assert (text + [c])[..|text|] == text;
  }

  lemma PadLineAppend(line: seq<Byte>, c: Byte, color: Byte)
    ensures |line| < |PadLine(line, color)|
    ensures PadLine(line + [c], color) ==
      PadLine(line, color)[|line| := VgaEntry(c, color)] +
      (if (|line| + 1) % 80 == 0 then Blanks(80, color) else [])
  {
    hide VgaEntry;
    assert Glyphs(line + [c], color) == Glyphs(line, color) + [VgaEntry(c, color)];
  }

  /** Storing at the end of the text in a layout, which may fill its last row. */
  function StoreAt(p: seq<Cell>, e: nat, c: Byte, color: Byte): seq<Cell>
    requires e < |p|
  {
    p[e := VgaEntry(c, color)] + (if e + 1 == |p| then Blanks(80, color) else [])
  }

  lemma PadLineAfter(head: seq<Cell>, line: seq<Byte>, c: Byte, color: Byte)
    ensures head + PadLine(line + [c], color) == StoreAt(head + PadLine(line, color), |head| + |line|, c, color)
  {
    PadLineAppend(line, c, color);
    hide VgaEntry, Glyphs, Blanks, PadLine;
    var last := PadLine(line, color);
    var v := VgaEntry(c, color);
    assert (head + last)[|head| + |line| := v] == head + last[|line| := v];
  }

  /** The laid out rows of all lines but the last, and the last line. */
  function Head(text: seq<Byte>, color: Byte): seq<Cell> {
    var k := LastNewline(text);
    if k < 0 then [] else Layout(text[..k], color)
  }

  function LastLine(text: seq<Byte>): seq<Byte> {
    text[LastNewline(text) + 1..]
  }

  lemma LayoutParts(text: seq<Byte>, color: Byte)
    ensures Layout(text, color) == Head(text, color) + PadLine(LastLine(text), color)
    ensures EndOf(text, color) == |Head(text, color)| + |LastLine(text)|
  {
    hide LastNewline, PadLine;
    if LastNewline(text) < 0 {
      assert text[0..] == text;
      assert [] + PadLine(text, color) == PadLine(text, color);
    }
  }

  lemma PartsAppend(text: seq<Byte>, c: Byte, color: Byte)
    requires c != NEWLINE
    ensures Head(text + [c], color) == Head(text, color) && LastLine(text + [c]) == LastLine(text) + [c]
  {
    LastNewlineAppend(text, c);
    hide LastNewline, Layout;
    var k := LastNewline(text);
    assert k >= 0 ==> (text + [c])[..k] == text[..k];
    assert (text + [c])[k + 1..] == text[k + 1..] + [c];
  }

  /** A character that is no newline is laid out at the end of the text. */
  lemma LayoutAppend(text: seq<Byte>, c: Byte, color: Byte)
    requires c != NEWLINE
    ensures var p, e := Layout(text, color), EndOf(text, color);
      e < |p| && EndOf(text + [c], color) == e + 1 && Layout(text + [c], color) == StoreAt(p, e, c, color)
  {
    hide Layout, EndOf, Head, LastLine, PadLine, StoreAt;
    EndInLastRow(text, color);
    LayoutParts(text, color);
    LayoutParts(text + [c], color);
    PartsAppend(text, c, color);
    PadLineAfter(Head(text, color), LastLine(text), c, color);
  }

  /** A newline adds an empty line, which takes one row. */
  lemma LayoutNewline(text: seq<Byte>, color: Byte)
    ensures Layout(text + [NEWLINE], color) == Layout(text, color) + Blanks(80, color)
    ensures EndOf(text + [NEWLINE], color) == |Layout(text, color)|
  {
    LastNewlineAppend(text, NEWLINE);
    var t := text + [NEWLINE];
    assert t[..|text|] == text;
    assert t[|text| + 1..] == [];
    assert PadLine([], color) == Blanks(80, color);
  }

  lemma EndInLastRow(text: seq<Byte>, color: Byte)
    ensures EndOf(text, color) < |Layout(text, color)| <= EndOf(text, color) + 80
  {
    hide PadLine;
  }

  /** Text without backspace, written to a cleared screen, shows as the last 25 rows
      of its layout, with the cursor behind it. */
  lemma {:induction false} WriteIsLayout(text: seq<Byte>, color: Byte)
    requires forall i :: 0 <= i < |text| ==> text[i] != BACKSPACE
    ensures Write(Clear(color), text) == Screen(FillPage(Layout(text, color), color), EndOf(text, color), color)
    decreases |text|
  {
    if text == [] {
      assert PadLine([], color) == Blanks(80, color);
      assert FillPage(Layout(text, color), color) == Blanks(CELLS, color);
    } else {
      var front, c := text[..|text| - 1], text[|text| - 1];
      assert text == front + [c];
      WriteIsLayout(front, color);
      EndInLastRow(front, color);
      hide Layout, EndOf, FillPage, PutChar;
      PutOnLayout(Layout(front, color), EndOf(front, color), c, color);
      if c == NEWLINE {
        LayoutNewline(front, color);
      } else {
        LayoutAppend(front, c, color);
      }
    }
  }

  lemma PutOnLayout(p: seq<Cell>, e: nat, c: Byte, color: Byte)
    requires |p| % 80 == 0 && e < |p| <= e + 80 && c != BACKSPACE
    ensures Screen(FillPage(p, color), e, color).Ok()
    ensures PutChar(Screen(FillPage(p, color), e, color), c) ==
      if c == NEWLINE then Screen(FillPage(p + Blanks(80, color), color), |p|, color)
      else Screen(FillPage(StoreAt(p, e, c, color), color), e + 1, color)
  {
    hide Blank, VgaEntry;
    if c == NEWLINE {
      assert (e / 80 + 1) * 80 == |p|;
    }
  }
}

/** The serial shell loop of kernel_main on values. */
module ShellSpec {
  import opened ScreenSpec

  /** What process_command may do to the terminal. */
  datatype TermOp = Put(c: Byte) | ClearScreen | SetColor(color: Byte)

  function Perform(s: Screen, op: TermOp): (s': Screen)
    requires s.Ok()
    ensures s'.Ok()
  {
    match op
    case Put(c) => PutChar(s, c)
    case ClearScreen => Clear(s.color)
    case SetColor(color) => s.(color := color)
  }

  function PerformAll(s: Screen, ops: seq<TermOp>): (s': Screen)
    requires s.Ok()
    ensures s'.Ok()
    decreases |ops|
  {
    if ops == [] then s else Perform(PerformAll(s, ops[..|ops| - 1]), ops[|ops| - 1])
  }

  /** What a command can do: print, clear in the color it has set, set the color of what
      follows. */
  lemma PerformIs(s: Screen, c: Byte)
    requires s.Ok()
    ensures Perform(s, Put(c)) == PutChar(s, c)
    ensures Perform(s, SetColor(c)) == Screen(s.page, s.cur, c)
    ensures var t := Perform(s, ClearScreen);
      && |t.page| == 2000 && t.cur == 0 && t.color == s.color
      && forall i :: 0 <= i < 2000 ==> Shows(t.page[i], 32, s.color)
  {
    hide PutChar, Shows;
    ClearCells(s.color);
  }

  const RETURN: Byte := 13
  const DELETE: Byte := 127

  /** "nyrix> " */
  const PROMPT: seq<Byte> := [110, 121, 114, 105, 120, 62, 32]
  /** "Nyrix Kernel v0.1\n" */
  const BANNER: seq<Byte> := [78, 121, 114, 105, 120, 32, 75, 101, 114, 110, 101, 108, 32, 118, 48, 46, 49, 10]

  /** promptEnd is the page index of the cell behind the last prompt. */
  datatype Shell = Shell(screen: Screen, input: seq<Byte>, pos: nat, promptEnd: nat)

  /** A received byte, and what the command that it may submit does. */
  datatype Event = Event(byte: Byte, output: seq<TermOp>)

  function Prompt(s: Shell): Shell
    requires s.screen.Ok()
  {
    var screen := Write(s.screen, PROMPT);
    Shell(screen, s.input, 0, screen.cur)
  }

  predicate Shape(s: Shell) {
    s.screen.Ok() && |s.input| == 256 && s.pos <= 255
  }

  function Receive(s: Shell, e: Event): (s': Shell)
    requires Shape(s)
    ensures Shape(s')
  {
    if e.byte == RETURN then
      var screen := PutChar(s.screen, NEWLINE);
      Prompt(s.(screen := if s.pos > 0 then PerformAll(screen, e.output) else screen, input := s.input[s.pos := 0]))
    else if e.byte == DELETE || e.byte == BACKSPACE then
      if s.pos > 0 then s.(pos := s.pos - 1, screen := PutChar(s.screen, BACKSPACE)) else s
    else if 32 <= e.byte < 127 && s.pos < 255 then
      s.(input := s.input[s.pos := e.byte], pos := s.pos + 1, screen := PutChar(s.screen, e.byte))
    else s
  }

  function ReceiveAll(s: Shell, es: seq<Event>): (s': Shell)
    requires Shape(s)
    ensures Shape(s')
    decreases |es|
  {
    if es == [] then s else Receive(ReceiveAll(s, es[..|es| - 1]), es[|es| - 1])
  }

  function Boot(color: Byte, input: seq<Byte>): Shell {
    Prompt(Shell(Write(Clear(color), BANNER), input, 0, 0))
  }

  /** The line that the bytes since the last carriage return spell, at most 255
      characters, with backspaces applied. */
  function Line(es: seq<Event>): (line: seq<Byte>)
    ensures |line| <= 255
    decreases |es|
  {
    if es == [] then []
    else
      var front, b := Line(es[..|es| - 1]), es[|es| - 1].byte;
      if b == 13 then []
      else if b == 127 || b == 8 then
        if front == [] then [] else front[..|front| - 1]
      else if 32 <= b < 127 && |front| < 255 then front + [b]
      else front
  }

  /** The cells from the end of the prompt to the cursor are all visible and show
      exactly the typed line, which is what the input buffer holds. */
  ghost predicate InStep(s: Shell, line: seq<Byte>) {
    && Shape(s)
    && s.input[..s.pos] == line
    && (forall i :: 0 <= i < |line| ==> line[i] != NEWLINE && line[i] != BACKSPACE)
    && s.screen.Top() <= s.promptEnd && s.promptEnd + s.pos == s.screen.cur
    && s.screen.page[s.promptEnd..s.screen.cur] == Glyphs(line, s.screen.color)
  }

  lemma PromptInStep(s: Shell)
    requires s.screen.Ok() && |s.input| == 256
    ensures InStep(Prompt(s), [])
  {
    hide VgaEntry, PutChar, Write;
  }

  /** A typed character: even when it scrolls the screen the line, which is shorter
      than 24 rows, stays visible. */
  lemma TypeInStep(s: Shell, line: seq<Byte>, c: Byte)
    requires InStep(s, line) && 32 <= c < 127 && s.pos < 255
    ensures InStep(s.(input := s.input[s.pos := c], pos := s.pos + 1, screen := PutChar(s.screen, c)), line + [c])
  {
    hide VgaEntry, Blanks;
    var screen, screen' := s.screen, PutChar(s.screen, c);
    assert screen'.page[s.promptEnd..screen'.cur] == screen.page[s.promptEnd..screen.cur] + [VgaEntry(c, screen.color)];
    assert Glyphs(line + [c], screen.color) == Glyphs(line, screen.color) + [VgaEntry(c, screen.color)];
  }

  lemma EraseInStep(s: Shell, line: seq<Byte>)
    requires InStep(s, line) && s.pos > 0
    ensures InStep(s.(pos := s.pos - 1, screen := PutChar(s.screen, BACKSPACE)), line[..|line| - 1])
  {
    hide VgaEntry, Blanks;
    var screen, screen' := s.screen, PutChar(s.screen, BACKSPACE);
    var n := |line| - 1;
    assert screen'.page[s.promptEnd..screen'.cur] == screen.page[s.promptEnd..screen.cur][..n];
    assert Glyphs(line[..n], screen.color) == Glyphs(line, screen.color)[..n];
  }

  /** For every sequence of received bytes, and whatever the commands print, the
      screen behind the prompt, the input buffer and the typed line agree. */
  lemma {:induction false} ShellStaysInStep(color: Byte, input: seq<Byte>, es: seq<Event>)
    requires |input| == 256
    ensures InStep(ReceiveAll(Boot(color, input), es), Line(es))
    decreases |es|
  {
    if es == [] {
      hide PerformAll, Write;
      PromptInStep(Shell(Write(Clear(color), BANNER), input, 0, 0));
    } else {
      var front, e := es[..|es| - 1], es[|es| - 1];
      ShellStaysInStep(color, input, front);
      var s, line := ReceiveAll(Boot(color, input), front), Line(front);
      hide PerformAll, Write, PutChar, Glyphs, Boot;
      if e.byte == RETURN {
        var screen := PutChar(s.screen, NEWLINE);
        PromptInStep(s.(screen := if s.pos > 0 then PerformAll(screen, e.output) else screen,
                        input := s.input[s.pos := 0]));
      } else if e.byte == DELETE || e.byte == BACKSPACE {
        if s.pos > 0 {
          EraseInStep(s, line);
        }
      } else if 32 <= e.byte < 127 && s.pos < 255 {
        TypeInStep(s, line, e.byte);
      }
    }
  }

  // ---------- The transcript of a session ----------

  function Puts(text: seq<Byte>): (ops: seq<TermOp>)
    ensures |ops| == |text|
  {
    seq(|text|, i requires 0 <= i < |text| => Put(text[i]))
  }

  /** What a byte received behind the line adds: Enter a newline, what the command does if
      the line is not empty, and the prompt "nyrix> "; a backspace one that erases, if
      there is something to erase; a printable character itself, if there is room. */
  function Reply(line: seq<Byte>, e: Event): seq<TermOp> {
    if e.byte == 13 then
      [Put(10)] + (if line == [] then [] else e.output) + Puts([110, 121, 114, 105, 120, 62, 32])
    else if e.byte == 127 || e.byte == 8 then if line == [] then [] else [Put(8)]
    else if 32 <= e.byte < 127 && |line| < 255 then [Put(e.byte)]
    else []
  }

  /** Everything printed since the screen was cleared, from "Nyrix Kernel v0.1" on. */
  function Transcript(es: seq<Event>): seq<TermOp>
    decreases |es|
  {
    if es == [] then
      Puts([78, 121, 114, 105, 120, 32, 75, 101, 114, 110, 101, 108, 32, 118, 48, 46, 49, 10]) +
      Puts([110, 121, 114, 105, 120, 62, 32])
    else Transcript(es[..|es| - 1]) + Reply(Line(es[..|es| - 1]), es[|es| - 1])
  }

  lemma {:induction false} PerformAppend(s: Screen, a: seq<TermOp>, b: seq<TermOp>)
    requires s.Ok()
    ensures PerformAll(s, a + b) == PerformAll(PerformAll(s, a), b)
    decreases |b|
  {
    hide Perform;
    if b == [] {
      assert a + b == a;
    } else {
      assert (a + b)[..|a + b| - 1] == a + b[..|b| - 1];
      PerformAppend(s, a, b[..|b| - 1]);
    }
  }

  lemma {:induction false} WritePerforms(s: Screen, text: seq<Byte>)
    requires s.Ok()
    ensures Write(s, text) == PerformAll(s, Puts(text))
    decreases |text|
  {
    hide PutChar;
    if text != [] {
      var n := |text| - 1;
      assert Puts(text)[..n] == Puts(text[..n]);
      WritePerforms(s, text[..n]);
    }
  }

  lemma PerformOne(s: Screen, op: TermOp)
    requires s.Ok()
    ensures PerformAll(s, [op]) == Perform(s, op)
  {
    assert [op][..0] == [];
  }

  lemma EnterReplies(screen: Screen, line: seq<Byte>, output: seq<TermOp>)
    requires screen.Ok()
    ensures var next := PutChar(screen, NEWLINE);
      PerformAll(screen, Reply(line, Event(RETURN, output))) ==
        Write(if line == [] then next else PerformAll(next, output), PROMPT)
  {
    var ran := if line == [] then [] else output;
    PerformOne(screen, Put(10));
    PerformAppend(screen, [Put(10)], ran);
    PerformAppend(screen, [Put(10)] + ran, Puts(PROMPT));
    hide PutChar, Write, Puts;
    WritePerforms(PerformAll(screen, [Put(10)] + ran), PROMPT);
  }

  lemma ReceiveReplies(s: Shell, line: seq<Byte>, e: Event)
    requires InStep(s, line)
    ensures Receive(s, e).screen == PerformAll(s.screen, Reply(line, e))
  {
    if e.byte == RETURN {
      EnterReplies(s.screen, line, e.output);
    } else {
      PerformOne(s.screen, Put(8));
      PerformOne(s.screen, Put(e.byte));
    }
    hide PutChar, Write, Puts, Glyphs;
  }

  /** For every sequence of received bytes and all outputs, the screen is what the
      transcript leaves on a cleared one. */
  lemma {:induction false} ScreenIsTranscript(color: Byte, input: seq<Byte>, es: seq<Event>)
    requires |input| == 256
    ensures ReceiveAll(Boot(color, input), es).screen == PerformAll(Clear(color), Transcript(es))
    decreases |es|
  {
    hide Clear, PutChar, Puts, Reply, InStep, Perform;
    if es == [] {
      var clear := Clear(color);
      WritePerforms(clear, BANNER);
      WritePerforms(Write(clear, BANNER), PROMPT);
      PerformAppend(clear, Puts(BANNER), Puts(PROMPT));
    } else {
      var front := es[..|es| - 1];
      ScreenIsTranscript(color, input, front);
      ShellStaysInStep(color, input, front);
      ReceiveReplies(ReceiveAll(Boot(color, input), front), Line(front), es[|es| - 1]);
      PerformAppend(Clear(color), Transcript(front), Reply(Line(front), es[|es| - 1]));
    }
  }

  /** At boot the first row shows "Nyrix Kernel v0.1", the second "nyrix> " with the
      cursor behind it. */
  lemma BootShows(color: Byte, input: seq<Byte>)
    requires |input| == 256
    ensures var s := Boot(color, input).screen;
      && |s.page| == 2000 && s.cur == 87
      && (forall i :: 0 <= i < 17 ==>
           Shows(s.page[i],
                 [78, 121, 114, 105, 120, 32, 75, 101, 114, 110, 101, 108, 32, 118, 48, 46, 49][i], color))
      && forall i :: 0 <= i < 7 ==> Shows(s.page[80 + i], [110, 121, 114, 105, 120, 62, 32][i], color)
  {
    var title := [78, 121, 114, 105, 120, 32, 75, 101, 114, 110, 101, 108, 32, 118, 48, 46, 49];
    assert BANNER == title + [NEWLINE];
    assert NEWLINE !in title && BACKSPACE !in title && NEWLINE !in PROMPT && BACKSPACE !in PROMPT;
    hide Write, Clear, Shows;
    TwoLines(title, PROMPT, color);
  }

  /** Two short lines on a cleared screen. */
  lemma TwoLines(first: seq<Byte>, second: seq<Byte>, color: Byte)
    requires |first| < 80 && |second| < 80
    requires NEWLINE !in first && BACKSPACE !in first && NEWLINE !in second && BACKSPACE !in second
    ensures var s := Write(Write(Clear(color), first + [NEWLINE]), second);
      && |s.page| == 2000 && s.cur == 80 + |second|
      && (forall i :: 0 <= i < |first| ==> Shows(s.page[i], first[i], color))
      && forall i :: 0 <= i < |second| ==> Shows(s.page[80 + i], second[i], color)
  {
    TwoLinesLayout(first, second, color);
    LineShows(first, color);
    LineShows(second, color);
    hide PadLine, Write, Clear, Shows;
  }

  lemma LineShows(line: seq<Byte>, color: Byte)
    requires |line| < 80
    ensures |PadLine(line, color)| == 80
    ensures forall i :: 0 <= i < |line| ==> Shows(PadLine(line, color)[i], line[i], color)
  {
    hide VgaEntry, Shows;
    forall i | 0 <= i < |line|
      ensures Shows(PadLine(line, color)[i], line[i], color)
    {
      VgaEntryShows(line[i], color);
    }
  }

  lemma TwoLinesLayout(first: seq<Byte>, second: seq<Byte>, color: Byte)
    requires |first| < 80 && |second| < 80
    requires NEWLINE !in first && BACKSPACE !in first && NEWLINE !in second && BACKSPACE !in second
    ensures Write(Write(Clear(color), first + [NEWLINE]), second) ==
      Screen(FillPage(PadLine(first, color) + PadLine(second, color), color), 80 + |second|, color)
  {
    var text := first + [NEWLINE] + second;
    hide Write, Clear, PadLine, LastNewline, Layout, EndOf, FillPage;
    WriteTwice(Clear(color), first + [NEWLINE], second);
    WriteIsLayout(text, color);
    TwoLinesParts(first, second, color);
  }

  lemma TwoLinesParts(first: seq<Byte>, second: seq<Byte>, color: Byte)
    requires |first| < 80 && NEWLINE !in first && NEWLINE !in second
    ensures var text := first + [NEWLINE] + second;
      Layout(text, color) == PadLine(first, color) + PadLine(second, color) && EndOf(text, color) == 80 + |second|
  {
    var text := first + [NEWLINE] + second;
    hide PadLine, LastNewline, Shows;
    LastNewlineIs(text, |first|);
    LastNewlineIs(first, -1);
    LineShows(first, color);
    assert text[..|first|] == first && text[|first| + 1..] == second;
  }

  lemma {:induction false} LastNewlineIs(text: seq<Byte>, k: int)
    requires -1 <= k < |text| && (k >= 0 ==> text[k] == NEWLINE)
    requires forall i :: k < i < |text| ==> text[i] != NEWLINE
    ensures LastNewline(text) == k
  {
  }

  lemma WriteTwice(s: Screen, a: seq<Byte>, b: seq<Byte>)
    requires s.Ok()
    ensures Write(Write(s, a), b) == Write(s, a + b)
  {
    hide Write, Puts;
    WritePerforms(s, a);
    WritePerforms(Write(s, a), b);
    WritePerforms(s, a + b);
    PerformAppend(s, Puts(a), Puts(b));
    assert Puts(a + b) == Puts(a) + Puts(b) by {
      PutsAppend(a, b);
    }
  }

  lemma PutsAppend(a: seq<Byte>, b: seq<Byte>)
    ensures Puts(a + b) == Puts(a) + Puts(b)
  {
  }

  /** What Enter submits is the line on the screen: its NUL-terminated copy is at the
      start of the input buffer, and the cells that show it determine it. */
  lemma EnterSubmitsLine(s: Shell, line: seq<Byte>, other: seq<Byte>, output: seq<TermOp>)
    requires InStep(s, line)
    ensures Receive(s, Event(13, output)).input[..s.pos + 1] == line + [0]
    ensures Glyphs(other, s.screen.color) == s.screen.page[s.promptEnd..s.screen.cur] ==> other == line
  {
    if Glyphs(other, s.screen.color) == Glyphs(line, s.screen.color) {
      forall i | 0 <= i < |line|
        ensures other[i] == line[i]
      {
        assert Glyphs(other, s.screen.color)[i] == Glyphs(line, s.screen.color)[i];
        VgaEntryInjective(other[i], line[i], s.screen.color);
      }
    }
  }
}

/** The terminal and the serial shell of src/kernel/kernel.cpp, in VGA mode. */
module Terminals {
  import opened ScreenSpec
  import opened ShellSpec

  class Terminal {
    /** The 25 * 80 cells at 0xB8000. */
    const vga: array<Cell>
    var row: nat
    var column: nat
    var color: Byte
    ghost var screen: Screen

    ghost predicate Valid()
      reads this, vga
    {
      && vga.Length == CELLS && row < HEIGHT && column < WIDTH
      && screen.Ok() && screen.color == color
      && vga[..] == screen.Window()
      && screen.cur == screen.Top() + row * 80 + column
    }

    /** The terminal before its first clear: any buffer contents. */
    constructor (memory: array<Cell>)
      requires memory.Length == CELLS
      ensures Valid() && vga == memory && row == 0 && column == 0 && color == 0x0F
    {
      vga := memory;
      row, column, color := 0, 0, 0x0F;
      screen := Screen(memory[..], 0, 0x0F);
    }

    method ScrollUp()
      requires vga.Length == CELLS
      modifies vga
      ensures vga[..] == old(vga[80..]) + Blanks(80, color)
    {
      hide VgaEntry;
      for y := 1 to HEIGHT
        invariant forall i :: 0 <= i < (y - 1) * 80 ==> vga[i] == old(vga[i + 80])
        invariant forall i :: (y - 1) * 80 <= i < CELLS ==> vga[i] == old(vga[i])
      {
        for x := 0 to WIDTH
          invariant forall i :: 0 <= i < (y - 1) * 80 + x ==> vga[i] == old(vga[i + 80])
          invariant forall i :: (y - 1) * 80 + x <= i < CELLS ==> vga[i] == old(vga[i])
        {
          vga[(y - 1) * WIDTH + x] := vga[y * WIDTH + x];
        }
      }
      for x := 0 to WIDTH
        invariant forall i :: 0 <= i < 1920 ==> vga[i] == old(vga[i + 80])
        invariant forall i :: 1920 <= i < 1920 + x ==> vga[i] == Blank(color)
      {
        vga[(HEIGHT - 1) * WIDTH + x] := VgaEntry(SPACE, color);
      }
      assert vga[..1920] == old(vga[80..]);
      assert vga[1920..] == Blanks(80, color);
      assert vga[..] == vga[..1920] + vga[1920..];
    }

    /** terminal_clear */
    method ClearAll()
      requires vga.Length == CELLS
      modifies this, vga
      ensures Valid() && screen == Clear(old(color)) && color == old(color)
    {
      hide VgaEntry;
      for y := 0 to HEIGHT
        invariant forall i :: 0 <= i < y * 80 ==> vga[i] == Blank(color)
        modifies vga
      {
        for x := 0 to WIDTH
          invariant forall i :: 0 <= i < y * 80 + x ==> vga[i] == Blank(color)
          modifies vga
        {
          vga[y * WIDTH + x] := VgaEntry(SPACE, color);
        }
      }
      row, column := 0, 0;
      screen := Clear(color);
      assert vga[..] == Blanks(CELLS, color);
    }

    /** terminal_putchar without its serial copy. */
    method Put(c: Byte)
      requires Valid()
      modifies this, vga
      ensures Valid() && screen == PutChar(old(screen), c)
    {
      hide MoveTo;
      if c == NEWLINE {
        NewLine();
      } else if c == BACKSPACE {
        Erase();
      } else {
        PutGlyph(VgaEntry(c, color));
      }
    }

    /** The backspace branch. */
    method Erase()
      requires Valid()
      modifies this, vga
      ensures Valid() && screen == PutChar(old(screen), BACKSPACE)
    {
      hide VgaEntry;
      if column > 0 {
        column := column - 1;
      } else if row > 0 {
        row := row - 1;
        column := WIDTH - 1;
      }
      screen := screen.(cur := screen.Top() + row * 80 + column);
      Store(VgaEntry(SPACE, color));
    }

    /** A printed character, which may wrap to the next row. */
    method PutGlyph(cell: Cell)
      requires Valid()
      modifies this, vga
      ensures Valid() && color == old(color)
      ensures screen == MoveTo(old(screen).(page := old(screen).page[old(screen).cur := cell]), old(screen).cur + 1)
    {
      hide Blanks;
      Store(cell);
      if column + 1 == WIDTH {
        assert (screen.cur / 80 + 1) * 80 == screen.cur + 1;
        NewLine();
      } else {
        column := column + 1;
        screen := MoveTo(screen, screen.cur + 1);
      }
    }

    /** Store a cell under the cursor. */
    method Store(cell: Cell)
      requires Valid()
      modifies this`screen, vga
      ensures Valid() && screen == old(screen).(page := old(screen).page[old(screen).cur := cell])
    {
      hide VgaEntry, Blanks;
      ghost var at := row * WIDTH + column;
      assert screen.page[screen.cur := cell][screen.Top()..] == screen.page[screen.Top()..][at := cell];
      vga[row * WIDTH + column] := cell;
      screen := screen.(page := screen.page[screen.cur := cell]);
    }

    /** Column 0 of the next row, scrolling if there is none. */
    method NewLine()
      requires Valid()
      modifies this, vga
      ensures Valid() && color == old(color) && screen == MoveTo(old(screen), (old(screen).cur / 80 + 1) * 80)
    {
      hide VgaEntry, Blanks;
      column := 0;
      row := row + 1;
      assert screen.cur / 80 == screen.Top() / 80 + row - 1;
      if row == HEIGHT {
        ScrollUp();
        row := HEIGHT - 1;
      }
      screen := MoveTo(screen, (screen.cur / 80 + 1) * 80);
    }

    /** terminal_write of a C string given without its NUL. */
    method WriteText(text: seq<Byte>)
      requires Valid()
      modifies this, vga
      ensures Valid() && screen == Write(old(screen), text)
    {
      hide PutChar;
      for i := 0 to |text|
        invariant Valid() && screen == Write(old(screen), text[..i])
      {
        assert text[..i + 1][..i] == text[..i];
        Put(text[i]);
      }
      assert text[..|text|] == text;
    }

    /** A command, as the operations it makes on the terminal. */
    method Run(ops: seq<TermOp>)
      requires Valid()
      modifies this, vga
      ensures Valid() && screen == PerformAll(old(screen), ops)
    {
      hide PutChar, Clear;
      for i := 0 to |ops|
        invariant Valid() && screen == PerformAll(old(screen), ops[..i])
      {
        assert ops[..i + 1][..i] == ops[..i];
        match ops[i]
        case Put(c) => Put(c);
        case ClearScreen => ClearAll();
        case SetColor(col) =>
          color := col;
          screen := screen.(color := col);
      }
      assert ops[..|ops|] == ops;
    }
  }

  class SerialShell {
    const terminal: Terminal
    const inputBuffer: array<Byte>
    var inputPos: nat
    ghost var promptEnd: nat

    ghost function Abs(): Shell
      reads this, terminal, inputBuffer
    {
      Shell(terminal.screen, inputBuffer[..], inputPos, promptEnd)
    }

    ghost predicate Valid()
      reads this, terminal, terminal.vga, inputBuffer
    {
      terminal.Valid() && inputBuffer as object != terminal.vga as object && Shape(Abs())
    }

    /** The boot messages and the first prompt. */
    constructor (terminal: Terminal, buffer: array<Byte>)
      requires terminal.Valid() && buffer.Length == 256 && buffer as object != terminal.vga as object
      modifies terminal, terminal.vga
      ensures Valid() && this.terminal == terminal && inputBuffer == buffer
      ensures Abs() == ShellSpec.Boot(old(terminal.color), buffer[..])
    {
      this.terminal := terminal;
      inputBuffer := buffer;
      inputPos := 0;
      new;
      hide Write, Clear, PutChar, Screen.Window;
      terminal.ClearAll();
      terminal.WriteText(BANNER);
      terminal.WriteText(PROMPT);
      promptEnd := terminal.screen.cur;
    }

    /** One byte from the serial port; output is what the command does, if one runs. */
    method ReceiveByte(c: Byte, output: seq<TermOp>)
      requires Valid()
      modifies this, terminal, terminal.vga, inputBuffer
      ensures Valid() && Abs() == Receive(old(Abs()), Event(c, output))
    {
      hide PutChar, Write, PerformAll;
      if c == RETURN {
        terminal.Put(NEWLINE);
        inputBuffer[inputPos] := 0;
        if inputPos > 0 {
          terminal.Run(output);
        }
        inputPos := 0;
        terminal.WriteText(PROMPT);
        promptEnd := terminal.screen.cur;
      } else if c == DELETE || c == BACKSPACE {
        if inputPos > 0 {
          inputPos := inputPos - 1;
          terminal.Put(BACKSPACE);
        }
      } else if 32 <= c < 127 {
        if inputPos < 255 {
          inputBuffer[inputPos] := c;
          inputPos := inputPos + 1;
          terminal.Put(c);
        }
      }
    }
  }
}
