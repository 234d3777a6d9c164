/** The framebuffer console of src/kernel/gfx.cpp at 32 bits per pixel, on pictures:
    rows of pixels, each as long as the pitch, so that the padding is part of it. */
module GfxSpec {
  type Pixel = bv32
  type Picture = seq<seq<Pixel>>

  const NEWLINE: bv8 := 10
  const BACKSPACE: bv8 := 8

  /** pitch is in pixels. */
  datatype Dims = Dims(width: nat, height: nat, pitch: nat) {
    predicate Ok() {
      8 <= width <= pitch && 16 <= height && width < 0x8000_0000 && height < 0x8000_0000
    }
  }

  predicate Fits(p: Picture, d: Dims) {
    |p| == d.height && forall y :: 0 <= y < |p| ==> |p[y]| == d.pitch
  }

  predicate InCell(cx: nat, cy: nat, y: nat, x: nat) {
    cy <= y < cy + 16 && cx <= x < cx + 8
  }

  /** The cell at (cx, cy) lies inside the visible part. */
  predicate Inside(d: Dims, cx: nat, cy: nat) {
    cx + 8 <= d.width && cy + 16 <= d.height
  }

  function Build(d: Dims, f: (nat, nat) -> Pixel): (p: Picture)
    ensures Fits(p, d)
    ensures forall y, x :: 0 <= y < d.height && 0 <= x < d.pitch ==> p[y][x] == f(y, x)
  {
    seq(d.height, y requires 0 <= y < d.height => seq(d.pitch, x requires 0 <= x < d.pitch => f(y, x)))
  }

  function At(p: Picture, y: nat, x: nat): Pixel {
    if y < |p| && x < |p[y]| then p[y][x] else 0
  }

  /** gfx_invert_cell */
  function Invert(d: Dims, p: Picture, cx: nat, cy: nat): (q: Picture)
    ensures Fits(q, d)
  {
    Build(d, (y: nat, x: nat) => if InCell(cx, cy, y, x) then !At(p, y, x) else At(p, y, x))
  }

  type Font = f: seq<seq<bv8>> | |f| == 95 && forall i :: 0 <= i < 95 ==> |f[i]| == 16
    witness seq(95, _ => seq(16, _ => 0))

  function GlyphRows(font: Font, c: bv8): (g: seq<bv8>)
    ensures |g| == 16
  {
    if c < 32 || c > 126 then font[0] else font[(c - 32) as int]
  }

  /** Pixel (y, x) of a cell, from the row bits of a glyph. */
  function Ink(rows: seq<bv8>, y: nat, x: nat, fg: Pixel, bg: Pixel): Pixel
    requires |rows| == 16
  {
    if y < 16 && x < 8 && rows[y] & ((0x80 as bv8) >> x) != 0 then fg else bg
  }

  function DrawCell(d: Dims, p: Picture, cx: nat, cy: nat, rows: seq<bv8>, fg: Pixel, bg: Pixel): (q: Picture)
    requires |rows| == 16
    ensures Fits(q, d)
  {
    Build(d, (y: nat, x: nat) => if InCell(cx, cy, y, x) then Ink(rows, y - cy, x - cx, fg, bg) else At(p, y, x))
  }

  /** gfx_scroll: up by one character row, the last row blank. */
  function Scroll(d: Dims, p: Picture, bg: Pixel): (q: Picture)
    ensures Fits(q, d)
  {
    Build(d, (y: nat, x: nat) =>
      if x >= d.width then At(p, y, x) else if y + 16 < d.height then At(p, y + 16, x) else bg)
  }

  function Erase(d: Dims, p: Picture, bg: Pixel): (q: Picture)
    ensures Fits(q, d)
  {
    Build(d, (y: nat, x: nat) => if x < d.width then bg else At(p, y, x))
  }

  /** picture is what is on the screen but for the cursor. */
  datatype Console = Console(picture: Picture, cx: nat, cy: nat, fg: Pixel, bg: Pixel)

  datatype Op = PutChar(c: bv8) | Clear | MoveCursor(x: nat, y: nat) | SetColor(fg: Pixel, bg: Pixel)

  const NO_INK: seq<bv8> := [0, 0, 0, 0, 0, 0, 0, 0, 0, 0, 0, 0, 0, 0, 0, 0]

  /** The next character row, scrolling the picture but not the cursor. */
  function NextRow(d: Dims, s: Console): (s': Console)
    ensures s'.cx == 0 && s'.cy == s.cy + 16
  {
    var down := s.(cx := 0, cy := s.cy + 16);
    if down.cy + 16 >= d.height then down.(picture := Scroll(d, s.picture, s.bg)) else down
  }

  function Put(d: Dims, font: Font, s: Console, c: bv8): Console
    requires d.Ok()
  {
    if c == NEWLINE then NextRow(d, s)
    else if c == BACKSPACE then
      var s1 := if s.cx >= 8 then s.(cx := s.cx - 8)
                else if s.cy >= 16 then s.(cx := d.width - 8, cy := s.cy - 16)
                else s;
      s1.(picture := DrawCell(d, s1.picture, s1.cx, s1.cy, NO_INK, s.fg, s.bg))
    else
      var s1 := s.(picture := DrawCell(d, s.picture, s.cx, s.cy, GlyphRows(font, c), s.fg, s.bg), cx := s.cx + 8);
      if s1.cx + 8 > d.width then NextRow(d, s1) else s1
  }

  function Step(d: Dims, font: Font, s: Console, op: Op): Console
    requires d.Ok()
  {
    match op
    case PutChar(c) => Put(d, font, s, c)
    case Clear => s.(picture := Erase(d, s.picture, s.bg), cx := 0, cy := 0)
    case MoveCursor(x, y) => s.(cx := x, cy := y)
    case SetColor(fg, bg) => s.(fg := fg, bg := bg)
  }

  /** What the framebuffer holds: the picture with the cursor cell inverted. */
  function Shown(d: Dims, s: Console): Picture {
    Invert(d, s.picture, s.cx, s.cy)
  }

  lemma SamePicture(d: Dims, p: Picture, q: Picture)
    requires Fits(p, d) && Fits(q, d)
    requires forall y, x :: 0 <= y < d.height && 0 <= x < d.pitch ==> p[y][x] == q[y][x]
    ensures p == q
  {
    forall y | 0 <= y < d.height
      ensures p[y] == q[y]
    {
    }
  }

  lemma ScrollAt(d: Dims, p: Picture, bg: Pixel, y: nat, x: nat)
    requires Fits(p, d) && y < d.height && x < d.pitch
    ensures At(Scroll(d, p, bg), y, x) ==
      if x >= d.width then At(p, y, x) else if y + 16 < d.height then At(p, y + 16, x) else bg
  {
  }

  lemma DrawAt(d: Dims, p: Picture, cx: nat, cy: nat, rows: seq<bv8>, fg: Pixel, bg: Pixel, y: nat, x: nat)
    requires |rows| == 16 && y < d.height && x < d.pitch
    ensures At(DrawCell(d, p, cx, cy, rows, fg, bg), y, x) ==
      if InCell(cx, cy, y, x) then Ink(rows, y - cy, x - cx, fg, bg) else At(p, y, x)
  {
    hide Ink;
  }

  /** Column x of a glyph row is foreground exactly when bit 7 - x of the row is set. */
  lemma InkIs(rows: seq<bv8>, y: nat, x: nat, fg: Pixel, bg: Pixel)
    requires |rows| == 16 && y < 16 && x < 8
    ensures Ink(rows, y, x, fg, bg) == if (rows[y] >> (7 - x)) & 1 == 1 then fg else bg
  {
    var bits := rows[y];
    if x == 0 {
    } else if x == 1 {
    } else if x == 2 {
    } else if x == 3 {
    } else if x == 4 {
    } else if x == 5 {
    } else if x == 6 {
    } else {
      assert x == 7;
    }
  }

  /** The same for the glyph of a character: that of code 32 stands for every code outside
      of 32 to 126. */
  lemma GlyphPixel(font: Font, c: bv8, y: nat, x: nat, fg: Pixel, bg: Pixel)
    requires y < 16 && x < 8
    ensures Ink(GlyphRows(font, c), y, x, fg, bg) ==
      if (font[if 32 <= c <= 126 then c as int - 32 else 0][y] >> (7 - x)) & 1 == 1 then fg else bg
  {
    GlyphIndex(font, c);
    InkIs(GlyphRows(font, c), y, x, fg, bg);
    hide GlyphRows, Ink;
  }

  lemma GlyphIndex(font: Font, c: bv8)
    ensures GlyphRows(font, c) == font[if 32 <= c <= 126 then c as int - 32 else 0]
  {
  }

  lemma NoInkIs(y: nat, x: nat, fg: Pixel, bg: Pixel)
    ensures Ink(NO_INK, y, x, fg, bg) == bg
  {
    assert forall i :: 0 <= i < 16 ==> NO_INK[i] == 0;
  }

  lemma InvertAt(d: Dims, p: Picture, cx: nat, cy: nat, y: nat, x: nat)
    requires y < d.height && x < d.pitch
    ensures At(Invert(d, p, cx, cy), y, x) ==
      if cy <= y < cy + 16 && cx <= x < cx + 8 then !At(p, y, x) else At(p, y, x)
  {
  }

  lemma EraseAt(d: Dims, p: Picture, bg: Pixel, y: nat, x: nat)
    requires y < d.height && x < d.pitch
    ensures At(Erase(d, p, bg), y, x) == if x < d.width then bg else At(p, y, x)
  {
  }

  /** A character that does not wrap: its glyph, the first one of the font if the code is
      not in 32 to 126, is in the cell at the cursor, which moves 8 columns on; the rest
      of the picture stays. */
  lemma CharPixel(d: Dims, font: Font, s: Console, c: bv8, y: nat, x: nat)
    requires d.Ok() && s.cx + 16 <= d.width && c != 10 && c != 8 && y < d.height && x < d.pitch
    ensures var t, glyph := Put(d, font, s, c), font[if 32 <= c <= 126 then c as int - 32 else 0];
      && t.cx == s.cx + 8 && t.cy == s.cy
      && At(t.picture, y, x) ==
           if s.cy <= y < s.cy + 16 && s.cx <= x < s.cx + 8 then
             if (glyph[y - s.cy] >> (7 - (x - s.cx))) & 1 == 1 then s.fg else s.bg
           else At(s.picture, y, x)
  {
    hide DrawCell, Ink, GlyphRows, At;
    PutUnwrapped(d, font, s, c);
    DrawAt(d, s.picture, s.cx, s.cy, GlyphRows(font, c), s.fg, s.bg, y, x);
    if InCell(s.cx, s.cy, y, x) {
      GlyphPixel(font, c, y - s.cy, x - s.cx, s.fg, s.bg);
    }
    hide Put;
  }

  lemma PutUnwrapped(d: Dims, font: Font, s: Console, c: bv8)
    requires d.Ok() && s.cx + 16 <= d.width && c != NEWLINE && c != BACKSPACE
    ensures Put(d, font, s, c) ==
      s.(picture := DrawCell(d, s.picture, s.cx, s.cy, GlyphRows(font, c), s.fg, s.bg), cx := s.cx + 8)
  {
    hide DrawCell, GlyphRows, NextRow;
  }

  /** Backspace goes one cell back, from the first column to the last 8 columns of the row
      above if there is one, and leaves background in the cell it comes to. */
  lemma BackspacePixel(d: Dims, font: Font, s: Console, y: nat, x: nat)
    requires d.Ok() && y < d.height && x < d.pitch
    ensures var t := Put(d, font, s, 8);
      && t.cx == (if s.cx >= 8 then s.cx - 8 else if s.cy >= 16 then d.width - 8 else s.cx)
      && t.cy == (if s.cx < 8 && s.cy >= 16 then s.cy - 16 else s.cy)
      && At(t.picture, y, x) ==
           if t.cy <= y < t.cy + 16 && t.cx <= x < t.cx + 8 then s.bg else At(s.picture, y, x)
  {
    var t := Put(d, font, s, 8);
    DrawAt(d, s.picture, t.cx, t.cy, NO_INK, s.fg, s.bg, y, x);
    if InCell(t.cx, t.cy, y, x) {
      NoInkIs(y - t.cy, x - t.cx, s.fg, s.bg);
    }
    hide DrawCell, Ink, At, NextRow;
  }

  /** A newline begins the next character row; on reaching the last one the picture moves
      up by 16 pixel rows, of which the last 16 become background. */
  lemma NewlinePixel(d: Dims, font: Font, s: Console, y: nat, x: nat)
    requires d.Ok() && Fits(s.picture, d) && y < d.height && x < d.width
    ensures var t := Put(d, font, s, 10);
      && t.cx == 0 && t.cy == s.cy + 16
      && At(t.picture, y, x) ==
           if s.cy + 32 < d.height then At(s.picture, y, x)
           else if y + 16 < d.height then At(s.picture, y + 16, x) else s.bg
  {
    ScrollAt(d, s.picture, s.bg, y, x);
    hide Scroll, At, DrawCell;
  }

  /** A character that wraps is drawn in its cell, and a newline follows. */
  lemma WrapIsNewline(d: Dims, font: Font, s: Console, c: bv8)
    requires d.Ok() && s.cx + 16 > d.width && c != 10 && c != 8
    ensures Put(d, font, s, c) ==
      Put(d, font, s.(picture := DrawCell(d, s.picture, s.cx, s.cy, GlyphRows(font, c), s.fg, s.bg)), 10)
  {
    hide DrawCell, Scroll, GlyphRows;
  }

  lemma NotNot(v: Pixel)
    ensures !!v == v
  {
  }

  /** Hiding undoes showing. */
  lemma InvertTwice(d: Dims, p: Picture, cx: nat, cy: nat)
    requires Fits(p, d)
    ensures Invert(d, Invert(d, p, cx, cy), cx, cy) == p
  {
    var q := Invert(d, Invert(d, p, cx, cy), cx, cy);
    forall y, x | 0 <= y < d.height && 0 <= x < d.pitch
      ensures q[y][x] == p[y][x]
    {
      NotNot(p[y][x]);
    }
    SamePicture(d, q, p);
  }

  // ---------- Runs ----------

  /** Every operation of the run leaves the cursor cell inside the framebuffer. */
  predicate StaysInside(d: Dims, font: Font, s: Console, ops: seq<Op>)
    requires d.Ok()
    decreases |ops|
  {
    ops == [] ||
    (Inside(d, Step(d, font, s, ops[0]).cx, Step(d, font, s, ops[0]).cy) &&
     StaysInside(d, font, Step(d, font, s, ops[0]), ops[1..]))
  }

  function Run(d: Dims, font: Font, s: Console, ops: seq<Op>): Console
    requires d.Ok()
    decreases |ops|
  {
    if ops == [] then s else Run(d, font, Step(d, font, s, ops[0]), ops[1..])
  }

  predicate SamePadding(d: Dims, p: Picture, q: Picture) {
    forall y, x :: 0 <= y < d.height && d.width <= x < d.pitch ==> At(p, y, x) == At(q, y, x)
  }

  lemma DrawKeepsPadding(d: Dims, p: Picture, cx: nat, cy: nat, rows: seq<bv8>, fg: Pixel, bg: Pixel)
    requires |rows| == 16 && Fits(p, d) && cx + 8 <= d.width
    ensures SamePadding(d, p, DrawCell(d, p, cx, cy, rows, fg, bg))
  {
    hide Ink;
  }

  lemma InvertKeepsPadding(d: Dims, p: Picture, cx: nat, cy: nat)
    requires Fits(p, d) && cx + 8 <= d.width
    ensures SamePadding(d, p, Invert(d, p, cx, cy))
  {
  }

  /** The cursor does not matter for what is left after erasing. */
  lemma EraseShown(d: Dims, s: Console)
    requires Fits(s.picture, d) && Inside(d, s.cx, s.cy)
    ensures Erase(d, Shown(d, s), s.bg) == Erase(d, s.picture, s.bg)
  {
    SamePicture(d, Erase(d, Shown(d, s), s.bg), Erase(d, s.picture, s.bg));
  }

  lemma NextRowKeepsPadding(d: Dims, s: Console)
    requires Fits(s.picture, d)
    ensures Fits(NextRow(d, s).picture, d) && SamePadding(d, s.picture, NextRow(d, s).picture)
  {
  }

  lemma PaddingTransitive(d: Dims, p: Picture, q: Picture, r: Picture)
    requires SamePadding(d, p, q) && SamePadding(d, q, r)
    ensures SamePadding(d, p, r)
  {
    forall y, x | 0 <= y < d.height && d.width <= x < d.pitch
      ensures At(p, y, x) == At(r, y, x)
    {
      assert At(p, y, x) == At(q, y, x);
    }
  }

  lemma PutKeepsPadding(d: Dims, font: Font, s: Console, c: bv8)
    requires d.Ok() && Fits(s.picture, d) && Inside(d, s.cx, s.cy)
    ensures Fits(Put(d, font, s, c).picture, d)
    ensures SamePadding(d, s.picture, Put(d, font, s, c).picture)
  {
    hide Ink, GlyphRows, SamePadding, DrawCell, NextRow;
    if c == NEWLINE {
      NextRowKeepsPadding(d, s);
    } else if c == BACKSPACE {
      var s1 := if s.cx >= 8 then s.(cx := s.cx - 8)
                else if s.cy >= 16 then s.(cx := d.width - 8, cy := s.cy - 16)
                else s;
      DrawKeepsPadding(d, s1.picture, s1.cx, s1.cy, NO_INK, s.fg, s.bg);
    } else {
      var rows := GlyphRows(font, c);
      var s1 := s.(picture := DrawCell(d, s.picture, s.cx, s.cy, rows, s.fg, s.bg), cx := s.cx + 8);
      DrawKeepsPadding(d, s.picture, s.cx, s.cy, rows, s.fg, s.bg);
      NextRowKeepsPadding(d, s1);
      if s1.cx + 8 > d.width {
        PaddingTransitive(d, s.picture, s1.picture, NextRow(d, s1).picture);
      }
    }
  }

  lemma StepKeepsPadding(d: Dims, font: Font, s: Console, op: Op)
    requires d.Ok() && Fits(s.picture, d) && Inside(d, s.cx, s.cy)
    ensures Fits(Step(d, font, s, op).picture, d)
    ensures SamePadding(d, s.picture, Step(d, font, s, op).picture)
  {
    hide Put;
    match op
    case PutChar(c) => PutKeepsPadding(d, font, s, c);
    case _ =>
  }

  /** No run writes the padding behind the visible part of a row, cursor included. */
  lemma {:induction false} RunKeepsPadding(d: Dims, font: Font, s: Console, ops: seq<Op>)
    requires d.Ok() && Fits(s.picture, d) && Inside(d, s.cx, s.cy) && StaysInside(d, font, s, ops)
    ensures var t := Run(d, font, s, ops);
      && Fits(t.picture, d) && Inside(d, t.cx, t.cy)
      && SamePadding(d, s.picture, t.picture) && SamePadding(d, s.picture, Shown(d, t))
    decreases |ops|
  {
    hide Step, SamePadding;
    if ops == [] {
      assert SamePadding(d, s.picture, s.picture) by { PaddingReflexive(d, s.picture); }
      InvertKeepsPadding(d, s.picture, s.cx, s.cy);
    } else {
      var s1, t := Step(d, font, s, ops[0]), Run(d, font, s, ops);
      StepKeepsPadding(d, font, s, ops[0]);
      RunKeepsPadding(d, font, s1, ops[1..]);
      PaddingTransitive(d, s.picture, s1.picture, t.picture);
      PaddingTransitive(d, s.picture, s1.picture, Shown(d, t));
    }
  }

  lemma PaddingReflexive(d: Dims, p: Picture)
    ensures SamePadding(d, p, p)
  {
  }

  // ---------- When the cursor stays inside ----------

  /** The guard of one character: it does not move down, or there is a row below. */
  predicate HasRoom(d: Dims, cx: nat, cy: nat, c: bv8) {
    c == BACKSPACE || (c != NEWLINE && cx + 16 <= d.width) || cy + 32 <= d.height
  }

  function PutChars(text: seq<bv8>): seq<Op> {
    seq(|text|, i requires 0 <= i < |text| => PutChar(text[i]))
  }

  /** Column and row of the cursor after one character, from those before. */
  function NextX(d: Dims, cx: nat, c: bv8): nat
    requires d.Ok()
  {
    if c == NEWLINE then 0
    else if c == BACKSPACE then if cx >= 8 then cx - 8 else cx
    else if cx + 16 > d.width then 0 else cx + 8
  }

  /** The rows that a character, no backspace, moves down. */
  function Advance(d: Dims, cx: nat, c: bv8): nat {
    if c == NEWLINE || cx + 16 > d.width then 1 else 0
  }

  /** Where one character leaves the cursor. */
  lemma PutMoves(d: Dims, font: Font, s: Console, c: bv8)
    requires d.Ok()
    ensures c != BACKSPACE ==>
      Put(d, font, s, c).cx == NextX(d, s.cx, c) && Put(d, font, s, c).cy == s.cy + 16 * Advance(d, s.cx, c)
    ensures c == BACKSPACE ==>
      var up := s.cx < 8 && s.cy >= 16;
      && Put(d, font, s, c).cx == (if up then d.width - 8 else NextX(d, s.cx, c))
      && Put(d, font, s, c).cy == (if up then s.cy - 16 else s.cy)
  {
    hide DrawCell, NextRow, GlyphRows;
  }

  /** One character keeps the cursor cell inside exactly under that guard: scrolling
      moves the picture, but not the cursor. */
  lemma PutInside(d: Dims, font: Font, s: Console, c: bv8)
    requires d.Ok() && Inside(d, s.cx, s.cy)
    ensures Inside(d, Put(d, font, s, c).cx, Put(d, font, s, c).cy) <==> HasRoom(d, s.cx, s.cy, c)
  {
    hide Put;
    PutMoves(d, font, s, c);
  }

  /** So does any operation under its guard; clearing needs none. */
  lemma StepInside(d: Dims, font: Font, s: Console, op: Op)
    requires d.Ok() && Inside(d, s.cx, s.cy)
    ensures Inside(d, Step(d, font, s, op).cx, Step(d, font, s, op).cy) <==>
      match op {
        case PutChar(c) => HasRoom(d, s.cx, s.cy, c)
        case MoveCursor(x, y) => Inside(d, x, y)
        case _ => true
      }
  {
    hide Put;
    match op
    case PutChar(c) => PutInside(d, font, s, c);
    case _ =>
  }

  /** The row changes of a text without backspace: its newlines and its wraps. */
  function Rows(d: Dims, cx: nat, text: seq<bv8>): nat
    requires d.Ok()
    decreases |text|
  {
    if text == [] then 0 else Advance(d, cx, text[0]) + Rows(d, NextX(d, cx, text[0]), text[1..])
  }

  predicate NoBackspace(text: seq<bv8>) {
    forall i :: 0 <= i < |text| ==> text[i] != BACKSPACE
  }

  /** A text keeps the cursor inside exactly when there are rows for all its newlines
      and wraps below the cursor. */
  lemma {:induction false} TextStaysInside(d: Dims, font: Font, s: Console, text: seq<bv8>)
    requires d.Ok() && Inside(d, s.cx, s.cy) && NoBackspace(text)
    ensures StaysInside(d, font, s, PutChars(text)) <==> s.cy + 16 * (Rows(d, s.cx, text) + 1) <= d.height
    decreases |text|
  {
    hide Put;
    if text != [] {
      var s1 := Put(d, font, s, text[0]);
      assert PutChars(text)[1..] == PutChars(text[1..]);
      PutInside(d, font, s, text[0]);
      PutMoves(d, font, s, text[0]);
      if HasRoom(d, s.cx, s.cy, text[0]) {
        TextStaysInside(d, font, s1, text[1..]);
      }
    }
  }

  /** The lowest row that the cursor reaches, with backspaces. */
  function Lowest(d: Dims, cx: nat, cy: nat, text: seq<bv8>): (y: nat)
    requires d.Ok()
    ensures y >= cy
    decreases |text|
  {
    if text == [] then cy
    else
      var back := text[0] == BACKSPACE && cx < 8 && cy >= 16;
      var x := if back then d.width - 8 else NextX(d, cx, text[0]);
      var y := if back then cy - 16
               else if text[0] == BACKSPACE then cy else cy + 16 * Advance(d, cx, text[0]);
      var rest := Lowest(d, x, y, text[1..]);
      if rest < cy then cy else rest
  }

  /** Any text keeps it inside exactly when that row does not leave the picture. */
  lemma {:induction false} AnyTextStaysInside(d: Dims, font: Font, s: Console, text: seq<bv8>)
    requires d.Ok() && Inside(d, s.cx, s.cy)
    ensures StaysInside(d, font, s, PutChars(text)) <==> Lowest(d, s.cx, s.cy, text) + 16 <= d.height
    decreases |text|
  {
    hide Put;
    if text != [] {
      var s1 := Put(d, font, s, text[0]);
      assert PutChars(text)[1..] == PutChars(text[1..]);
      PutInside(d, font, s, text[0]);
      PutMoves(d, font, s, text[0]);
      if HasRoom(d, s.cx, s.cy, text[0]) {
        AnyTextStaysInside(d, font, s1, text[1..]);
      }
    }
  }
}

/** The object of src/kernel/gfx.cpp. */
module Consoles {
  import opened GfxSpec

  /** The word of pixel (y, x). */
  function Index(d: Dims, y: nat, x: nat): nat {
    y * d.pitch + x
  }

  lemma IndexBound(d: Dims, y: nat, x: nat)
    requires y < d.height && x < d.pitch
    ensures Index(d, y, x) < d.height * d.pitch
  {
    assert (y + 1) * d.pitch <= d.height * d.pitch;
  }

  lemma IndexDistinct(d: Dims, y: nat, x: nat, y': nat, x': nat)
    requires x < d.pitch && x' < d.pitch && (y != y' || x != x')
    ensures Index(d, y, x) != Index(d, y', x')
  {
    if y < y' {
      assert (y + 1) * d.pitch <= y' * d.pitch;
    } else if y' < y {
      assert (y' + 1) * d.pitch <= y * d.pitch;
    }
  }

  /** The words of the framebuffer hold the picture. */
  ghost predicate Holds(m: seq<Pixel>, d: Dims, p: Picture) {
    && |m| == d.height * d.pitch && Fits(p, d)
    && forall y, x :: 0 <= y < d.height && 0 <= x < d.pitch ==>
         Index(d, y, x) < |m| && m[Index(d, y, x)] == p[y][x]
  }

  function SetPixel(p: Picture, y: nat, x: nat, v: Pixel): Picture
    requires y < |p| && x < |p[y]|
  {
    p[y := p[y][x := v]]
  }

  lemma StoreHolds(m: seq<Pixel>, d: Dims, p: Picture, y: nat, x: nat, v: Pixel)
    requires Holds(m, d, p) && y < d.height && x < d.pitch
    ensures Index(d, y, x) < |m| && m[Index(d, y, x)] == p[y][x]
    ensures Holds(m[Index(d, y, x) := v], d, SetPixel(p, y, x, v))
  {
    IndexBound(d, y, x);
    forall y', x' | 0 <= y' < d.height && 0 <= x' < d.pitch && (y' != y || x' != x)
      ensures Index(d, y', x') != Index(d, y, x)
    {
      IndexDistinct(d, y', x', y, x);
    }
    hide Index;
  }

  class GfxConsole {
    const framebuffer: array<Pixel>
    const dims: Dims
    const font: Font
    var cursorX: nat
    var cursorY: nat
    var fg: Pixel
    var bg: Pixel
    /** The pixels in the framebuffer, cursor and padding included. */
    ghost var pixels: Picture
    /** The pixels without the cursor. */
    ghost var picture: Picture

    ghost predicate Linked()
      reads this, framebuffer
    {
      dims.Ok() && Holds(framebuffer[..], dims, pixels)
    }

    ghost function Abs(): Console
      reads this
    {
      Console(picture, cursorX, cursorY, fg, bg)
    }

    ghost predicate Valid()
      reads this, framebuffer
    {
      && Linked() && Fits(picture, dims) && Inside(dims, cursorX, cursorY)
      && pixels == Shown(dims, Abs())
    }

    constructor (framebuffer: array<Pixel>, dims: Dims, font: Font, ghost pixels: Picture)
      requires dims.Ok() && Holds(framebuffer[..], dims, pixels)
      ensures Linked() && this.framebuffer == framebuffer && this.dims == dims && this.pixels == pixels
      ensures cursorX == 0 && cursorY == 0 && fg == 0xFF_FFFF && bg == 0
    {
      this.framebuffer, this.dims, this.font := framebuffer, dims, font;
      cursorX, cursorY, fg, bg := 0, 0, 0xFF_FFFF, 0;
      this.pixels := pixels;
      picture := pixels;
    }

    method Store(y: nat, x: nat, v: Pixel)
      requires Linked() && y < dims.height && x < dims.pitch
      modifies framebuffer, this`pixels
      ensures Linked() && Fits(old(pixels), dims) && pixels == SetPixel(old(pixels), y, x, v)
    {
      StoreHolds(framebuffer[..], dims, pixels, y, x, v);
      framebuffer[y * dims.pitch + x] := v;
      pixels := SetPixel(pixels, y, x, v);
    }

    method Load(y: nat, x: nat) returns (v: Pixel)
      requires Linked() && y < dims.height && x < dims.pitch
      ensures Fits(pixels, dims) && v == pixels[y][x]
    {
      StoreHolds(framebuffer[..], dims, pixels, y, x, 0);
      v := framebuffer[y * dims.pitch + x];
    }

    /** gfx_invert_cell */
    method InvertCell(cx: nat, cy: nat)
      requires Linked() && Inside(dims, cx, cy)
      modifies framebuffer, this`pixels
      ensures Linked() && pixels == Invert(dims, old(pixels), cx, cy)
    {
      hide Holds;
      ghost var p := pixels;
      HoldsFits(framebuffer[..], dims, pixels);
      for y := 0 to 16
        invariant Linked() && Fits(pixels, dims)
        invariant forall i, j :: 0 <= i < dims.height && 0 <= j < dims.pitch ==>
          pixels[i][j] == if cy <= i < cy + y && cx <= j < cx + 8 then !p[i][j] else p[i][j]
      {
        InvertRow(cx, cy + y);
      }
      SamePicture(dims, pixels, Invert(dims, p, cx, cy));
    }

    method InvertRow(cx: nat, y: nat)
      requires Linked() && cx + 8 <= dims.width && y < dims.height
      modifies framebuffer, this`pixels
      ensures Linked() && Fits(old(pixels), dims) && Fits(pixels, dims)
      ensures forall i, j :: 0 <= i < dims.height && 0 <= j < dims.pitch ==>
        pixels[i][j] == if i == y && cx <= j < cx + 8 then !old(pixels)[i][j] else old(pixels)[i][j]
    {
      hide Holds;
      ghost var p := pixels;
      HoldsFits(framebuffer[..], dims, pixels);
      for x := 0 to 8
        invariant Linked() && Fits(pixels, dims)
        invariant forall i, j :: 0 <= i < dims.height && 0 <= j < dims.pitch ==>
          pixels[i][j] == if i == y && cx <= j < cx + x then !p[i][j] else p[i][j]
      {
        var v := Load(y, cx + x);
        Store(y, cx + x, !v);
      }
    }

    static lemma HoldsFits(m: seq<Pixel>, d: Dims, p: Picture)
      requires Holds(m, d, p)
      ensures Fits(p, d)
    {
    }

    /** The drawing loops of gfx_putchar: a glyph, or no ink at all. */
    method Draw(rows: seq<bv8>)
      requires Linked() && Inside(dims, cursorX, cursorY) && |rows| == 16
      modifies framebuffer, this`pixels
      ensures Linked() && pixels == DrawCell(dims, old(pixels), cursorX, cursorY, rows, fg, bg)
    {
      hide Holds, Ink;
      ghost var p := pixels;
      HoldsFits(framebuffer[..], dims, pixels);
      for y := 0 to 16
        invariant Linked() && Fits(pixels, dims)
        invariant forall i, j :: 0 <= i < dims.height && 0 <= j < dims.pitch ==>
          pixels[i][j] == if cursorY <= i < cursorY + y && cursorX <= j < cursorX + 8
                          then Ink(rows, i - cursorY, j - cursorX, fg, bg) else p[i][j]
      {
        DrawRow(rows, y);
      }
      SamePicture(dims, pixels, DrawCell(dims, p, cursorX, cursorY, rows, fg, bg));
    }

    method DrawRow(rows: seq<bv8>, y: nat)
      requires Linked() && Inside(dims, cursorX, cursorY) && |rows| == 16 && y < 16
      modifies framebuffer, this`pixels
      ensures Linked() && Fits(old(pixels), dims) && Fits(pixels, dims)
      ensures forall i, j :: 0 <= i < dims.height && 0 <= j < dims.pitch ==>
        pixels[i][j] == if i == cursorY + y && cursorX <= j < cursorX + 8
                        then Ink(rows, y, j - cursorX, fg, bg) else old(pixels)[i][j]
    {
      hide Holds, Ink;
      ghost var p := pixels;
      HoldsFits(framebuffer[..], dims, pixels);
      for x := 0 to 8
        invariant Linked() && Fits(pixels, dims)
        invariant forall i, j :: 0 <= i < dims.height && 0 <= j < dims.pitch ==>
          pixels[i][j] == if i == cursorY + y && cursorX <= j < cursorX + x
                          then Ink(rows, y, j - cursorX, fg, bg) else p[i][j]
      {
        Store(cursorY + y, cursorX + x, Ink(rows, y, x, fg, bg));
      }
    }

    /** gfx_scroll, which copies the visible part of each row. */
    method ScrollUp()
      requires Linked()
      modifies framebuffer, this`pixels
      ensures Linked() && pixels == Scroll(dims, old(pixels), bg)
    {
      hide Holds, Scroll;
      ghost var p := pixels;
      HoldsFits(framebuffer[..], dims, pixels);
      CopyRowsUp();
      ghost var copied := pixels;
      BlankLastRows();
      ScrollIs(dims, p, copied, pixels, bg);
    }

    static lemma ScrollIs(d: Dims, p: Picture, copied: Picture, q: Picture, bg: Pixel)
      requires 16 <= d.height && Fits(p, d) && Fits(copied, d) && Fits(q, d)
      requires forall i, j :: 0 <= i < d.height && 0 <= j < d.pitch ==>
        copied[i][j] == if j < d.width && i < d.height - 16 then p[i + 16][j] else p[i][j]
      requires forall i, j :: 0 <= i < d.height && 0 <= j < d.pitch ==>
        q[i][j] == if j < d.width && i >= d.height - 16 then bg else copied[i][j]
      ensures q == Scroll(d, p, bg)
    {
      hide Scroll;
      var r := Scroll(d, p, bg);
      forall y, x | 0 <= y < d.height && 0 <= x < d.pitch
        ensures q[y][x] == r[y][x]
      {
        assert copied[y][x] == if x < d.width && y < d.height - 16 then p[y + 16][x] else p[y][x];
        ScrollAt(d, p, bg, y, x);
      }
      hide *;
      SamePicture(d, q, r);
    }

    method CopyRowsUp()
      requires Linked()
      modifies framebuffer, this`pixels
      ensures Linked() && Fits(old(pixels), dims) && Fits(pixels, dims)
      ensures forall i, j :: 0 <= i < dims.height && 0 <= j < dims.pitch ==>
        pixels[i][j] == if j < dims.width && i < dims.height - 16 then old(pixels)[i + 16][j] else old(pixels)[i][j]
    {
      hide Holds;
      ghost var p := pixels;
      HoldsFits(framebuffer[..], dims, pixels);
      for y := 0 to dims.height - 16
        invariant Linked() && Fits(pixels, dims)
        invariant forall i, j :: 0 <= i < dims.height && 0 <= j < dims.pitch ==>
          pixels[i][j] == if j < dims.width && i < y then p[i + 16][j] else p[i][j]
      {
        for x := 0 to dims.width
          invariant Linked() && Fits(pixels, dims)
          invariant forall i, j :: 0 <= i < dims.height && 0 <= j < dims.pitch ==>
            pixels[i][j] == if j < dims.width && (i < y || (i == y && j < x)) then p[i + 16][j] else p[i][j]
        {
          var v := Load(y + 16, x);
          Store(y, x, v);
        }
      }
    }

    method BlankLastRows()
      requires Linked()
      modifies framebuffer, this`pixels
      ensures Linked() && Fits(old(pixels), dims) && Fits(pixels, dims)
      ensures forall i, j :: 0 <= i < dims.height && 0 <= j < dims.pitch ==>
        pixels[i][j] == if j < dims.width && i >= dims.height - 16 then bg else old(pixels)[i][j]
    {
      hide Holds;
      ghost var p := pixels;
      HoldsFits(framebuffer[..], dims, pixels);
      for y := dims.height - 16 to dims.height
        invariant Linked() && Fits(pixels, dims)
        invariant forall i, j :: 0 <= i < dims.height && 0 <= j < dims.pitch ==>
          pixels[i][j] == if j < dims.width && dims.height - 16 <= i < y then bg else p[i][j]
      {
        for x := 0 to dims.width
          invariant Linked() && Fits(pixels, dims)
          invariant forall i, j :: 0 <= i < dims.height && 0 <= j < dims.pitch ==>
            pixels[i][j] == if j < dims.width && dims.height - 16 <= i && (i < y || (i == y && j < x)) then bg
                            else p[i][j]
        {
          Store(y, x, bg);
        }
      }
    }

    method EraseAll()
      requires Linked()
      modifies framebuffer, this`pixels
      ensures Linked() && pixels == Erase(dims, old(pixels), bg)
    {
      hide Holds;
      ghost var p := pixels;
      HoldsFits(framebuffer[..], dims, pixels);
      for y := 0 to dims.height
        invariant Linked() && Fits(pixels, dims)
        invariant forall i, j :: 0 <= i < dims.height && 0 <= j < dims.pitch ==>
          pixels[i][j] == if j < dims.width && i < y then bg else p[i][j]
      {
        for x := 0 to dims.width
          invariant Linked() && Fits(pixels, dims)
          invariant forall i, j :: 0 <= i < dims.height && 0 <= j < dims.pitch ==>
            pixels[i][j] == if j < dims.width && (i < y || (i == y && j < x)) then bg else p[i][j]
        {
          Store(y, x, bg);
        }
      }
      SamePicture(dims, pixels, Erase(dims, p, bg));
    }

    /** gfx_clear, from any contents; the picture is then all background. */
    method ClearAll()
      requires Linked()
      modifies framebuffer, this
      ensures Valid() && fg == old(fg) && bg == old(bg)
      ensures picture == Erase(dims, old(pixels), bg) && cursorX == 0 && cursorY == 0
      ensures old(Valid()) ==> Abs() == Step(dims, font, old(Abs()), Clear)
    {
      hide Holds, Erase, Invert, Fits;
      if Fits(picture, dims) && Inside(dims, cursorX, cursorY) {
        EraseShown(dims, Abs());
      }
      EraseAll();
      picture := pixels;
      cursorX, cursorY := 0, 0;
      HoldsFits(framebuffer[..], dims, pixels);
      InvertCell(cursorX, cursorY);
    }

    /** Take the cursor off the screen. */
    method HideCursor()
      requires Valid()
      modifies framebuffer, this`pixels
      ensures Linked() && pixels == picture && Fits(picture, dims)
    {
      hide Holds, Invert;
      InvertCell(cursorX, cursorY);
      InvertTwice(dims, picture, cursorX, cursorY);
    }

    /** The row change of gfx_putchar. */
    method AdvanceRow()
      requires Linked() && pixels == picture
      modifies framebuffer, this`pixels, this`picture, this`cursorX, this`cursorY
      ensures Linked() && pixels == picture && Abs() == NextRow(dims, old(Abs()))
    {
      hide Holds, Scroll;
      cursorX := 0;
      cursorY := cursorY + 16;
      if cursorY + 16 >= dims.height {
        ScrollUp();
        picture := pixels;
      }
    }

    /** gfx_putchar, as long as the cursor cell stays inside. */
    method PutGlyph(c: bv8)
      requires Valid() && HasRoom(dims, cursorX, cursorY, c)
      modifies framebuffer, this
      ensures Valid() && Abs() == Put(dims, font, old(Abs()), c)
    {
      hide Holds, Invert, DrawCell, Scroll, GlyphRows, NextRow;
      HideCursor();
      if c == NEWLINE {
        AdvanceRow();
      } else if c == BACKSPACE {
        if cursorX >= 8 {
          cursorX := cursorX - 8;
        } else if cursorY >= 16 {
          cursorY := cursorY - 16;
          cursorX := dims.width - 8;
        }
        Draw(NO_INK);
        picture := pixels;
      } else {
        Draw(GlyphRows(font, c));
        picture := pixels;
        cursorX := cursorX + 8;
        if cursorX + 8 > dims.width {
          AdvanceRow();
        }
      }
      HoldsFits(framebuffer[..], dims, pixels);
      InvertCell(cursorX, cursorY);
    }

    /** gfx_move_cursor to a cell inside. */
    method MoveTo(x: nat, y: nat)
      requires Valid() && Inside(dims, x, y)
      modifies framebuffer, this
      ensures Valid() && Abs() == Step(dims, font, old(Abs()), MoveCursor(x, y))
      ensures cursorX == x && cursorY == y && picture == old(picture) && fg == old(fg) && bg == old(bg)
    {
      hide Holds, Invert;
      HideCursor();
      cursorX, cursorY := x, y;
      InvertCell(cursorX, cursorY);
    }

    method Colors(f: Pixel, b: Pixel)
      requires Valid()
      modifies this`fg, this`bg
      ensures Valid() && Abs() == Step(dims, font, old(Abs()), SetColor(f, b))
      ensures fg == f && bg == b
    {
      fg, bg := f, b;
    }
  }
}

/** Where text appears on a cleared framebuffer. */
module GfxLayout {
  import opened GfxSpec

  /** Characters put one after the other. */
  function Type(d: Dims, font: Font, s: Console, text: seq<bv8>): Console
    requires d.Ok()
    decreases |text|
  {
    if text == [] then s else Put(d, font, Type(d, font, s, text[..|text| - 1]), text[|text| - 1])
  }

  function Columns(d: Dims): (c: nat)
    requires d.Ok()
    ensures c >= 1 && c * 8 <= d.width < c * 8 + 8
  {
    d.width / 8
  }

  /** One more character in the last row. */
  function Longer(rows: seq<seq<bv8>>, c: bv8): (longer: seq<seq<bv8>>)
    requires rows != []
    ensures |longer| == |rows|
  {
    rows[|rows| - 1 := rows[|rows| - 1] + [c]]
  }

  /** One more character of a text: a newline or a full row begins the next. */
  function Typed(columns: nat, rows: seq<seq<bv8>>, c: bv8): (typed: seq<seq<bv8>>)
    requires rows != []
    ensures |typed| >= |rows|
  {
    if c == NEWLINE then rows + [[]]
    else if |rows[|rows| - 1]| + 1 == columns then Longer(rows, c) + [[]]
    else Longer(rows, c)
  }

  lemma TypedShort(columns: nat, rows: seq<seq<bv8>>, c: bv8)
    requires rows != [] && |rows[|rows| - 1]| < columns
    ensures var typed := Typed(columns, rows, c); |typed[|typed| - 1]| < columns
  {
  }

  /** The character rows of a text. */
  function Lines(columns: nat, text: seq<bv8>): (rows: seq<seq<bv8>>)
    requires columns >= 1
    ensures |rows| >= 1 && |rows[|rows| - 1]| < columns
    decreases |text|
  {
    if text == [] then [[]]
    else
      var before := Lines(columns, text[..|text| - 1]);
      TypedShort(columns, before, text[|text| - 1]);
      Typed(columns, before, text[|text| - 1])
  }

  /** Pixel (y, x) of rows of text on background. */
  function RowPixel(font: Font, rows: seq<seq<bv8>>, y: nat, x: nat, fg: Pixel, bg: Pixel): Pixel {
    if y / 16 < |rows| && x / 8 < |rows[y / 16]|
    then Ink(GlyphRows(font, rows[y / 16][x / 8]), y % 16, x % 8, fg, bg)
    else bg
  }

  /** The picture of rows of text; what is behind the visible part of a row is as in
      base. */
  function Page(d: Dims, font: Font, base: Picture, rows: seq<seq<bv8>>, fg: Pixel, bg: Pixel): (p: Picture)
    ensures Fits(p, d)
  {
    Build(d, (y: nat, x: nat) => if x >= d.width then At(base, y, x) else RowPixel(font, rows, y, x, fg, bg))
  }

  /** The rows on the screen: entering the last row of a height of whole rows scrolls
      the picture although the cursor still has that row for itself, so that a blank
      row comes before the last one. */
  function OnScreen(d: Dims, rows: seq<seq<bv8>>): (shown: seq<seq<bv8>>)
    requires rows != []
    ensures |shown| == |rows| && shown[|rows| - 1] == rows[|rows| - 1]
  {
    var n := |rows|;
    if n >= 2 && 16 * n >= d.height then rows[1..n - 1] + [[]] + [rows[n - 1]] else rows
  }

  lemma PixelOfLonger(font: Font, rows: seq<seq<bv8>>, c: bv8, y: nat, x: nat, fg: Pixel, bg: Pixel)
    requires rows != []
    ensures var r, q := |rows| - 1, |rows[|rows| - 1]|;
      RowPixel(font, Longer(rows, c), y, x, fg, bg) ==
        if InCell(8 * q, 16 * r, y, x) then Ink(GlyphRows(font, c), y - 16 * r, x - 8 * q, fg, bg)
        else RowPixel(font, rows, y, x, fg, bg)
  {
    hide Ink, GlyphRows;
    var r := |rows| - 1;
    if y / 16 == r {
      assert Longer(rows, c)[r] == rows[r] + [c];
    } else if y / 16 < |rows| {
      assert Longer(rows, c)[y / 16] == rows[y / 16];
    }
  }

  /** Drawing a character in the cell behind the last row makes that row longer. */
  lemma DrawLonger(d: Dims, font: Font, base: Picture, rows: seq<seq<bv8>>, c: bv8, fg: Pixel, bg: Pixel)
    requires rows != [] && 8 * |rows[|rows| - 1]| + 8 <= d.width
    ensures var r, q := |rows| - 1, |rows[|rows| - 1]|;
      DrawCell(d, Page(d, font, base, rows, fg, bg), 8 * q, 16 * r, GlyphRows(font, c), fg, bg)
        == Page(d, font, base, Longer(rows, c), fg, bg)
  {
    hide Ink, GlyphRows, RowPixel, Longer;
    var r, q := |rows| - 1, |rows[|rows| - 1]|;
    var drawn := DrawCell(d, Page(d, font, base, rows, fg, bg), 8 * q, 16 * r, GlyphRows(font, c), fg, bg);
    var longer := Page(d, font, base, Longer(rows, c), fg, bg);
    forall y, x | 0 <= y < d.height && 0 <= x < d.pitch
      ensures drawn[y][x] == longer[y][x]
    {
      PixelOfLonger(font, rows, c, y, x, fg, bg);
    }
    SamePicture(d, drawn, longer);
  }

  /** A blank row at the end shows nothing. */
  lemma BlankRow(d: Dims, font: Font, base: Picture, rows: seq<seq<bv8>>, fg: Pixel, bg: Pixel)
    ensures Page(d, font, base, rows + [[]], fg, bg) == Page(d, font, base, rows, fg, bg)
  {
    hide Ink, GlyphRows;
    SamePicture(d, Page(d, font, base, rows + [[]], fg, bg), Page(d, font, base, rows, fg, bg));
  }

  lemma PixelBelow(font: Font, rows: seq<seq<bv8>>, y: nat, x: nat, fg: Pixel, bg: Pixel)
    requires rows != []
    ensures RowPixel(font, rows[1..], y, x, fg, bg) == RowPixel(font, rows, y + 16, x, fg, bg)
    ensures y + 16 >= 16 * |rows| ==> RowPixel(font, rows[1..], y, x, fg, bg) == bg
  {
    hide Ink, GlyphRows;
    assert (y + 16) / 16 == y / 16 + 1 && (y + 16) % 16 == y % 16;
  }

  /** Scrolling a screen of text drops its first row. */
  lemma ScrollDropsFirstRow(d: Dims, font: Font, base: Picture, rows: seq<seq<bv8>>, fg: Pixel, bg: Pixel)
    requires rows != [] && 16 * |rows| <= d.height
    ensures Scroll(d, Page(d, font, base, rows, fg, bg), bg) == Page(d, font, base, rows[1..], fg, bg)
  {
    hide RowPixel, Scroll;
    var page := Page(d, font, base, rows, fg, bg);
    var p, q := Scroll(d, page, bg), Page(d, font, base, rows[1..], fg, bg);
    forall y, x | 0 <= y < d.height && 0 <= x < d.pitch
      ensures p[y][x] == q[y][x]
    {
      ScrollAt(d, page, bg, y, x);
      PixelBelow(font, rows, y, x, fg, bg);
    }
    SamePicture(d, p, q);
  }

  /** What the console shows of the rows. */
  function Screen(d: Dims, font: Font, s: Console, rows: seq<seq<bv8>>): Console
    requires rows != []
  {
    Console(Page(d, font, s.picture, OnScreen(d, rows), s.fg, s.bg),
            8 * |rows[|rows| - 1]|, 16 * (|rows| - 1), s.fg, s.bg)
  }

  /** Beginning a row, which the picture can still hold. */
  lemma RowBegins(d: Dims, font: Font, s: Console, rows: seq<seq<bv8>>)
    requires d.Ok() && rows != [] && 16 * (|rows| + 1) <= d.height
    ensures NextRow(d, Screen(d, font, s, rows)) == Screen(d, font, s, rows + [[]])
  {
    hide Page, Scroll;
    var n := |rows|;
    assert OnScreen(d, rows) == rows;
    BlankRow(d, font, s.picture, rows, s.fg, s.bg);
    if 16 * (n + 1) >= d.height {
      ScrollDropsFirstRow(d, font, s.picture, rows, s.fg, s.bg);
      BlankRow(d, font, s.picture, rows[1..], s.fg, s.bg);
      BlankRow(d, font, s.picture, rows[1..] + [[]], s.fg, s.bg);
      assert (rows + [[]])[1..n] == rows[1..];
    } else {
      assert OnScreen(d, rows + [[]]) == rows + [[]];
    }
  }

  lemma OnScreenLonger(d: Dims, rows: seq<seq<bv8>>, c: bv8)
    requires rows != []
    ensures OnScreen(d, Longer(rows, c)) == Longer(OnScreen(d, rows), c)
  {
  }

  /** A character behind the last row, before a wrap. */
  lemma CharDrawn(d: Dims, font: Font, s: Console, rows: seq<seq<bv8>>, c: bv8)
    requires rows != [] && 8 * |rows[|rows| - 1]| + 8 <= d.width
    ensures var t := Screen(d, font, s, rows);
      Screen(d, font, s, Longer(rows, c)) ==
      t.(picture := DrawCell(d, t.picture, t.cx, t.cy, GlyphRows(font, c), s.fg, s.bg), cx := t.cx + 8)
  {
    hide Page, DrawCell, GlyphRows, OnScreen;
    OnScreenLonger(d, rows, c);
    DrawLonger(d, font, s.picture, OnScreen(d, rows), c, s.fg, s.bg);
  }

  lemma LinesAppend(columns: nat, text: seq<bv8>, c: bv8)
    requires columns >= 1
    ensures Lines(columns, text + [c]) == Typed(columns, Lines(columns, text), c)
  {
    hide Typed;
    assert (text + [c])[..|text|] == text;
  }

  lemma PutGlyphs(d: Dims, font: Font, s: Console, c: bv8)
    requires d.Ok() && c != NEWLINE && c != BACKSPACE
    ensures var s1 := s.(picture := DrawCell(d, s.picture, s.cx, s.cy, GlyphRows(font, c), s.fg, s.bg), cx := s.cx + 8);
      Put(d, font, s, c) == if s.cx + 16 > d.width then NextRow(d, s1) else s1
  {
    hide DrawCell, GlyphRows, NextRow;
  }

  /** One character extends the text. */
  lemma PutExtends(d: Dims, font: Font, s: Console, text: seq<bv8>, c: bv8)
    requires d.Ok() && c != BACKSPACE
    requires 16 * |Lines(Columns(d), text + [c])| <= d.height
    ensures Put(d, font, Screen(d, font, s, Lines(Columns(d), text)), c)
         == Screen(d, font, s, Lines(Columns(d), text + [c]))
  {
    hide Lines, Put, DrawCell, GlyphRows, NextRow, Longer, Page, OnScreen;
    LinesAppend(Columns(d), text, c);
    var rows := Lines(Columns(d), text);
    var t := Screen(d, font, s, rows);
    if c == NEWLINE {
      PutNewline(d, font, t);
      RowBegins(d, font, s, rows);
    } else {
      PutGlyphs(d, font, t, c);
      CharDrawn(d, font, s, rows, c);
      hide Screen;
      if |rows[|rows| - 1]| + 1 == Columns(d) {
        RowBegins(d, font, s, Longer(rows, c));
      }
    }
  }

  lemma PutNewline(d: Dims, font: Font, s: Console)
    requires d.Ok()
    ensures Put(d, font, s, NEWLINE) == NextRow(d, s)
  {
  }

  lemma BlankPage(d: Dims, font: Font, s: Console)
    requires d.Ok() && Fits(s.picture, d)
    ensures Step(d, font, s, Clear) == Screen(d, font, s, [[]])
  {
    SamePicture(d, Erase(d, s.picture, s.bg), Page(d, font, s.picture, [[]], s.fg, s.bg));
  }

  lemma {:induction false} LinesGrow(c: nat, text: seq<bv8>)
    requires c >= 1 && text != []
    ensures |Lines(c, text[..|text| - 1])| <= |Lines(c, text)|
  {
  }

  /** Text on a cleared framebuffer shows as its rows of glyphs, with the cursor behind
      the last of them, as long as the rows fit. */
  lemma {:induction false} TextIsLayout(d: Dims, font: Font, s: Console, text: seq<bv8>)
    requires d.Ok() && Fits(s.picture, d) && NoBackspace(text)
    requires 16 * |Lines(Columns(d), text)| <= d.height
    ensures Type(d, font, Step(d, font, s, Clear), text) == Screen(d, font, s, Lines(Columns(d), text))
    decreases |text|
  {
    hide Screen, Put, Step, Columns;
    if text == [] {
      BlankPage(d, font, s);
    } else {
      var front, last := text[..|text| - 1], text[|text| - 1];
      LinesGrow(Columns(d), text);
      TextIsLayout(d, font, s, front);
      assert text == front + [last];
      PutExtends(d, font, s, front, last);
    }
  }

  /** Pixel (y, x) of the cell of column q and row r of the text on the screen: the bit of
      that character's glyph. The cells behind the end of a row are background. */
  lemma TextPixel(d: Dims, font: Font, s: Console, text: seq<bv8>, r: nat, q: nat, y: nat, x: nat)
    requires d.Ok() && Fits(s.picture, d) && NoBackspace(text)
    requires 16 * |Lines(Columns(d), text)| <= d.height
    requires y < 16 && x < 8 && 16 * r + y < d.height && 8 * q + x < d.width
    ensures var t, rows := Type(d, font, Step(d, font, s, Clear), text), OnScreen(d, Lines(Columns(d), text));
      At(t.picture, 16 * r + y, 8 * q + x) ==
        if r < |rows| && q < |rows[r]| then
          var c := rows[r][q];
          if (font[if 32 <= c <= 126 then c as int - 32 else 0][y] >> (7 - x)) & 1 == 1 then s.fg else s.bg
        else s.bg
  {
    hide *;
    TextRowPixel(d, font, s, text, 16 * r + y, 8 * q + x);
    CellPixel(font, OnScreen(d, Lines(Columns(d), text)), r, q, y, x, s.fg, s.bg);
  }

  lemma TextRowPixel(d: Dims, font: Font, s: Console, text: seq<bv8>, y: nat, x: nat)
    requires d.Ok() && Fits(s.picture, d) && NoBackspace(text)
    requires 16 * |Lines(Columns(d), text)| <= d.height && y < d.height && x < d.width
    ensures At(Type(d, font, Step(d, font, s, Clear), text).picture, y, x) ==
      RowPixel(font, OnScreen(d, Lines(Columns(d), text)), y, x, s.fg, s.bg)
  {
    hide Type, Lines, Columns, Step, OnScreen, RowPixel, At, Page, Fits, NoBackspace;
    TextIsLayout(d, font, s, text);
    PageAt(d, font, s.picture, OnScreen(d, Lines(Columns(d), text)), y, x, s.fg, s.bg);
  }

  lemma PageAt(d: Dims, font: Font, base: Picture, rows: seq<seq<bv8>>, y: nat, x: nat, fg: Pixel, bg: Pixel)
    requires y < d.height && x < d.width <= d.pitch
    ensures At(Page(d, font, base, rows, fg, bg), y, x) == RowPixel(font, rows, y, x, fg, bg)
  {
    hide RowPixel;
  }

  lemma CellPixel(font: Font, rows: seq<seq<bv8>>, r: nat, q: nat, y: nat, x: nat, fg: Pixel, bg: Pixel)
    requires y < 16 && x < 8
    ensures RowPixel(font, rows, 16 * r + y, 8 * q + x, fg, bg) ==
      if r < |rows| && q < |rows[r]| then
        var c := rows[r][q];
        if (font[if 32 <= c <= 126 then c as int - 32 else 0][y] >> (7 - x)) & 1 == 1 then fg else bg
      else bg
  {
    hide GlyphRows, Ink;
    CellOf(r, q, y, x);
    if r < |rows| && q < |rows[r]| {
      GlyphPixel(font, rows[r][q], y, x, fg, bg);
    }
  }

  lemma CellOf(r: nat, q: nat, y: nat, x: nat)
    requires y < 16 && x < 8
    ensures (16 * r + y) / 16 == r && (16 * r + y) % 16 == y
    ensures (8 * q + x) / 8 == q && (8 * q + x) % 8 == x
  {
  }

  // ---------- How many rows a text takes ----------

  /** The column of the cursor after a text without backspace. */
  function Column(d: Dims, cx: nat, text: seq<bv8>): nat
    requires d.Ok()
    decreases |text|
  {
    if text == [] then cx else Column(d, NextX(d, cx, text[0]), text[1..])
  }

  lemma {:induction false} CursorAppend(d: Dims, cx: nat, text: seq<bv8>, c: bv8)
    requires d.Ok()
    ensures Column(d, cx, text + [c]) == NextX(d, Column(d, cx, text), c)
    ensures Rows(d, cx, text + [c]) == Rows(d, cx, text) + Advance(d, Column(d, cx, text), c)
    decreases |text|
  {
    hide NextX, Advance;
    if text == [] {
      assert (text + [c])[1..] == [];
    } else {
      assert (text + [c])[1..] == text[1..] + [c];
      CursorAppend(d, NextX(d, cx, text[0]), text[1..], c);
    }
  }

  lemma {:induction false} RowsAreLines(d: Dims, text: seq<bv8>)
    requires d.Ok() && NoBackspace(text)
    ensures |Lines(Columns(d), text)| == Rows(d, 0, text) + 1
    ensures var rows := Lines(Columns(d), text); Column(d, 0, text) == 8 * |rows[|rows| - 1]|
    decreases |text|
  {
    if text != [] {
      var front, last := text[..|text| - 1], text[|text| - 1];
      assert text == front + [last];
      RowsAreLines(d, front);
      CursorAppend(d, 0, front, last);
    }
  }

  /** The rows of a text fit exactly when typing it keeps the cursor inside. */
  lemma LayoutFits(d: Dims, font: Font, s: Console, text: seq<bv8>)
    requires d.Ok() && NoBackspace(text)
    ensures StaysInside(d, font, Step(d, font, s, Clear), PutChars(text)) <==>
      16 * |Lines(Columns(d), text)| <= d.height
  {
    hide Rows, Lines, Erase;
    RowsAreLines(d, text);
    TextStaysInside(d, font, Step(d, font, s, Clear), text);
  }

  // ---------- Backspace ----------

  /** s with the cell at the cursor blanked. */
  function Blanked(d: Dims, s: Console): Console {
    s.(picture := DrawCell(d, s.picture, s.cx, s.cy, NO_INK, s.fg, s.bg))
  }

  lemma BlankOverGlyph(d: Dims, s: Console, rows: seq<bv8>)
    requires |rows| == 16 && Fits(s.picture, d)
    ensures var drawn := DrawCell(d, s.picture, s.cx, s.cy, rows, s.fg, s.bg);
      DrawCell(d, drawn, s.cx, s.cy, NO_INK, s.fg, s.bg) == DrawCell(d, s.picture, s.cx, s.cy, NO_INK, s.fg, s.bg)
  {
    hide Ink, DrawCell;
    var drawn := DrawCell(d, s.picture, s.cx, s.cy, rows, s.fg, s.bg);
    var p := DrawCell(d, drawn, s.cx, s.cy, NO_INK, s.fg, s.bg);
    var q := DrawCell(d, s.picture, s.cx, s.cy, NO_INK, s.fg, s.bg);
    forall y, x | 0 <= y < d.height && 0 <= x < d.pitch
      ensures p[y][x] == q[y][x]
    {
      DrawAt(d, s.picture, s.cx, s.cy, rows, s.fg, s.bg, y, x);
      DrawAt(d, drawn, s.cx, s.cy, NO_INK, s.fg, s.bg, y, x);
      DrawAt(d, s.picture, s.cx, s.cy, NO_INK, s.fg, s.bg, y, x);
    }
    SamePicture(d, p, q);
  }

  /** Backspace after a character that did not wrap goes back to its cell and leaves
      it blank. */
  lemma BackspaceErases(d: Dims, font: Font, s: Console, c: bv8)
    requires d.Ok() && Fits(s.picture, d) && s.cx + 16 <= d.width && c != NEWLINE && c != BACKSPACE
    ensures Put(d, font, Put(d, font, s, c), BACKSPACE) == Blanked(d, s)
  {
    hide DrawCell, GlyphRows, NextRow, Dims.Ok;
    BlankOverGlyph(d, s, GlyphRows(font, c));
  }

  /** Scrolling with the glyph of c in the cursor cell leaves the visible part outside
      of that cell as it is. */
  predicate ScrollLooksSame(d: Dims, font: Font, s: Console, c: bv8) {
    var drawn := DrawCell(d, s.picture, s.cx, s.cy, GlyphRows(font, c), s.fg, s.bg);
    forall y, x :: 0 <= y < d.height && 0 <= x < d.width && !InCell(s.cx, s.cy, y, x) ==>
      At(Scroll(d, drawn, s.bg), y, x) == At(s.picture, y, x)
  }

  lemma WrapAndBack(d: Dims, font: Font, s: Console, c: bv8)
    requires d.Ok() && Fits(s.picture, d) && Inside(d, s.cx, s.cy) && c != NEWLINE && c != BACKSPACE
    requires s.cx + 16 > d.width && s.cy + 32 <= d.height
    ensures var drawn := DrawCell(d, s.picture, s.cx, s.cy, GlyphRows(font, c), s.fg, s.bg);
      Put(d, font, Put(d, font, s, c), BACKSPACE) ==
      Blanked(d, s.(cx := d.width - 8, picture := if s.cy + 32 < d.height then drawn else Scroll(d, drawn, s.bg)))
  {
    hide DrawCell, GlyphRows, Scroll;
  }

  /** Two pictures with one cell blanked are the same exactly if they agree outside. */
  lemma BlankedSame(d: Dims, p: Picture, q: Picture, cx: nat, cy: nat, fg: Pixel, bg: Pixel)
    requires Fits(p, d) && Fits(q, d)
    ensures DrawCell(d, p, cx, cy, NO_INK, fg, bg) == DrawCell(d, q, cx, cy, NO_INK, fg, bg) <==>
      forall y, x :: 0 <= y < d.height && 0 <= x < d.pitch && !InCell(cx, cy, y, x) ==> At(p, y, x) == At(q, y, x)
  {
    hide Ink, DrawCell;
    var p1, q1 := DrawCell(d, p, cx, cy, NO_INK, fg, bg), DrawCell(d, q, cx, cy, NO_INK, fg, bg);
    forall y, x | 0 <= y < d.height && 0 <= x < d.pitch
      ensures p1[y][x] == q1[y][x] <==> InCell(cx, cy, y, x) || At(p, y, x) == At(q, y, x)
    {
      DrawAt(d, p, cx, cy, NO_INK, fg, bg, y, x);
      DrawAt(d, q, cx, cy, NO_INK, fg, bg, y, x);
    }
    hide At, InCell;
    if forall y, x :: 0 <= y < d.height && 0 <= x < d.pitch ==> p1[y][x] == q1[y][x] {
      SamePicture(d, p1, q1);
    }
  }

  lemma ScrollKeepsPadding(d: Dims, p: Picture, q: Picture, bg: Pixel, y: nat, x: nat)
    requires Fits(p, d) && y < d.height && d.width <= x < d.pitch && At(p, y, x) == At(q, y, x)
    ensures At(Scroll(d, p, bg), y, x) == At(q, y, x)
  {
    ScrollAt(d, p, bg, y, x);
  }

  lemma BlankOverScroll(d: Dims, font: Font, s: Console, c: bv8)
    requires d.Ok() && Fits(s.picture, d) && Inside(d, s.cx, s.cy)
    ensures var drawn := DrawCell(d, s.picture, s.cx, s.cy, GlyphRows(font, c), s.fg, s.bg);
      ScrollLooksSame(d, font, s, c) <==>
        DrawCell(d, Scroll(d, drawn, s.bg), s.cx, s.cy, NO_INK, s.fg, s.bg)
          == DrawCell(d, s.picture, s.cx, s.cy, NO_INK, s.fg, s.bg)
  {
    hide Ink, GlyphRows, DrawCell, Scroll, At;
    var drawn := DrawCell(d, s.picture, s.cx, s.cy, GlyphRows(font, c), s.fg, s.bg);
    var scrolled := Scroll(d, drawn, s.bg);
    forall y, x | 0 <= y < d.height && d.width <= x < d.pitch
      ensures At(scrolled, y, x) == At(s.picture, y, x)
    {
      DrawAt(d, s.picture, s.cx, s.cy, GlyphRows(font, c), s.fg, s.bg, y, x);
      ScrollKeepsPadding(d, drawn, s.picture, s.bg, y, x);
    }
    BlankedSame(d, scrolled, s.picture, s.cx, s.cy, s.fg, s.bg);
  }

  /** Backspace takes back a character that wrapped exactly when its cell ends at the
      right edge and the wrap did not scroll, unless the scroll cannot be seen. */
  lemma BackspaceAfterWrap(d: Dims, font: Font, s: Console, c: bv8)
    requires d.Ok() && Fits(s.picture, d) && Inside(d, s.cx, s.cy) && c != NEWLINE && c != BACKSPACE
    requires s.cx + 16 > d.width && s.cy + 32 <= d.height
    ensures Put(d, font, Put(d, font, s, c), BACKSPACE) == Blanked(d, s) <==>
      s.cx + 8 == d.width && (s.cy + 32 < d.height || ScrollLooksSame(d, font, s, c))
  {
    hide Put, DrawCell, GlyphRows, Scroll, ScrollLooksSame;
    WrapAndBack(d, font, s, c);
    BlankOverGlyph(d, s, GlyphRows(font, c));
    BlankOverScroll(d, font, s, c);
  }

  /** What is then left of the glyph: after a scroll all of it, 16 pixel rows higher;
      otherwise the columns before the last 8. */
  lemma GlyphRemains(d: Dims, font: Font, s: Console, c: bv8, y: nat, x: nat)
    requires d.Ok() && Fits(s.picture, d) && Inside(d, s.cx, s.cy) && c != NEWLINE && c != BACKSPACE
    requires s.cx + 16 > d.width && s.cy + 32 <= d.height && y < 16 && x < 8
    ensures var t := Put(d, font, Put(d, font, s, c), BACKSPACE);
      var ink := Ink(GlyphRows(font, c), y, x, s.fg, s.bg);
      && (s.cy + 32 == d.height && s.cy + y >= 16 ==> At(t.picture, s.cy + y - 16, s.cx + x) == ink)
      && (s.cy + 32 < d.height && s.cx + x + 8 < d.width ==> At(t.picture, s.cy + y, s.cx + x) == ink)
  {
    hide Put, GlyphRows, Ink, DrawCell, Scroll, At;
    WrapAndBack(d, font, s, c);
    var rows := GlyphRows(font, c);
    var drawn := DrawCell(d, s.picture, s.cx, s.cy, rows, s.fg, s.bg);
    var scrolled := Scroll(d, drawn, s.bg);
    DrawAt(d, s.picture, s.cx, s.cy, rows, s.fg, s.bg, s.cy + y, s.cx + x);
    if s.cy + 32 < d.height {
      DrawAt(d, drawn, d.width - 8, s.cy, NO_INK, s.fg, s.bg, s.cy + y, s.cx + x);
    } else if s.cy + y >= 16 {
      DrawAt(d, scrolled, d.width - 8, s.cy, NO_INK, s.fg, s.bg, s.cy + y - 16, s.cx + x);
      ScrollAt(d, drawn, s.bg, s.cy + y - 16, s.cx + x);
    }
  }
}
