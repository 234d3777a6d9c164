/** From scancodes to keys, as Keyboard::handle_interrupt decodes them. */
module Scancodes {
  import opened EditorSpec

  datatype Mods = Mods(shift: bool, caps: bool, extended: bool)

  /** scancode_to_ascii, by the rows of the keyboard. */
  const ROW0: seq<char> :=
    ['\0', '\0', '1', '2', '3', '4', '5', '6', '7', '8', '9', '0', '-', '=', '\U{08}']
  const ROW1: seq<char> := ['\t', 'q', 'w', 'e', 'r', 't', 'y', 'u', 'i', 'o', 'p', '[', ']', '\n']
  const ROW2: seq<char> := ['\0', 'a', 's', 'd', 'f', 'g', 'h', 'j', 'k', 'l', ';', '\'', '`']
  const ROW3: seq<char> := ['\0', '\\', 'z', 'x', 'c', 'v', 'b', 'n', 'm', ',', '.', '/', '\0', '*', '\0', ' ']

  const BACKSPACE: char := '\U{08}'

  function Ascii(scancode: nat): char {
    if scancode < 0x0F then ROW0[scancode]
    else if scancode < 0x1D then ROW1[scancode - 0x0F]
    else if scancode < 0x2A then ROW2[scancode - 0x1D]
    else if scancode < 0x3A then ROW3[scancode - 0x2A]
    else if scancode == 0x51 then '-'
    else if scancode == 0x55 then '+'
    else NUL
  }

  function Shifted(c: char): char {
    match c
    case '1' => '!' case '2' => '@' case '3' => '#' case '4' => '$' case '5' => '%'
    case '6' => '^' case '7' => '&' case '8' => '*' case '9' => '(' case '0' => ')'
    case '-' => '_' case '=' => '+' case '[' => '{' case ']' => '}' case '\\' => '|'
    case ';' => ':' case '\'' => '"' case ',' => '<' case '.' => '>' case '/' => '?' case '`' => '~'
    case _ => c
  }

  function Cased(m: Mods, c: char): char {
    if 'a' <= c <= 'z' then
      if m.shift != m.caps then (c as int - 32) as char else c
    else if m.shift then Shifted(c)
    else c
  }

  function ExtendedKey(scancode: nat): Key {
    if scancode == 0x48 then Up
    else if scancode == 0x50 then Down
    else if scancode == 0x4B then Left
    else if scancode == 0x4D then Right
    else if scancode == 0x47 then Home
    else if scancode == 0x4F then End
    else if scancode == 0x53 then Delete
    else Ignored
  }

  function PlainKey(m: Mods, scancode: nat): Key {
    var c := Ascii(scancode);
    if c == NUL then Ignored
    else
      var d := Cased(m, c);
      if d == '\n' then Enter else if d == BACKSPACE then Backspace else Char(d)
  }

  /** The modifiers after a scancode, and the key it stands for. */
  function Decode(m: Mods, scancode: nat): (Mods, Key) {
    if scancode == 0xE0 then (m.(extended := true), Ignored)
    else if scancode >= 0x80 then
      (m.(shift := m.shift && scancode != 0xAA && scancode != 0xB6, extended := false), Ignored)
    else if m.extended then (m.(extended := false), ExtendedKey(scancode))
    else if scancode == 0x2A || scancode == 0x36 then (m.(shift := true), Ignored)
    else if scancode == 0x3A then (m.(caps := !m.caps), Ignored)
    else (m, PlainKey(m, scancode))
  }

  /** Scancode s types small, or capital if exactly one of shift and caps lock is on. */
  predicate Letter(m: Mods, s: nat, small: char, capital: char) {
    Decode(m, s) == (m, Char(if m.shift != m.caps then capital else small))
  }

  /** Scancode s types plain, or shifted if shift is on; caps lock does not matter. */
  predicate Sign(m: Mods, s: nat, plain: char, shifted: char) {
    Decode(m, s) == (m, Char(if m.shift then shifted else plain))
  }

  lemma DigitsTyped(m: Mods)
    requires !m.extended
    ensures Sign(m, 0x02, '1', '!') && Sign(m, 0x03, '2', '@') && Sign(m, 0x04, '3', '#') && Sign(m, 0x05, '4', '$')
    ensures Sign(m, 0x06, '5', '%') && Sign(m, 0x07, '6', '^') && Sign(m, 0x08, '7', '&') && Sign(m, 0x09, '8', '*')
    ensures Sign(m, 0x0A, '9', '(') && Sign(m, 0x0B, '0', ')')
  {
  }

  lemma TopLetters(m: Mods)
    requires !m.extended
    ensures Letter(m, 0x10, 'q', 'Q') && Letter(m, 0x11, 'w', 'W') && Letter(m, 0x12, 'e', 'E')
    ensures Letter(m, 0x13, 'r', 'R') && Letter(m, 0x14, 't', 'T') && Letter(m, 0x15, 'y', 'Y')
    ensures Letter(m, 0x16, 'u', 'U') && Letter(m, 0x17, 'i', 'I') && Letter(m, 0x18, 'o', 'O')
    ensures Letter(m, 0x19, 'p', 'P')
  {
  }

  lemma HomeLetters(m: Mods)
    requires !m.extended
    ensures Letter(m, 0x1E, 'a', 'A') && Letter(m, 0x1F, 's', 'S') && Letter(m, 0x20, 'd', 'D')
    ensures Letter(m, 0x21, 'f', 'F') && Letter(m, 0x22, 'g', 'G') && Letter(m, 0x23, 'h', 'H')
    ensures Letter(m, 0x24, 'j', 'J') && Letter(m, 0x25, 'k', 'K') && Letter(m, 0x26, 'l', 'L')
  {
  }

  lemma BottomLetters(m: Mods)
    requires !m.extended
    ensures Letter(m, 0x2C, 'z', 'Z') && Letter(m, 0x2D, 'x', 'X') && Letter(m, 0x2E, 'c', 'C')
    ensures Letter(m, 0x2F, 'v', 'V') && Letter(m, 0x30, 'b', 'B') && Letter(m, 0x31, 'n', 'N')
    ensures Letter(m, 0x32, 'm', 'M')
  {
  }

  lemma SignsTyped(m: Mods)
    requires !m.extended
    ensures Sign(m, 0x0C, '-', '_') && Sign(m, 0x0D, '=', '+') && Sign(m, 0x1A, '[', '{') && Sign(m, 0x1B, ']', '}')
    ensures Sign(m, 0x27, ';', ':') && Sign(m, 0x28, '\'', '"') && Sign(m, 0x29, '`', '~') && Sign(m, 0x2B, '\\', '|')
    ensures Sign(m, 0x33, ',', '<') && Sign(m, 0x34, '.', '>') && Sign(m, 0x35, '/', '?')
  {
  }

  /** Enter, Backspace, tab, blank and three keys of the keypad; every other scancode
      below 0x80 that is no modifier is ignored. */
  lemma OtherKeys(m: Mods, s: nat)
    requires !m.extended && s < 0x80
    ensures Decode(m, 0x1C) == (m, Enter) && Decode(m, 0x0E) == (m, Backspace) && Sign(m, 0x0F, '\t', '\t')
    ensures Sign(m, 0x39, ' ', ' ') && Sign(m, 0x37, '*', '*') && Sign(m, 0x51, '-', '_')
    ensures Sign(m, 0x55, '+', '+')
    ensures s in {0x00, 0x01, 0x1D, 0x38} || 0x3B <= s < 0x51 || 0x52 <= s < 0x55 || 0x56 <= s ==>
      Decode(m, s) == (m, Ignored)
  {
  }

  /** A press or release of shift and a press of caps lock change that modifier only, any
      other release and any other press that no 0xE0 precedes change none. A release is
      no key, and ends what an 0xE0 announced. */
  lemma ModifierKeys(m: Mods, s: nat)
    requires s < 0x80
    ensures !m.extended && s in {0x2A, 0x36} ==> Decode(m, s) == (Mods(true, m.caps, false), Ignored)
    ensures !m.extended && s == 0x3A ==> Decode(m, s) == (Mods(m.shift, !m.caps, false), Ignored)
    ensures !m.extended && s !in {0x2A, 0x36, 0x3A} ==> Decode(m, s).0 == m
    ensures s in {0x2A, 0x36} ==> Decode(m, s + 0x80) == (Mods(false, m.caps, false), Ignored)
    ensures s !in {0x2A, 0x36, 0x60} ==> Decode(m, s + 0x80) == (Mods(m.shift, m.caps, false), Ignored)
  {
  }

  /** 0xE0 announces one scancode, which is an arrow, Home, End, Delete or nothing and
      changes neither shift nor caps lock. */
  lemma PrefixedKeys(m: Mods, s: nat)
    requires m.extended && s < 0x80
    ensures Decode(m.(extended := false), 0xE0) == (m, Ignored) && Decode(m, 0xE0) == (m, Ignored)
    ensures Decode(m, s).0 == Mods(m.shift, m.caps, false)
    ensures Decode(m, 0x48).1 == Up && Decode(m, 0x50).1 == Down && Decode(m, 0x4B).1 == Left
    ensures Decode(m, 0x4D).1 == Right && Decode(m, 0x47).1 == Home && Decode(m, 0x4F).1 == End
    ensures Decode(m, 0x53).1 == Delete
    ensures s !in {0x48, 0x50, 0x4B, 0x4D, 0x47, 0x4F, 0x53} ==> Decode(m, s).1 == Ignored
  {
  }

  /** No key types NUL, whatever the modifiers. */
  lemma KeysAreVisible(m: Mods, scancode: nat)
    ensures Decode(m, scancode).1.Char? ==> Decode(m, scancode).1.c != NUL
  {
  }
}

/** Sessions as the keyboard controller delivers them. */
module ScancodeRuns {
  import opened EditorSpec
  import opened EditorProperties
  import opened EditorRuns
  import opened Scancodes

  /** The keys that a sequence of scancodes stands for. */
  function Keys(m: Mods, scancodes: seq<nat>): seq<Key>
    decreases |scancodes|
  {
    if scancodes == [] then []
    else
      var (m', k) := Decode(m, scancodes[0]);
      [k] + Keys(m', scancodes[1..])
  }

  /** 0xE0 and a scancode are one key, whatever follows is decoded as without them. */
  lemma PrefixedPair(m: Mods, s: nat, rest: seq<nat>)
    requires s < 0x80
    ensures Keys(m, [0xE0, s] + rest) ==
      [Ignored,
       if s == 0x48 then Up else if s == 0x50 then Down else if s == 0x4B then Left else if s == 0x4D then Right
       else if s == 0x47 then Home else if s == 0x4F then End else if s == 0x53 then Delete else Ignored]
      + Keys(Mods(m.shift, m.caps, false), rest)
  {
    var both := [0xE0, s] + rest;
    assert both[1..] == [s] + rest && (both[1..])[1..] == rest;
  }

  /** The scancodes lead from s to s', each key with room. */
  ghost predicate Receives(s: Session, m: Mods, scancodes: seq<nat>, s': Session)
    requires Inv(s.editor)
    decreases |scancodes|
  {
    if scancodes == [] then s' == s
    else
      var (m', k) := Decode(m, scancodes[0]);
      KeysAreVisible(m, scancodes[0]);
      Room(s.editor, k) && (PressInv(s, k); Receives(Press(s, k), m', scancodes[1..], s'))
  }

  lemma {:induction false} ReceivesReaches(s: Session, m: Mods, scancodes: seq<nat>, s': Session)
    requires Inv(s.editor) && Receives(s, m, scancodes, s')
    ensures Reaches(s, Keys(m, scancodes), s')
    decreases |scancodes|
  {
    if scancodes != [] {
      KeysAreVisible(m, scancodes[0]);
      var (m', k) := Decode(m, scancodes[0]);
      hide Decode, Press, Inv;
      PressInv(s, k);
      ReceivesReaches(Press(s, k), m', scancodes[1..], s');
      assert Keys(m, scancodes)[1..] == Keys(m', scancodes[1..]);
    }
  }

  /** Enter and Up, as scancodes, submit the line and show it again. */
  lemma SubmittedLineShown(s: Session, m: Mods, s': Session)
    requires Inv(s.editor) && !m.extended && Before(s.editor) != []
    requires Receives(s, m, [0x1C, 0xE0, 0x48], s')
    ensures Inv(s'.editor) && Before(s'.editor) == Before(s.editor) && s'.log == s.log + [Before(s.editor)]
  {
    OtherKeys(m, 0);
    ReceivesReaches(s, m, [0x1C, 0xE0, 0x48], s');
    var ext := m.(extended := true);
    assert Keys(ext, [0x48]) == [Up] && Keys(m, [0xE0, 0x48])[0] == Ignored;
    hide Decode, Receives;
    EnterIgnoredUp(s, s', Keys(m, [0x1C, 0xE0, 0x48]));
  }

  lemma EnterIgnoredUp(s: Session, s': Session, keys: seq<Key>)
    requires Inv(s.editor) && keys == [Enter, Ignored, Up] && Reaches(s, keys, s') && Before(s.editor) != []
    ensures Inv(s'.editor) && Before(s'.editor) == Before(s.editor) && s'.log == s.log + [Before(s.editor)]
  {
    ReachesOne(s, Enter, [Ignored, Up], s');
    ReachesOne(Press(s, Enter), Ignored, [Up], s');
    ReachesOne(Press(Press(s, Enter), Ignored), Up, [], s');
    EnterRemembers(s.editor);
    EnterThenUp(s.editor);
    hide Inv, Entries, Before, Room, KeyEnter, KeyUp;
  }

  lemma ReachesOne(s: Session, k: Key, rest: seq<Key>, s': Session)
    requires Inv(s.editor) && Reaches(s, [k] + rest, s')
    ensures Room(s.editor, k) && Inv(Press(s, k).editor) && Reaches(Press(s, k), rest, s')
    ensures rest == [] ==> s' == Press(s, k)
  {
    hide Press, Inv, Room;
    assert ([k] + rest)[1..] == rest;
    PressInv(s, k);
  }

  /** For every sequence of scancodes, from any state of the modifiers, the history is
      the last ten entries of the collapsed submission log. */
  lemma HistoryOfScancodes(m: Mods, scancodes: seq<nat>, s: Session)
    requires Receives(Start(), m, scancodes, s)
    ensures Inv(s.editor)
    ensures Entries(s.editor) == LastN(Collapse(s.log), 10)
  {
    ReceivesReaches(Start(), m, scancodes, s);
    HistoryIsLogTail(Keys(m, scancodes), s);
  }
}

/** The keyboard object of src/kernel/keyboard.cpp. */
module Keyboards {
  import opened EditorSpec
  import opened EditorProperties
  import opened Scancodes

  class Keyboard {
    const inputBuffer: array<char>
    const history: array<char>
    const savedInput: array<char>
    var inputPos: nat
    var historyCount: nat
    var historyIndex: int
    var shiftPressed: bool
    var capsLock: bool
    var extended: bool

    function Abs(): Editor
      reads this, inputBuffer, history, savedInput
    {
      Editor(inputBuffer[..], inputPos, history[..], historyCount, historyIndex, savedInput[..])
    }

    function Modifiers(): Mods
      reads this
    {
      Mods(shiftPressed, capsLock, extended)
    }

    ghost predicate Distinct() {
      && inputBuffer != history && inputBuffer != savedInput && history != savedInput
      && inputBuffer.Length == SIZE && savedInput.Length == SIZE && history.Length == MAX_HISTORY * SIZE
    }

    ghost predicate Valid()
      reads this, inputBuffer, history, savedInput
    {
      Distinct() && Inv(Abs())
    }

    constructor ()
      ensures Valid() && fresh(inputBuffer) && fresh(history) && fresh(savedInput)
      ensures Abs() == Editor(seq(SIZE, _ => NUL), 0, seq(MAX_HISTORY * SIZE, _ => NUL), 0, -1, seq(SIZE, _ => NUL))
      ensures Modifiers() == Mods(false, false, false)
    {
      inputBuffer := new char[SIZE](_ => NUL);
      history := new char[MAX_HISTORY * SIZE](_ => NUL);
      savedInput := new char[SIZE](_ => NUL);
      inputPos, historyCount, historyIndex := 0, 0, -1;
      shiftPressed, capsLock, extended := false, false, false;
      new;
      assert savedInput[..][0] == NUL;
      assert inputBuffer[..] == seq(SIZE, _ => NUL);
      assert history[..] == seq(MAX_HISTORY * SIZE, _ => NUL);
      assert savedInput[..] == seq(SIZE, _ => NUL);
    }

    /** handle_interrupt for one scancode. */
    method HandleInterrupt(scancode: nat)
      requires Valid() && scancode < 0x100
      requires Room(Abs(), Decode(Modifiers(), scancode).1)
      modifies this, inputBuffer, history, savedInput
      ensures Valid()
      ensures Modifiers() == Decode(old(Modifiers()), scancode).0
      ensures Abs() == Apply(old(Abs()), Decode(old(Modifiers()), scancode).1)
    {
      hide Inv, Row, NextNul;
      if scancode == 0xE0 {
        extended := true;
        return;
      }
      if scancode >= 0x80 {
        var released := scancode - 0x80;
        if released == 0x2A || released == 0x36 {
          shiftPressed := false;
        }
        extended := false;
        return;
      }
      if extended {
        ExtendedInterrupt(scancode);
        extended := false;
        return;
      }
      if scancode == 0x2A || scancode == 0x36 {
        shiftPressed := true;
        return;
      }
      if scancode == 0x3A {
        capsLock := !capsLock;
        return;
      }
      var ascii := Ascii(scancode);
      if ascii == NUL {
        return;
      }
      ascii := Cased(Modifiers(), ascii);
      KeysAreVisible(Modifiers(), scancode);
      if ascii == '\n' {
        PressEnter();
      } else if ascii == BACKSPACE {
        PressBackspace();
      } else {
        PressChar(ascii);
      }
    }

    method ExtendedInterrupt(scancode: nat)
      requires Valid()
      modifies this`inputPos, this`historyIndex, inputBuffer, savedInput
      ensures Valid() && Abs() == Apply(old(Abs()), ExtendedKey(scancode))
    {
      ghost var before := Abs();
      ApplyInv(before, ExtendedKey(scancode));
      hide Inv, Row, NextNul;
      if scancode == 0x48 {
        PressUp();
      } else if scancode == 0x50 {
        PressDown();
      } else if scancode == 0x4B {
        if inputPos > 0 {
          inputPos := inputPos - 1;
        }
      } else if scancode == 0x4D {
        PressRight();
      } else if scancode == 0x47 {
        inputPos := 0;
      } else if scancode == 0x4F {
        PressEnd();
      } else if scancode == 0x53 {
        PressDelete();
      }
    }

    method PressRight()
      requires Valid()
      modifies this`inputPos
      ensures Valid() && Abs() == Apply(old(Abs()), Right)
    {
      ApplyInv(Abs(), Right);
      if inputPos < SIZE - 1 && inputBuffer[inputPos] != NUL {
        inputPos := inputPos + 1;
      }
    }

    method PressEnd()
      requires Valid()
      modifies this`inputPos
      ensures Valid() && Abs() == Apply(old(Abs()), End)
    {
      ApplyInv(Abs(), End);
      NulAhead(Abs(), inputPos);
      ghost var n := NextNul(inputBuffer[..], inputPos);
      hide NextNul;
      while inputBuffer[inputPos] != NUL && inputPos < SIZE - 1
        invariant old(inputPos) <= inputPos <= n < SIZE
        invariant n == NextNul(inputBuffer[..], old(inputPos))
        decreases SIZE - inputPos
      {
        inputPos := inputPos + 1;
      }
    }

    method PressDelete()
      requires Valid()
      modifies inputBuffer
      ensures Valid() && Abs() == Apply(old(Abs()), Delete)
    {
      ApplyInv(Abs(), Delete);
      NulAhead(Abs(), inputPos);
      if inputBuffer[inputPos] != NUL {
        CloseGap();
      }
    }

    /** The loop of Delete, which starts at the character to remove. */
    method CloseGap()
      requires Distinct() && inputPos < SIZE && inputBuffer[inputPos] != NUL
      requires NextNul(inputBuffer[..], inputPos) < SIZE
      modifies inputBuffer
      ensures inputBuffer[..] == RemoveAt(old(inputBuffer[..]), inputPos)
    {
      ghost var b := inputBuffer[..];
      ghost var n := NextNul(b, inputPos);
      assert b[inputPos] != NUL;
      hide NextNul, RemoveAt;
      var i := inputPos;
      while inputBuffer[i] != NUL
        invariant inputPos <= i <= n < SIZE
        invariant forall k :: 0 <= k < inputPos || i <= k < SIZE ==> inputBuffer[k] == b[k]
        invariant forall k :: inputPos <= k < i ==> inputBuffer[k] == b[k + 1]
        decreases n - i
      {
        inputBuffer[i] := inputBuffer[i + 1];
        i := i + 1;
      }
      RemoveAtIs(b, inputPos, inputBuffer[..]);
    }

    method PressBackspace()
      requires Valid()
      modifies this`inputPos, inputBuffer
      ensures Valid() && Abs() == Apply(old(Abs()), Backspace)
    {
      ApplyInv(Abs(), Backspace);
      if inputPos > 0 {
        NulAhead(Abs(), inputPos - 1);
        ShiftBack(inputPos - 1);
        inputPos := inputPos - 1;
      }
    }

    /** The loop of Backspace, which starts at the character to remove. */
    method ShiftBack(p: nat)
      requires Distinct() && p < SIZE && inputBuffer[p] != NUL && NextNul(inputBuffer[..], p) < SIZE
      modifies inputBuffer
      ensures inputBuffer[..] == RemoveAt(old(inputBuffer[..]), p)
    {
      ghost var b := inputBuffer[..];
      ghost var n := NextNul(b, p);
      assert b[p] != NUL;
      hide NextNul, RemoveAt;
      var i := p;
      while i < SIZE - 1
        invariant p <= i < n < SIZE
        invariant forall k :: 0 <= k < p || i <= k < SIZE ==> inputBuffer[k] == b[k]
        invariant forall k :: p <= k < i ==> inputBuffer[k] == b[k + 1]
        decreases n - i
      {
        inputBuffer[i] := inputBuffer[i + 1];
        if inputBuffer[i] == NUL {
          break;
        }
        i := i + 1;
      }
      RemoveAtIs(b, p, inputBuffer[..]);
    }

    method PressChar(c: char)
      requires Valid() && Room(Abs(), Char(c)) && c != NUL
      modifies this`inputPos, inputBuffer
      ensures Valid() && Abs() == Apply(old(Abs()), Char(c))
    {
      ApplyInv(Abs(), Char(c));
      if inputPos < SIZE - 1 {
        if inputBuffer[inputPos] != NUL {
          OpenGap(c);
        } else {
          inputBuffer[inputPos] := c;
        }
        inputPos := inputPos + 1;
      }
    }

    /** Move the text behind the cursor one place and store c in the gap. */
    method OpenGap(c: char)
      requires Distinct() && inputPos < SIZE && inputBuffer[inputPos] != NUL
      requires NextNul(inputBuffer[..], inputPos) <= SIZE - 2
      modifies inputBuffer
      ensures inputBuffer[..] == InsertAt(old(inputBuffer[..]), inputPos, c)
    {
      hide InsertAt;
      ghost var b := inputBuffer[..];
      ghost var n := NextNul(b, inputPos);
      var len := inputPos;
      while inputBuffer[len] != NUL
        invariant inputPos <= len <= n
        decreases n - len
      {
        len := len + 1;
      }
      assert len == n by {
        assert b[len] == NUL;
      }
      var i := len + 1;
      while i > inputPos
        invariant inputPos <= i <= n + 1
        invariant forall k :: 0 <= k <= i || n + 1 < k < SIZE ==> inputBuffer[k] == b[k]
        invariant forall k :: i < k <= n + 1 ==> inputBuffer[k] == b[k - 1]
      {
        inputBuffer[i] := inputBuffer[i - 1];
        i := i - 1;
      }
      inputBuffer[inputPos] := c;
      InsertAtIs(b, inputPos, c, inputBuffer[..]);
    }

    /** Length of the C string at base in a 256-byte slot. */
    method Length(a: array<char>, base: nat) returns (len: nat)
      requires base + SIZE <= a.Length && Terminated(a[base..base + SIZE])
      ensures len < SIZE && CStr(a[base..base + SIZE], 0) == a[base..base + len]
    {
      ghost var slot := a[base..base + SIZE];
      CStrShort(slot);
      ghost var n := NextNul(slot, 0);
      hide NextNul;
      len := 0;
      while a[base + len] != NUL
        invariant len <= n < SIZE && slot == a[base..base + SIZE]
        decreases n - len
      {
        assert slot[len] == a[base + len];
        len := len + 1;
      }
      assert slot[len] == NUL;
    }

    /** Show the C string at base: copy it over the start of the buffer. */
    method ShowText(a: array<char>, base: nat)
      requires Distinct() && a != inputBuffer
      requires base + SIZE <= a.Length && Terminated(a[base..base + SIZE])
      modifies this`inputPos, inputBuffer
      ensures Abs() == Show(old(Abs()), CStr(old(a[base..base + SIZE]), 0))
    {
      var len := Length(a, base);
      hide NextNul;
      ghost var b := inputBuffer[..];
      for i := 0 to len
        invariant forall k :: 0 <= k < i ==> inputBuffer[k] == a[base + k]
        invariant forall k :: i <= k < SIZE ==> inputBuffer[k] == b[k]
      {
        inputBuffer[i] := a[base + i];
      }
      assert inputBuffer[..] == Overlay(b, a[base..base + len]);
      inputPos := len;
    }

    /** Save the text before the cursor. */
    method SaveLine()
      requires Distinct() && inputPos < SIZE
      modifies savedInput
      ensures savedInput[..] == Overlay(old(savedInput[..]), inputBuffer[..inputPos] + [NUL])
    {
      ghost var s := savedInput[..];
      for i := 0 to inputPos
        invariant forall k :: 0 <= k < i ==> savedInput[k] == inputBuffer[k]
        invariant forall k :: i <= k < SIZE ==> savedInput[k] == s[k]
      {
        savedInput[i] := inputBuffer[i];
      }
      savedInput[inputPos] := NUL;
      assert savedInput[inputPos + 1..] == s[inputPos + 1..];
      assert savedInput[..] == inputBuffer[..inputPos] + [NUL] + savedInput[inputPos + 1..];
    }

    /** Show the entry at historyIndex. */
    method ShowEntry()
      requires Distinct() && 0 <= historyIndex < MAX_HISTORY && Terminated(Row(history[..], historyIndex))
      modifies this`inputPos, inputBuffer
      ensures Abs() == Show(old(Abs()), Entry(old(Abs()), historyIndex))
    {
      assert history[SIZE * historyIndex..SIZE * historyIndex + SIZE] == Row(history[..], historyIndex);
      ShowText(history, SIZE * historyIndex);
    }

    method PressUp()
      requires Valid()
      modifies this`inputPos, this`historyIndex, inputBuffer, savedInput
      ensures Valid() && Abs() == Apply(old(Abs()), Up)
    {
      ApplyInv(Abs(), Up);
      if historyCount > 0 {
        if historyIndex == -1 {
          SaveLine();
          historyIndex := historyCount - 1;
        } else if historyIndex > 0 {
          historyIndex := historyIndex - 1;
        }
        assert Terminated(Row(history[..], historyIndex));
        hide Inv, Terminated, Row, CStr, Overlay;
        ShowEntry();
      }
    }

    method PressDown()
      requires Valid()
      modifies this`inputPos, this`historyIndex, inputBuffer
      ensures Valid() && Abs() == Apply(old(Abs()), Down)
    {
      ApplyInv(Abs(), Down);
      if historyIndex != -1 {
        if historyIndex < historyCount - 1 {
          historyIndex := historyIndex + 1;
          assert Terminated(Row(history[..], historyIndex));
          hide Inv, Terminated, Row, CStr, Overlay;
          ShowEntry();
        } else {
          historyIndex := -1;
          assert savedInput[0..0 + SIZE] == savedInput[..];
          ShowText(savedInput, 0);
        }
      }
    }

    method PressEnter()
      requires Valid()
      modifies this`inputPos, this`historyCount, this`historyIndex, inputBuffer, history
      ensures Valid() && Abs() == Apply(old(Abs()), Enter)
    {
      ghost var e, line := Abs(), inputBuffer[..inputPos];
      EnterState(e);
      hide Inv, Row, Terminated, Remember;
      inputBuffer[inputPos] := NUL;
      assert Abs() == e.(buf := e.buf[e.pos := NUL]);
      assert inputBuffer[..inputPos] == line;
      if inputPos > 0 {
        RememberLine(line);
      }
      inputPos := 0;
      historyIndex := -1;
    }

    /** The history part of Enter; line is the C string in the buffer. */
    method RememberLine(ghost line: seq<char>)
      requires Valid() && |line| < SIZE && line == inputBuffer[..|line|] && inputBuffer[|line|] == NUL && Plain(line)
      modifies this`historyCount, history
      ensures Distinct() && Abs() == Remember(old(Abs()), line)
    {
      hide StoreRow, ShiftRows, CStr, Row, Terminated;
      var duplicate := false;
      if historyCount > 0 {
        duplicate := SameAsLast(line);
      }
      if !duplicate {
        if historyCount < MAX_HISTORY {
          historyCount := historyCount + 1;
          CopyLine(historyCount - 1, line);
        } else {
          ShiftHistory();
          CopyLine(MAX_HISTORY - 1, line);
        }
      }
    }

    method SameAsLast(ghost line: seq<char>) returns (same: bool)
      requires Valid() && historyCount > 0
      requires |line| < SIZE && line == inputBuffer[..|line|] && inputBuffer[|line|] == NUL && Plain(line)
      ensures same <==> Entry(Abs(), historyCount - 1) == line
    {
      ghost var h, last := history[..], Entry(Abs(), historyCount - 1);
      CStrShort(Row(h, historyCount - 1));
      hide NextNul, Inv, Row, CStr, Terminated;
      var base := SIZE * (historyCount - 1);
      var i := 0;
      EntryAt(h, historyCount - 1, last, 0);
      TextAt(inputBuffer[..], line, 0);
      while inputBuffer[i] != NUL && history[base + i] != NUL && inputBuffer[i] == history[base + i]
        invariant i <= |line| && i <= |last| < SIZE
        invariant inputBuffer[i] == (if i < |line| then line[i] else NUL)
        invariant history[base + i] == (if i < |last| then last[i] else NUL)
        invariant line[..i] == last[..i]
        decreases |line| - i
      {
        OneMoreSame(line, last, i);
        i := i + 1;
        EntryAt(h, historyCount - 1, last, i);
        TextAt(inputBuffer[..], line, i);
      }
      same := inputBuffer[i] == NUL && history[base + i] == NUL;
      SameText(line, last, i);
    }

    /** Character i of an entry, or the NUL behind it. */
    static lemma EntryAt(h: seq<char>, r: nat, entry: seq<char>, i: nat)
      requires |h| == MAX_HISTORY * SIZE && r < MAX_HISTORY && entry == CStr(Row(h, r), 0)
      requires i <= |entry| < SIZE
      ensures SIZE * r + i < |h| && h[SIZE * r + i] == if i < |entry| then entry[i] else NUL
    {
      hide NextNul;
      assert Row(h, r)[i] == h[SIZE * r + i];
    }

    static lemma TextAt(b: seq<char>, line: seq<char>, i: nat)
      requires i <= |line| < |b| && line == b[..|line|] && b[|line|] == NUL
      ensures b[i] == if i < |line| then line[i] else NUL
    {
    }

    static lemma OneMoreSame(line: seq<char>, last: seq<char>, i: nat)
      requires i < |line| && i < |last| && line[..i] == last[..i] && line[i] == last[i]
      ensures line[..i + 1] == last[..i + 1]
    {
      assert line[..i + 1] == line[..i] + [line[i]] && last[..i + 1] == last[..i] + [last[i]];
    }

    static lemma SameText(line: seq<char>, last: seq<char>, i: nat)
      requires i <= |line| && i <= |last| && line[..i] == last[..i]
      requires i < |line| && i < |last| ==> line[i] != last[i]
      ensures line == last <==> i == |line| && i == |last|
    {
      if i == |line| == |last| {
        assert line == line[..i] && last == last[..i];
      }
    }

    method CopyLine(row: nat, ghost line: seq<char>)
      requires Distinct() && row < MAX_HISTORY
      requires |line| < SIZE && line == inputBuffer[..|line|] && inputBuffer[|line|] == NUL && Plain(line)
      modifies history
      ensures history[..] == StoreRow(old(history[..]), row, line)
    {
      ghost var h := history[..];
      var base := SIZE * row;
      var i := 0;
      assert i < |line| ==> inputBuffer[i] == line[i];
      while inputBuffer[i] != NUL
        invariant i <= |line|
        invariant forall k :: base <= k < base + i ==> history[k] == line[k - base]
        invariant forall k :: 0 <= k < base || base + i <= k < MAX_HISTORY * SIZE ==> history[k] == h[k]
        invariant inputBuffer[i] == NUL <==> i == |line|
        decreases |line| - i
      {
        history[base + i] := inputBuffer[i];
        i := i + 1;
        assert i < |line| ==> inputBuffer[i] == line[i];
      }
      history[base + i] := NUL;
      assert history[..] == h[..base] + line + [NUL] + h[base + |line| + 1..];
    }

    method ShiftHistory()
      requires Distinct()
      modifies history
      ensures history[..] == ShiftRows(old(history[..]))
    {
      ghost var h := history[..];
      for i := 1 to MAX_HISTORY
        invariant forall k :: 0 <= k < SIZE * (i - 1) ==> history[k] == h[k + SIZE]
        invariant forall k :: SIZE * (i - 1) <= k < MAX_HISTORY * SIZE ==> history[k] == h[k]
      {
        for j := 0 to SIZE
          invariant forall k :: 0 <= k < SIZE * (i - 1) + j ==> history[k] == h[k + SIZE]
          invariant forall k :: SIZE * (i - 1) + j <= k < MAX_HISTORY * SIZE ==> history[k] == h[k]
        {
          history[SIZE * (i - 1) + j] := history[SIZE * i + j];
        }
      }
    }
  }
}
