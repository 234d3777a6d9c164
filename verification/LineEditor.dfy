/** The line editor of src/kernel/keyboard.cpp on values: a NUL-terminated buffer of
    256 characters, a cursor, ten history slots and a saved line. */
module EditorSpec {
  const NUL: char := '\0'
  /** sizeof(input_buffer) */
  const SIZE: nat := 256
  const MAX_HISTORY: nat := 10

  datatype Editor = Editor(buf: seq<char>, pos: nat, history: seq<char>, count: nat, index: int, saved: seq<char>)

  datatype Key = Ignored | Up | Down | Left | Right | Home | End | Delete | Enter | Backspace | Char(c: char)

  /** The first NUL at or after from, or the length. */
  function NextNul(s: seq<char>, from: nat): (n: nat)
    requires from <= |s|
    ensures from <= n <= |s|
    ensures forall i :: from <= i < n ==> s[i] != NUL
    ensures n < |s| ==> s[n] == NUL
    decreases |s| - from
  {
    if from == |s| || s[from] == NUL then from else NextNul(s, from + 1)
  }

  /** The C string that starts at from. */
  function CStr(s: seq<char>, from: nat): (t: seq<char>)
    requires from <= |s|
    ensures |t| <= |s| - from
    ensures forall i :: 0 <= i < |t| ==> t[i] == s[from + i] && t[i] != NUL
    ensures from + |t| < |s| ==> s[from + |t|] == NUL
  {
    s[from..NextNul(s, from)]
  }

  /** Row r of history[MAX_HISTORY][256]. */
  function Row(h: seq<char>, r: nat): (row: seq<char>)
    requires |h| == MAX_HISTORY * SIZE && r < MAX_HISTORY
    ensures |row| == SIZE
  {
    h[SIZE * r..SIZE * r + SIZE]
  }

  predicate Terminated(s: seq<char>) {
    exists i :: 0 <= i < |s| && s[i] == NUL
  }

  ghost predicate Inv(e: Editor) {
    && |e.buf| == SIZE && |e.saved| == SIZE && |e.history| == MAX_HISTORY * SIZE
    && e.pos <= SIZE - 1 && e.buf[SIZE - 1] == NUL
    && (forall i :: 0 <= i < e.pos ==> e.buf[i] != NUL)
    && e.count <= MAX_HISTORY && -1 <= e.index < e.count
    && (forall r :: 0 <= r < e.count ==> Terminated(Row(e.history, r)))
    && Terminated(e.saved)
  }

  /** The text before the cursor, and the text from the cursor to the next NUL. */
  function Before(e: Editor): seq<char>
    requires e.pos <= |e.buf|
  {
    e.buf[..e.pos]
  }

  function After(e: Editor): seq<char>
    requires e.pos <= |e.buf|
  {
    CStr(e.buf, e.pos)
  }

  function Entry(e: Editor, r: nat): seq<char>
    requires |e.history| == MAX_HISTORY * SIZE && r < MAX_HISTORY
  {
    CStr(Row(e.history, r), 0)
  }

  /** history[0..history_count) */
  function Entries(e: Editor): (s: seq<seq<char>>)
    requires |e.history| == MAX_HISTORY * SIZE && e.count <= MAX_HISTORY
    ensures |s| == e.count
    ensures forall r :: 0 <= r < e.count ==> s[r] == Entry(e, r)
  {
    seq(e.count, r requires 0 <= r < e.count => Entry(e, r))
  }

  // ---------- Edits of the buffer ----------

  /** Insertion in mid-line moves the text up to and including its NUL one place. */
  function InsertAt(b: seq<char>, pos: nat, c: char): (b': seq<char>)
    requires pos < |b| && (b[pos] == NUL || NextNul(b, pos) + 1 < |b|)
    ensures |b'| == |b|
  {
    if b[pos] == NUL then b[pos := c]
    else
      var n := NextNul(b, pos);
      b[..pos] + [c] + b[pos..n + 1] + b[n + 2..]
  }

  /** Removal moves the text behind up to and including its NUL one place back; the
      old NUL stays. */
  function RemoveAt(b: seq<char>, pos: nat): (b': seq<char>)
    requires pos < |b| && NextNul(b, pos) < |b|
    ensures |b'| == |b|
  {
    var n := NextNul(b, pos);
    if n == pos then b else b[..pos] + b[pos + 1..n + 1] + b[n..]
  }

  /** Text written over the start of a buffer, without a NUL. */
  function Overlay(b: seq<char>, t: seq<char>): (b': seq<char>)
    requires |t| <= |b|
    ensures |b'| == |b|
  {
    t + b[|t|..]
  }

  // ---------- History ----------

  function StoreRow(h: seq<char>, r: nat, line: seq<char>): (h': seq<char>)
    requires |h| == MAX_HISTORY * SIZE && r < MAX_HISTORY && |line| < SIZE
    ensures |h'| == |h|
  {
    h[..SIZE * r] + line + [NUL] + h[SIZE * r + |line| + 1..]
  }

  /** Every row moves one down; the last keeps its content. */
  function ShiftRows(h: seq<char>): (h': seq<char>)
    requires |h| == MAX_HISTORY * SIZE
    ensures |h'| == |h|
  {
    h[SIZE..] + h[SIZE * (MAX_HISTORY - 1)..]
  }

  function Remember(e: Editor, line: seq<char>): Editor
    requires Inv(e) && |line| < SIZE
  {
    if e.count > 0 && Entry(e, e.count - 1) == line then e
    else if e.count < MAX_HISTORY then
      e.(history := StoreRow(e.history, e.count, line), count := e.count + 1)
    else
      e.(history := StoreRow(ShiftRows(e.history), MAX_HISTORY - 1, line))
  }

  // ---------- Keys ----------

  /** Mid-line insertion needs the next NUL at index 254 or below: otherwise the
      code writes behind the buffer. */
  predicate Room(e: Editor, k: Key)
    requires e.pos < |e.buf|
  {
    k.Char? && e.pos < SIZE - 1 && e.buf[e.pos] != NUL ==> NextNul(e.buf, e.pos) <= SIZE - 2
  }

  function Show(e: Editor, text: seq<char>): Editor
    requires |text| <= |e.buf|
  {
    e.(buf := Overlay(e.buf, text), pos := |text|)
  }

  function KeyUp(e: Editor): Editor
    requires Inv(e)
  {
    if e.count == 0 then e
    else
      var e1 := if e.index == -1 then
        e.(saved := Overlay(e.saved, Before(e) + [NUL]), index := e.count - 1)
      else if e.index > 0 then e.(index := e.index - 1) else e;
      Show(e1, Entry(e1, e1.index))
  }

  function KeyDown(e: Editor): Editor
    requires Inv(e)
  {
    if e.index == -1 then e
    else if e.index < e.count - 1 then
      Show(e.(index := e.index + 1), Entry(e, e.index + 1))
    else
      Show(e.(index := -1), CStr(e.saved, 0))
  }

  function KeyEnter(e: Editor): Editor
    requires Inv(e)
  {
    var e1 := e.(buf := e.buf[e.pos := NUL]);
    var e2 := if e.pos > 0 then Remember(e1, Before(e)) else e1;
    e2.(pos := 0, index := -1)
  }

  function Apply(e: Editor, k: Key): (e': Editor)
    requires Inv(e) && Room(e, k)
  {
    match k
    case Ignored => e
    case Up => KeyUp(e)
    case Down => KeyDown(e)
    case Left => if e.pos > 0 then e.(pos := e.pos - 1) else e
    case Right => if e.pos < SIZE - 1 && e.buf[e.pos] != NUL then e.(pos := e.pos + 1) else e
    case Home => e.(pos := 0)
    case End => e.(pos := NextNul(e.buf, e.pos))
    case Delete => e.(buf := RemoveAt(e.buf, e.pos))
    case Enter => KeyEnter(e)
    case Backspace => if e.pos > 0 then e.(buf := RemoveAt(e.buf, e.pos - 1), pos := e.pos - 1) else e
    case Char(c) => if e.pos < SIZE - 1 then e.(buf := InsertAt(e.buf, e.pos, c), pos := e.pos + 1) else e
  }
}
