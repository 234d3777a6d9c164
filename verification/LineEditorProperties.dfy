/** The line editor refines a text with a gap at the cursor, and a history that is
    the tail of the submission log. */
module EditorProperties {
  import opened EditorSpec

  /** The text of the line, split at the cursor. */
  datatype Gap = Gap(before: seq<char>, after: seq<char>)

  function GapOf(e: Editor): Gap
    requires e.pos <= |e.buf|
  {
    Gap(Before(e), After(e))
  }

  // ---------- Facts about NextNul ----------

  lemma NextNulIs(s: seq<char>, from: nat, n: nat)
    requires from <= n < |s| && s[n] == NUL
    requires forall i :: from <= i < n ==> s[i] != NUL
    ensures NextNul(s, from) == n
  {
  }

  lemma NextNulBound(s: seq<char>, from: nat, n: nat)
    requires from <= n < |s| && s[n] == NUL
    ensures NextNul(s, from) <= n
  {
  }

  lemma NulAhead(e: Editor, from: nat)
    requires Inv(e) && from < SIZE
    ensures NextNul(e.buf, from) < SIZE
  {
    NextNulBound(e.buf, from, SIZE - 1);
  }

  lemma CStrShort(s: seq<char>)
    requires Terminated(s)
    ensures |CStr(s, 0)| < |s|
  {
    var i :| 0 <= i < |s| && s[i] == NUL;
    NextNulBound(s, 0, i);
  }

  lemma CStrOfOverlay(b: seq<char>, t: seq<char>)
    requires |t| < |b| && forall i :: 0 <= i < |t| ==> t[i] != NUL
    ensures CStr(Overlay(b, t + [NUL]), 0) == t && Terminated(Overlay(b, t + [NUL]))
  {
    var o := Overlay(b, t + [NUL]);
    assert o[|t|] == NUL;
    NextNulIs(o, 0, |t|);
  }

  // ---------- Editing ----------

  /** Left moves the last character before the gap behind it. */
  lemma LeftMoves(e: Editor)
    requires Inv(e)
    ensures var g, g' := GapOf(e), GapOf(Apply(e, Left));
      if g.before == [] then g' == g
      else g' == Gap(g.before[..|g.before| - 1], [g.before[|g.before| - 1]] + g.after)
  {
    if e.pos > 0 {
      assert NextNul(e.buf, e.pos - 1) == NextNul(e.buf, e.pos);
    }
  }

  /** Right is the inverse move. */
  lemma RightMoves(e: Editor)
    requires Inv(e)
    ensures var g, g' := GapOf(e), GapOf(Apply(e, Right));
      if g.after == [] then g' == g else g' == Gap(g.before + [g.after[0]], g.after[1..])
  {
    NulAhead(e, e.pos);
    if e.buf[e.pos] != NUL {
      assert e.pos < SIZE - 1;
      assert NextNul(e.buf, e.pos) == NextNul(e.buf, e.pos + 1);
    }
  }

  lemma HomeMoves(e: Editor)
    requires Inv(e)
    ensures GapOf(Apply(e, Home)) == Gap([], Before(e) + After(e))
  {
    NulAhead(e, e.pos);
    NextNulIs(e.buf, 0, NextNul(e.buf, e.pos));
  }

  lemma EndMoves(e: Editor)
    requires Inv(e)
    ensures GapOf(Apply(e, End)) == Gap(Before(e) + After(e), [])
  {
    NulAhead(e, e.pos);
  }

  /** Where the NUL is after a removal, and what is in front of it. */
  lemma Removed(b: seq<char>, pos: nat)
    requires pos < |b| && NextNul(b, pos) < |b|
    ensures var n, b' := NextNul(b, pos), RemoveAt(b, pos);
      && b'[..pos] == b[..pos]
      && b'[|b| - 1] == (if n == |b| - 1 then NUL else b[|b| - 1])
      && (n > pos ==> NextNul(b', pos) == n - 1 && b'[pos..n - 1] == b[pos + 1..n])
  {
    var n, b' := NextNul(b, pos), RemoveAt(b, pos);
    if n > pos {
      assert b' == b[..pos] + b[pos + 1..n + 1] + b[n..];
      assert forall i :: pos <= i < n ==> b'[i] == b[i + 1];
      NextNulIs(b', pos, n - 1);
    }
  }

  lemma ClosedIs(b: seq<char>, pos: nat, n: nat, b': seq<char>)
    requires pos < n < |b| == |b'|
    requires forall k :: 0 <= k < pos || n <= k < |b| ==> b'[k] == b[k]
    requires forall k :: pos <= k < n ==> b'[k] == b[k + 1]
    ensures b' == b[..pos] + b[pos + 1..n + 1] + b[n..]
  {
    assert b'[..pos] == b[..pos];
    assert b'[pos..n] == b[pos + 1..n + 1];
    assert b'[n..] == b[n..];
  }

  lemma RemoveAtIs(b: seq<char>, pos: nat, b': seq<char>)
    requires pos < |b| == |b'| && pos < NextNul(b, pos) < |b|
    requires forall k :: 0 <= k < pos || NextNul(b, pos) <= k < |b| ==> b'[k] == b[k]
    requires forall k :: pos <= k < NextNul(b, pos) ==> b'[k] == b[k + 1]
    ensures b' == RemoveAt(b, pos)
  {
    hide NextNul;
    ClosedIs(b, pos, NextNul(b, pos), b');
  }

  /** Delete takes the first character behind the gap. */
  lemma DeleteRemoves(e: Editor)
    requires Inv(e)
    ensures var g, g' := GapOf(e), GapOf(Apply(e, Delete));
      if g.after == [] then g' == g else g' == Gap(g.before, g.after[1..])
  {
    NulAhead(e, e.pos);
    Removed(e.buf, e.pos);
  }

  /** Backspace takes the last character before the gap. */
  lemma BackspaceRemoves(e: Editor)
    requires Inv(e)
    ensures var g, g' := GapOf(e), GapOf(Apply(e, Backspace));
      if g.before == [] then g' == g else g' == Gap(g.before[..|g.before| - 1], g.after)
  {
    if e.pos > 0 {
      BackspaceIsLeftDelete(e);
      LeftMoves(e);
      DeleteRemoves(Apply(e, Left));
      hide Apply, Inv, Before, After;
    }
  }

  lemma BackspaceIsLeftDelete(e: Editor)
    requires Inv(e) && e.pos > 0
    ensures Inv(Apply(e, Left)) && Apply(e, Backspace) == Apply(Apply(e, Left), Delete)
  {
    hide Row, Terminated, RemoveAt;
  }

  lemma SplicedAt(b: seq<char>, pos: nat, c: char, n: nat, i: nat)
    requires pos <= n && n + 1 < |b| && i < |b|
    ensures (b[..pos] + [c] + b[pos..n + 1] + b[n + 2..])[i] ==
      if i < pos then b[i] else if i == pos then c else if i <= n + 1 then b[i - 1] else b[i]
  {
  }

  lemma InsertedAt(b: seq<char>, pos: nat, c: char, i: nat)
    requires pos < |b| && b[pos] != NUL && NextNul(b, pos) + 1 < |b| && i < |b|
    ensures InsertAt(b, pos, c)[i] ==
      if i < pos then b[i] else if i == pos then c else if i <= NextNul(b, pos) + 1 then b[i - 1] else b[i]
  {
    hide NextNul;
    SplicedAt(b, pos, c, NextNul(b, pos), i);
  }

  lemma InsertAtIs(b: seq<char>, pos: nat, c: char, b': seq<char>)
    requires pos < |b| == |b'| && b[pos] != NUL && NextNul(b, pos) + 1 < |b|
    requires forall k :: 0 <= k < pos || NextNul(b, pos) + 1 < k < |b| ==> b'[k] == b[k]
    requires b'[pos] == c
    requires forall k :: pos < k <= NextNul(b, pos) + 1 ==> b'[k] == b[k - 1]
    ensures b' == InsertAt(b, pos, c)
  {
    forall i | 0 <= i < |b|
      ensures b'[i] == InsertAt(b, pos, c)[i]
    {
      InsertedAt(b, pos, c, i);
    }
    hide InsertAt, NextNul;
  }

  lemma NextNulOfSlice(s: seq<char>, lo: nat, t: seq<char>)
    requires |t| > 0 && lo + |t| <= |s| && s[lo..lo + |t|] == t
    requires t[|t| - 1] == NUL && forall j :: 0 <= j < |t| - 1 ==> t[j] != NUL
    ensures NextNul(s, lo) == lo + |t| - 1
    ensures s[lo..lo + |t| - 1] == t[..|t| - 1]
  {
    forall i | lo <= i < lo + |t|
      ensures s[i] == t[i - lo]
    {
    }
    NextNulIs(s, lo, lo + |t| - 1);
  }

  lemma Parts(front: seq<char>, mid: seq<char>, rest: seq<char>)
    ensures var s := front + mid + rest;
      s[..|front|] == front && s[|front|..|front| + |mid|] == mid && s[|front| + |mid|..] == rest
  {
  }

  lemma InsertSlices(b: seq<char>, pos: nat, c: char, n: nat)
    requires pos < |b| && b[pos] != NUL && NextNul(b, pos) == n && n + 1 < |b|
    ensures var b' := InsertAt(b, pos, c);
      b'[..pos + 1] == b[..pos] + [c] && b'[pos + 1..n + 2] == b[pos..n + 1] && b'[n + 2..] == b[n + 2..]
  {
    hide NextNul;
    Parts(b[..pos] + [c], b[pos..n + 1], b[n + 2..]);
  }

  lemma Inserted(b: seq<char>, pos: nat, c: char)
    requires pos < |b| && b[pos] != NUL && NextNul(b, pos) + 1 < |b|
    ensures var n, b' := NextNul(b, pos), InsertAt(b, pos, c);
      && b'[..pos + 1] == b[..pos] + [c]
      && NextNul(b', pos + 1) == n + 1 && b'[pos + 1..n + 1] == b[pos..n]
      && b'[n + 2..] == b[n + 2..]
  {
    hide InsertAt, NextNul;
    var n := NextNul(b, pos);
    InsertSlices(b, pos, c, n);
    assert b[pos..n + 1][..n - pos] == b[pos..n];
    NextNulOfSlice(InsertAt(b, pos, c), pos + 1, b[pos..n + 1]);
  }

  lemma InsertedGap(b: seq<char>, pos: nat, c: char)
    requires pos < |b| && b[pos] != NUL && NextNul(b, pos) + 1 < |b|
    ensures InsertAt(b, pos, c)[..pos + 1] == b[..pos] + [c]
    ensures CStr(InsertAt(b, pos, c), pos + 1) == CStr(b, pos)
  {
    Inserted(b, pos, c);
    var n, b' := NextNul(b, pos), InsertAt(b, pos, c);
    hide InsertAt, NextNul;
  }

  /** A character typed in mid-line, with room, goes to the end of the text before
      the gap and leaves the text behind it. */
  lemma MidlineInserts(e: Editor, c: char)
    requires Inv(e) && Room(e, Char(c)) && After(e) != []
    ensures GapOf(Apply(e, Char(c))) == Gap(Before(e) + [c], After(e))
  {
    NulAhead(e, e.pos);
    hide InsertAt, CStr, Row, Terminated;
    InsertedGap(e.buf, e.pos, c);
  }

  /** A character typed at the end of the line extends the text before the gap; the
      text behind the gap stays empty exactly when the next byte of the buffer is
      NUL. Otherwise stale characters behind the old NUL come back into the line. */
  lemma AppendExtends(e: Editor, c: char)
    requires Inv(e) && After(e) == [] && e.pos < SIZE - 1
    ensures Before(Apply(e, Char(c))) == Before(e) + [c]
    ensures After(Apply(e, Char(c))) == [] <==> e.buf[e.pos + 1] == NUL
  {
  }

  /** The line is "x", with "bc" left behind its NUL. */
  ghost predicate StaleBehind(e: Editor) {
    Inv(e) && e.pos == 1 && e.buf[..5] == ['x', NUL, 'b', 'c', NUL]
  }

  /** Typing "z" there brings "bc" back; EditorRuns.StaleTextReached gives keys that
      lead there. */
  lemma StaleTextReturns(e: Editor)
    requires StaleBehind(e)
    ensures GapOf(e) == Gap(['x'], [])
    ensures GapOf(Apply(e, Char('z'))) == Gap(['x', 'z'], ['b', 'c'])
  {
    assert forall i :: 0 <= i < 5 ==> e.buf[i] == e.buf[..5][i];
    var b := Apply(e, Char('z')).buf;
    NextNulIs(b, 2, 4);
    assert b[2..4] == ['b', 'c'];
  }

  /** Enter submits the text before the gap; that text is then behind the gap, since
      the buffer is not cleared. */
  lemma EnterKeepsText(e: Editor)
    requires Inv(e)
    ensures GapOf(Apply(e, Enter)) == Gap([], Before(e))
  {
    var b := e.buf[e.pos := NUL];
    NextNulIs(b, 0, e.pos);
  }

  /** There is room for a character exactly at the end of the line, or while the line
      has at most 254 characters. */
  lemma RoomExactly(e: Editor, c: char)
    requires Inv(e)
    ensures Room(e, Char(c)) <==> After(e) == [] || |Before(e)| + |After(e)| <= 254
  {
    NulAhead(e, e.pos);
  }

  /** A line of 255 characters, with the cursor at its start, has no room. */
  lemma FullLineHasNoRoom(e: Editor, c: char)
    requires Inv(e) && e.pos == 255
    ensures Inv(Apply(e, Home)) && !Room(Apply(e, Home), Char(c))
  {
    NextNulIs(e.buf, 0, SIZE - 1);
  }

  // ---------- The invariant ----------

  lemma RowsOfStore(h: seq<char>, r: nat, line: seq<char>, q: nat)
    requires |h| == MAX_HISTORY * SIZE && r < MAX_HISTORY && |line| < SIZE && q < MAX_HISTORY
    ensures q != r ==> Row(StoreRow(h, r, line), q) == Row(h, q)
    ensures q == r ==> Row(StoreRow(h, r, line), q) == Overlay(Row(h, q), line + [NUL])
  {
    Stored(h, SIZE * r, line + [NUL], SIZE * q);
    assert h[..SIZE * r] + line + [NUL] == h[..SIZE * r] + (line + [NUL]);
  }

  /** What a text stored at base does to the slots of 256 characters. */
  lemma Stored(h: seq<char>, base: nat, text: seq<char>, slot: nat)
    requires base + SIZE <= |h| && slot + SIZE <= |h| && |text| <= SIZE
    requires slot == base || slot + SIZE <= base || base + SIZE <= slot
    ensures var h' := h[..base] + text + h[base + |text|..];
      h'[slot..slot + SIZE] ==
        if slot == base then Overlay(h[slot..slot + SIZE], text) else h[slot..slot + SIZE]
  {
    var h' := h[..base] + text + h[base + |text|..];
    var row := if slot == base then Overlay(h[slot..slot + SIZE], text) else h[slot..slot + SIZE];
    hide Overlay;
    forall k | 0 <= k < SIZE
      ensures h'[slot..slot + SIZE][k] == row[k]
    {
      StoredAt(h, base, text, slot + k);
      if slot == base {
        OverlayIs(h[slot..slot + SIZE], text, k);
      }
    }
  }

  lemma StoredAt(h: seq<char>, base: nat, text: seq<char>, i: nat)
    requires base + |text| <= |h| && i < |h|
    ensures (h[..base] + text + h[base + |text|..])[i] == if base <= i < base + |text| then text[i - base] else h[i]
  {
  }

  lemma OverlayIs(b: seq<char>, text: seq<char>, k: nat)
    requires |text| <= |b| && k < |b|
    ensures Overlay(b, text)[k] == if k < |text| then text[k] else b[k]
  {
  }

  lemma RowsOfShift(h: seq<char>, q: nat)
    requires |h| == MAX_HISTORY * SIZE && q < MAX_HISTORY - 1
    ensures Row(ShiftRows(h), q) == Row(h, q + 1)
  {
  }

  ghost predicate Plain(s: seq<char>) {
    forall i :: 0 <= i < |s| ==> s[i] != NUL
  }

  ghost predicate Last(e: Editor, line: seq<char>)
    requires |e.history| == MAX_HISTORY * SIZE && e.count <= MAX_HISTORY
  {
    e.count > 0 && Entry(e, e.count - 1) == line
  }

  function LastN<T>(s: seq<T>, n: nat): seq<T> {
    if |s| <= n then s else s[|s| - n..]
  }

  /** The rows that Remember leaves: those kept, and the new line in the last one. */
  lemma RememberRows(e: Editor, line: seq<char>, q: nat)
    requires Inv(e) && |line| < SIZE && !Last(e, line)
    ensures var e' := Remember(e, line);
      var d := if e.count < MAX_HISTORY then 0 else 1;
      && e'.count == e.count + 1 - d && |e'.history| == |e.history|
      && (q < e'.count - 1 ==> Row(e'.history, q) == Row(e.history, q + d))
      && (q == e'.count - 1 ==>
            exists row: seq<char> :: |row| == SIZE && Row(e'.history, q) == Overlay(row, line + [NUL]))
  {
    var h := if e.count < MAX_HISTORY then e.history else ShiftRows(e.history);
    var r := if e.count < MAX_HISTORY then e.count else MAX_HISTORY - 1;
    hide Row, StoreRow, ShiftRows;
    if q < r {
      RowsOfStore(h, r, line, q);
      if e.count == MAX_HISTORY {
        RowsOfShift(e.history, q);
      }
    } else if q == r {
      RowsOfStore(h, r, line, q);
    }
  }

  lemma RememberEntry(e: Editor, line: seq<char>, q: nat)
    requires Inv(e) && |line| < SIZE && Plain(line) && !Last(e, line)
    ensures var e' := Remember(e, line);
      && (q < e'.count - 1 ==> Row(e'.history, q) == Row(e.history, if e.count < MAX_HISTORY then q else q + 1))
      && (q == e'.count - 1 ==> Entry(e', q) == line && Terminated(Row(e'.history, q)))
  {
    RememberRows(e, line, q);
    var e' := Remember(e, line);
    hide Remember, Row, Last;
    if q == e'.count - 1 {
      var row: seq<char> :| |row| == SIZE && Row(e'.history, q) == Overlay(row, line + [NUL]);
      CStrOfOverlay(row, line);
    }
  }

  /** Remembering a line appends it, unless it repeats the last one, and keeps the
      last ten entries. */
  lemma RememberAppends(e: Editor, line: seq<char>)
    requires Inv(e) && |line| < SIZE && Plain(line)
    ensures Entries(Remember(e, line)) ==
      if Last(e, line) then Entries(e) else LastN(Entries(e) + [line], 10)
    ensures forall r :: 0 <= r < Remember(e, line).count ==> Terminated(Row(Remember(e, line).history, r))
  {
    if !Last(e, line) {
      var e' := Remember(e, line);
      forall q: nat | q < e'.count
        ensures q < e'.count - 1 ==> Entry(e', q) == Entry(e, if e.count < MAX_HISTORY then q else q + 1)
        ensures q == e'.count - 1 ==> Entry(e', q) == line
        ensures Terminated(Row(e'.history, q))
      {
        RememberEntry(e, line, q);
      }
      hide Row, Remember, Terminated, Entry, Inv, Plain;
      assert Entries(e') == LastN(Entries(e) + [line], MAX_HISTORY);
    }
  }

  lemma RememberInv(e: Editor, line: seq<char>)
    requires Inv(e) && |line| < SIZE && Plain(line)
    ensures var e' := Remember(e, line);
      Inv(e') && e'.buf == e.buf && e'.pos == e.pos && e'.saved == e.saved && e'.index == e.index
  {
    RememberAppends(e, line);
  }

  lemma EntryPlain(e: Editor, r: nat)
    requires Inv(e) && r < e.count
    ensures Plain(Entry(e, r)) && |Entry(e, r)| < SIZE
  {
    CStrShort(Row(e.history, r));
  }

  lemma ShowInv(e: Editor, text: seq<char>)
    requires Inv(e) && Plain(text) && |text| < SIZE
    ensures Inv(Show(e, text)) && Before(Show(e, text)) == text
  {
  }

  lemma UpInv(e: Editor)
    requires Inv(e)
    ensures Inv(KeyUp(e))
  {
    if e.count > 0 {
      CStrOfOverlay(e.saved, Before(e));
      var e1 := if e.index == -1 then
        e.(saved := Overlay(e.saved, Before(e) + [NUL]), index := e.count - 1)
      else if e.index > 0 then e.(index := e.index - 1) else e;
      EntryPlain(e1, e1.index);
      ShowInv(e1, Entry(e1, e1.index));
    }
  }

  lemma DownInv(e: Editor)
    requires Inv(e)
    ensures Inv(KeyDown(e))
  {
    if e.index != -1 {
      if e.index < e.count - 1 {
        EntryPlain(e, e.index + 1);
        ShowInv(e.(index := e.index + 1), Entry(e, e.index + 1));
      } else {
        CStrShort(e.saved);
        ShowInv(e.(index := -1), CStr(e.saved, 0));
      }
    }
  }

  lemma EnterInv(e: Editor)
    requires Inv(e)
    ensures Inv(KeyEnter(e))
  {
    var e1 := e.(buf := e.buf[e.pos := NUL]);
    assert Inv(e1);
    RememberInv(e1, Before(e));
  }

  /** Enter ends the line at the cursor and remembers what is before it. */
  lemma EnterState(e: Editor)
    requires Inv(e)
    ensures var e1 := e.(buf := e.buf[e.pos := NUL]);
      && Inv(e1) && Inv(KeyEnter(e)) && Plain(Before(e)) && Inv(Remember(e1, Before(e)))
      && var e2 := if e.pos > 0 then Remember(e1, Before(e)) else e1;
         KeyEnter(e).history == e2.history && KeyEnter(e).count == e2.count
  {
    hide Row, Remember, Terminated;
    EnterInv(e);
    RememberInv(e.(buf := e.buf[e.pos := NUL]), Before(e));
  }

  lemma DeleteInv(e: Editor)
    requires Inv(e)
    ensures Inv(e.(buf := RemoveAt(e.buf, e.pos)))
  {
    NulAhead(e, e.pos);
    Removed(e.buf, e.pos);
    var b' := RemoveAt(e.buf, e.pos);
    assert forall i :: 0 <= i < e.pos ==> b'[i] == b'[..e.pos][i];
  }

  lemma BackspaceInv(e: Editor)
    requires Inv(e) && e.pos > 0
    ensures Inv(e.(buf := RemoveAt(e.buf, e.pos - 1), pos := e.pos - 1))
  {
    DeleteInv(e.(pos := e.pos - 1));
  }

  lemma InsertedKeeps(b: seq<char>, pos: nat, c: char)
    requires |b| == SIZE && pos < SIZE - 1 && b[SIZE - 1] == NUL && c != NUL
    requires forall i :: 0 <= i < pos ==> b[i] != NUL
    requires b[pos] == NUL || NextNul(b, pos) <= SIZE - 2
    ensures InsertAt(b, pos, c)[SIZE - 1] == NUL
    ensures forall i :: 0 <= i < pos + 1 ==> InsertAt(b, pos, c)[i] != NUL
  {
    if b[pos] != NUL {
      var n, b' := NextNul(b, pos), InsertAt(b, pos, c);
      Inserted(b, pos, c);
      assert n == SIZE - 2 ==> b'[n + 1] == NUL;
      hide InsertAt, NextNul;
      assert n < SIZE - 2 ==> b'[n + 2..][SIZE - 3 - n] == b[n + 2..][SIZE - 3 - n];
      assert forall i :: 0 <= i < pos + 1 ==> b'[i] == b'[..pos + 1][i];
    }
  }

  lemma InsertInv(e: Editor, c: char)
    requires Inv(e) && Room(e, Char(c)) && c != NUL && e.pos < SIZE - 1
    ensures Inv(e.(buf := InsertAt(e.buf, e.pos, c), pos := e.pos + 1))
  {
    InsertedKeeps(e.buf, e.pos, c);
    NulAhead(e, e.pos);
    hide InsertAt, NextNul, Terminated, Row;
  }

  /** Every key with room keeps the invariant. */
  lemma ApplyInv(e: Editor, k: Key)
    requires Inv(e) && Room(e, k) && (k.Char? ==> k.c != NUL)
    ensures Inv(Apply(e, k))
  {
    hide InsertAt, RemoveAt, KeyUp, KeyDown, KeyEnter, Row, Terminated;
    match k
    case Up => UpInv(e);
    case Down => DownInv(e);
    case Enter => EnterInv(e);
    case Delete => DeleteInv(e);
    case Backspace =>
      if e.pos > 0 {
        BackspaceInv(e);
      }
    case Char(c) =>
      if e.pos < SIZE - 1 {
        InsertInv(e, c);
      }
    case End => NulAhead(e, e.pos);
    case _ =>
  }
}

/** Whole sessions with the line editor. */
module EditorRuns {
  import opened EditorSpec
  import opened EditorProperties

  /** The editor and all the lines that Enter has submitted. */
  datatype Session = Session(editor: Editor, log: seq<seq<char>>)

  function Press(s: Session, k: Key): Session
    requires Inv(s.editor) && Room(s.editor, k)
  {
    Session(Apply(s.editor, k), if k == Enter then s.log + [Before(s.editor)] else s.log)
  }

  lemma PressInv(s: Session, k: Key)
    requires Inv(s.editor) && Room(s.editor, k) && (k.Char? ==> k.c != NUL)
    ensures Inv(Press(s, k).editor)
  {
    ApplyInv(s.editor, k);
  }

  /** The keys lead from s to s', each of them with room. */
  ghost predicate Reaches(s: Session, keys: seq<Key>, s': Session)
    requires Inv(s.editor)
    decreases |keys|
  {
    if keys == [] then s' == s
    else
      && Room(s.editor, keys[0])
      && (keys[0].Char? ==> keys[0].c != NUL)
      && (PressInv(s, keys[0]); Reaches(Press(s, keys[0]), keys[1..], s'))
  }

  /** The zero-initialised globals. */
  function Start(): (s: Session)
    ensures Inv(s.editor)
  {
    var zeroed := seq(SIZE, _ => NUL);
    assert zeroed[0] == NUL;
    Session(Editor(zeroed, 0, seq(MAX_HISTORY * SIZE, _ => NUL), 0, -1, zeroed), [])
  }

  /** The lines with one more behind them, unless it is empty or repeats the last. */
  function Added(lines: seq<seq<char>>, line: seq<char>): seq<seq<char>> {
    if line == [] || (lines != [] && lines[|lines| - 1] == line) then lines else lines + [line]
  }

  /** The log with empty lines dropped and adjacent duplicates collapsed. */
  function Collapse(log: seq<seq<char>>): seq<seq<char>>
    decreases |log|
  {
    if log == [] then [] else Added(Collapse(log[..|log| - 1]), log[|log| - 1])
  }

  ghost predicate Faithful(s: Session) {
    Inv(s.editor) && Entries(s.editor) == LastN(Collapse(s.log), MAX_HISTORY)
  }

  lemma SameEntries(e: Editor, e': Editor)
    requires Inv(e) && Inv(e') && e'.history == e.history && e'.count == e.count
    ensures Entries(e') == Entries(e)
  {
    hide Row, CStr, Inv;
  }

  lemma RememberAdds(e: Editor, line: seq<char>)
    requires Inv(e) && line != [] && |line| < SIZE && Plain(line) && Inv(Remember(e, line))
    ensures Entries(Remember(e, line)) == LastN(Added(Entries(e), line), MAX_HISTORY)
  {
    RememberAppends(e, line);
    hide Row, Remember, Terminated, CStr, Entry;
  }

  /** What Enter does to the history entries. */
  lemma EnterEntries(e: Editor)
    requires Inv(e)
    ensures Inv(KeyEnter(e))
    ensures Entries(KeyEnter(e)) == LastN(Added(Entries(e), Before(e)), MAX_HISTORY)
  {
    EnterState(e);
    hide Row, Remember, Terminated, CStr, KeyEnter;
    var line, e1 := Before(e), e.(buf := e.buf[e.pos := NUL]);
    SameEntries(e, e1);
    if e.pos > 0 {
      RememberAdds(e1, line);
      SameEntries(Remember(e1, line), KeyEnter(e));
    } else {
      SameEntries(e1, KeyEnter(e));
      hide Inv;
    }
  }

  /** Enter from any state: the cursor is at the start and browsing has ended. A line that
      is not empty is the last entry afterwards: nothing changes if it was before,
      otherwise it is behind the others, of which the oldest goes if there were ten. */
  lemma EnterRemembers(e: Editor)
    requires Inv(e)
    ensures var e', line := Apply(e, Enter), Before(e);
      && Inv(e') && e'.pos == 0 && e'.index == -1
      && var before, now := Entries(e), Entries(e');
         if line == [] || (before != [] && before[|before| - 1] == line) then now == before
         else now == (if |before| < 10 then before else before[1..]) + [line]
  {
    hide Apply, KeyEnter, Inv, Entries;
    EnterEnds(e);
    LastTenEntered(e);
  }

  lemma EnterEnds(e: Editor)
    requires Inv(e)
    ensures Apply(e, Enter) == KeyEnter(e) && KeyEnter(e).pos == 0 && KeyEnter(e).index == -1
  {
    hide Remember, Before;
  }

  lemma LastTenEntered(e: Editor)
    requires Inv(e)
    ensures Inv(KeyEnter(e))
    ensures var line, before := Before(e), Entries(e);
      Entries(KeyEnter(e)) ==
        if line == [] || (before != [] && before[|before| - 1] == line) then before
        else (if |before| < 10 then before else before[1..]) + [line]
  {
    hide KeyEnter, LastN, Added, Entry, Before, Row, Terminated;
    EnterEntries(e);
    LastTen(Entries(e), Before(e));
  }

  lemma NewestShown(e: Editor)
    requires Inv(e) && e.index == -1 && Entries(e) != []
    ensures var e', n := Apply(e, Up), |Entries(e)| - 1;
      Inv(e') && e'.index == n && Before(e') == Entries(e)[n]
  {
    UpShows(e);
    assert Entry(e, e.count - 1) == Entries(e)[e.count - 1];
    hide KeyUp, Inv, Entries, Entry;
  }

  lemma LastTen(lines: seq<seq<char>>, line: seq<char>)
    requires |lines| <= 10
    ensures LastN(Added(lines, line), MAX_HISTORY) ==
      if line == [] || (lines != [] && lines[|lines| - 1] == line) then lines
      else (if |lines| < 10 then lines else lines[1..]) + [line]
  {
    assert |lines| == 10 ==> (lines + [line])[1..] == lines[1..] + [line];
  }

  /** The next Up shows the newest entry, that is the line that was just submitted. */
  lemma EnterThenUp(e: Editor)
    requires Inv(e) && Inv(Apply(e, Enter)) && Entries(Apply(e, Enter)) != []
    ensures var e', entries := Apply(Apply(e, Enter), Up), Entries(Apply(e, Enter));
      && Inv(e') && e'.index == |entries| - 1 && Before(e') == entries[|entries| - 1]
      && (Before(e) != [] ==> Before(e') == Before(e))
  {
    EnterRemembers(e);
    var e1 := Apply(e, Enter);
    NewestShown(e1);
    hide Apply, Inv, Entries;
  }

  lemma CollapseStep(log: seq<seq<char>>, line: seq<char>)
    ensures Collapse(log + [line]) == Added(Collapse(log), line)
  {
    assert (log + [line])[..|log|] == log;
  }

  lemma EnterFaithful(s: Session)
    requires Faithful(s)
    ensures Inv(KeyEnter(s.editor))
    ensures Entries(KeyEnter(s.editor)) == LastN(Collapse(s.log + [Before(s.editor)]), MAX_HISTORY)
  {
    EnterInv(s.editor);
    EnterEntries(s.editor);
    var line, before, after := Before(s.editor), Entries(s.editor), Entries(KeyEnter(s.editor));
    hide *;
    LogFollows(before, s.log, line);
  }

  lemma LogFollows(lines: seq<seq<char>>, log: seq<seq<char>>, line: seq<char>)
    requires lines == LastN(Collapse(log), MAX_HISTORY)
    ensures LastN(Added(lines, line), MAX_HISTORY) == LastN(Collapse(log + [line]), MAX_HISTORY)
  {
    hide *;
    CollapseStep(log, line);
    TailStep(Collapse(log), line);
  }

  /** It is enough to know the last ten lines. */
  lemma TailStep(lines: seq<seq<char>>, line: seq<char>)
    ensures LastN(Added(LastN(lines, MAX_HISTORY), line), MAX_HISTORY) == LastN(Added(lines, line), MAX_HISTORY)
  {
    LastOfLastN(lines);
    AppendTail(lines, line);
  }

  lemma LastOfLastN(s: seq<seq<char>>)
    ensures LastN(s, MAX_HISTORY) == [] <==> s == []
    ensures s != [] ==> LastN(s, MAX_HISTORY)[|LastN(s, MAX_HISTORY)| - 1] == s[|s| - 1]
  {
  }

  lemma AppendTail(s: seq<seq<char>>, x: seq<char>)
    ensures LastN(LastN(s, MAX_HISTORY) + [x], MAX_HISTORY) == LastN(s + [x], MAX_HISTORY)
  {
  }

  lemma PressFaithful(s: Session, k: Key)
    requires Faithful(s) && Room(s.editor, k) && (k.Char? ==> k.c != NUL)
    ensures Faithful(Press(s, k))
  {
    PressInv(s, k);
    if k == Enter {
      EnterFaithful(s);
      EnterPressed(s);
      hide Press, Inv, Entries, Collapse, LastN, KeyEnter, Before;
    } else {
      HistoryKept(s.editor, k);
      OnlyEnterLogs(s, k);
      hide Press, Apply, Inv, Entries, Collapse, LastN;
      SameEntries(s.editor, Press(s, k).editor);
    }
  }

  lemma EnterPressed(s: Session)
    requires Inv(s.editor)
    ensures Room(s.editor, Enter)
    ensures Press(s, Enter) == Session(KeyEnter(s.editor), s.log + [Before(s.editor)])
  {
    hide Inv, KeyEnter;
  }

  lemma OnlyEnterLogs(s: Session, k: Key)
    requires Inv(s.editor) && Room(s.editor, k) && k != Enter
    ensures Press(s, k) == Session(Apply(s.editor, k), s.log)
  {
    hide Inv, Apply;
  }

  /** Only Enter changes the history. */
  lemma HistoryKept(e: Editor, k: Key)
    requires Inv(e) && Room(e, k) && k != Enter
    ensures Apply(e, k).history == e.history && Apply(e, k).count == e.count
  {
    hide Inv, InsertAt, RemoveAt, CStr, Row;
  }

  lemma {:induction false} ReachesFaithful(s: Session, keys: seq<Key>, s': Session)
    requires Faithful(s) && Reaches(s, keys, s')
    ensures Faithful(s')
    decreases |keys|
  {
    if keys != [] {
      PressFaithful(s, keys[0]);
      ReachesFaithful(Press(s, keys[0]), keys[1..], s');
    }
  }

  /** In every session the history is the last ten entries of the submission log
      with empty lines dropped and adjacent duplicates collapsed. */
  lemma HistoryIsLogTail(keys: seq<Key>, s: Session)
    requires Reaches(Start(), keys, s)
    ensures Inv(s.editor)
    ensures Entries(s.editor) == LastN(Collapse(s.log), 10)
  {
    assert Entries(Start().editor) == [];
    ReachesFaithful(Start(), keys, s);
  }

  // ---------- A session in which stale text comes back ----------

  lemma {:induction false} ReachAppend(s: Session, keys: seq<Key>, s': Session, k: Key)
    requires Inv(s.editor) && Reaches(s, keys, s') && (k.Char? ==> k.c != NUL)
    requires Inv(s'.editor) && Room(s'.editor, k)
    ensures Reaches(s, keys + [k], Press(s', k)) && Inv(Press(s', k).editor)
    decreases |keys|
  {
    hide Press, Inv, Room;
    PressInv(s', k);
    if keys == [] {
      assert (keys + [k])[1..] == [];
    } else {
      assert (keys + [k])[1..] == keys[1..] + [k];
      PressInv(s, keys[0]);
      ReachAppend(Press(s, keys[0]), keys[1..], s', k);
    }
  }

  /** The keys lead from the start to a cursor at pos in a buffer that begins with head. */
  ghost predicate Leads(keys: seq<Key>, s: Session, pos: nat, head: seq<char>) {
    && Reaches(Start(), keys, s) && Inv(s.editor)
    && s.editor.pos == pos && |head| == 5 && s.editor.buf[..5] == head
  }

  /** What the keys of the example make of the cursor and the start of the buffer. */
  function Cursor(pos: nat, k: Key): nat {
    if k == Left then if pos > 0 then pos - 1 else 0 else if k == Enter then 0 else pos + 1
  }

  function Head(head: seq<char>, pos: nat, k: Key): seq<char>
    requires pos < |head|
  {
    if k.Char? then head[pos := k.c] else if k == Enter then head[pos := NUL] else head
  }

  predicate Plainly(head: seq<char>, pos: nat, k: Key)
    requires pos < |head|
  {
    k == Left || k == Enter || (k == Right && head[pos] != NUL) || (k.Char? && k.c != NUL && head[pos] == NUL)
  }

  lemma KeyOnHead(e: Editor, pos: nat, head: seq<char>, k: Key)
    requires Inv(e) && |head| == 5 && pos < 5 && e.pos == pos && e.buf[..5] == head && Plainly(head, pos, k)
    ensures Room(e, k)
    ensures Apply(e, k).pos == Cursor(pos, k) && Apply(e, k).buf[..5] == Head(head, pos, k)
  {
    hide Row, Terminated, NextNul, Remember;
    assert e.buf[pos] == e.buf[..5][pos];
    if k == Enter && pos > 0 {
      RememberInv(e.(buf := e.buf[pos := NUL]), Before(e));
    }
  }

  lemma LeadsOn(keys: seq<Key>, s: Session, pos: nat, head: seq<char>, k: Key, head': seq<char>) returns (s': Session)
    requires |head| == 5 && pos < 5 && Leads(keys, s, pos, head) && Plainly(head, pos, k)
    requires head' == Head(head, pos, k)
    ensures Leads(keys + [k], s', Cursor(pos, k), head')
  {
    KeyOnHead(s.editor, pos, head, k);
    hide Inv, Start, Apply, Reaches;
    ReachAppend(Start(), keys, s, k);
    s' := Press(s, k);
  }

  lemma LeadsAtStart()
    ensures Leads([], Start(), 0, [NUL, NUL, NUL, NUL, NUL])
  {
  }

  const STALE: seq<Key> := [Char('x'), Char('q'), Char('b'), Char('c'), Left, Left, Left, Enter, Right]

  /** Typing "xqbc", going back behind the "x", submitting and going right leads from
      the start to the state of StaleTextReturns. */
  lemma StaleTextReached()
    ensures exists s: Session :: Reaches(Start(), STALE, s) && StaleBehind(s.editor)
  {
    var typed := ['x', 'q', 'b', 'c', NUL];
    var s := Typed();
    var keys := STALE[..4];
    hide Leads, Start, Reaches, StaleBehind, Inv;
    s := LeadsOn(keys, s, 4, typed, Left, typed);
    s := LeadsOn(keys + [Left], s, 3, typed, Left, typed);
    s := LeadsOn(keys + [Left] + [Left], s, 2, typed, Left, typed);
    s := LeadsOn(keys + [Left] + [Left] + [Left], s, 1, typed, Enter, ['x', NUL, 'b', 'c', NUL]);
    var cut := ['x', NUL, 'b', 'c', NUL];
    s := LeadsOn(keys + [Left] + [Left] + [Left] + [Enter], s, 0, cut, Right, cut);
    assert keys + [Left] + [Left] + [Left] + [Enter] + [Right] == STALE;
    LeadsToStale(s);
  }

  lemma LeadsToStale(s: Session)
    requires Leads(STALE, s, 1, ['x', NUL, 'b', 'c', NUL])
    ensures Reaches(Start(), STALE, s) && StaleBehind(s.editor)
  {
  }

  lemma Typed() returns (s: Session)
    ensures Leads(STALE[..4], s, 4, ['x', 'q', 'b', 'c', NUL])
  {
    LeadsAtStart();
    hide Leads, Start;
    s := LeadsOn([], Start(), 0, [NUL, NUL, NUL, NUL, NUL], Char('x'), ['x', NUL, NUL, NUL, NUL]);
    s := LeadsOn([] + [Char('x')], s, 1, ['x', NUL, NUL, NUL, NUL], Char('q'), ['x', 'q', NUL, NUL, NUL]);
    s := LeadsOn([] + [Char('x')] + [Char('q')], s, 2, ['x', 'q', NUL, NUL, NUL], Char('b'), ['x', 'q', 'b', NUL, NUL]);
    var keys := [] + [Char('x')] + [Char('q')] + [Char('b')];
    s := LeadsOn(keys, s, 3, ['x', 'q', 'b', NUL, NUL], Char('c'), ['x', 'q', 'b', 'c', NUL]);
    assert keys + [Char('c')] == STALE[..4];
  }

  // ---------- A session that fills the line ----------

  function Letters(n: nat): (keys: seq<Key>)
    ensures |keys| == n
  {
    seq(n, _ => Char('a'))
  }

  ghost predicate Filled(s: Session, n: nat) {
    && n < SIZE && Reaches(Start(), Letters(n), s) && Inv(s.editor)
    && s.editor.pos == n && forall i :: n <= i < SIZE ==> s.editor.buf[i] == NUL
  }

  lemma NothingFilled()
    ensures Filled(Start(), 0)
  {
  }

  lemma OneMoreLetter(s: Session, n: nat)
    requires n + 1 < SIZE && Filled(s, n)
    ensures Inv(s.editor) && Room(s.editor, Char('a')) && Filled(Press(s, Char('a')), n + 1)
  {
    var e' := Apply(s.editor, Char('a'));
    assert e'.pos == n + 1 && forall i :: n + 1 <= i < SIZE ==> e'.buf[i] == NUL;
    assert Letters(n + 1) == Letters(n) + [Char('a')];
    hide Apply, Inv, Start, Reaches, Letters;
    ReachAppend(Start(), Letters(n), s, Char('a'));
  }

  lemma FillLine() returns (s: Session)
    ensures Filled(s, SIZE - 1)
  {
    hide Filled, Press, Start;
    NothingFilled();
    s := Start();
    for n := 0 to SIZE - 1
      invariant Filled(s, n)
    {
      OneMoreLetter(s, n);
      s := Press(s, Char('a'));
    }
  }

  ghost predicate NoRoomLeft(e: Editor) {
    Inv(e) && !Room(e, Char('a'))
  }

  /** Typing 255 characters and going Home leads from the start to such a line. */
  lemma FullLineReached()
    ensures exists s: Session :: Reaches(Start(), Letters(SIZE - 1) + [Home], s) && NoRoomLeft(s.editor)
  {
    var s := FillLine();
    FullLineHasNoRoom(s.editor, 'a');
    hide Apply, Inv, Start, Reaches, Letters;
    ReachAppend(Start(), Letters(SIZE - 1), s, Home);
    assert NoRoomLeft(Press(s, Home).editor);
  }

  // ---------- Browsing the history ----------

  function UpTimes(e: Editor, k: nat): (e': Editor)
    requires Inv(e)
    ensures Inv(e')
  {
    if k == 0 then e
    else
      UpInv(UpTimes(e, k - 1));
      Apply(UpTimes(e, k - 1), Up)
  }

  function DownTimes(e: Editor, k: nat): (e': Editor)
    requires Inv(e)
    ensures Inv(e')
  {
    if k == 0 then e
    else
      DownInv(DownTimes(e, k - 1));
      Apply(DownTimes(e, k - 1), Down)
  }

  function Min(a: nat, b: nat): nat {
    if a <= b then a else b
  }

  /** Up puts the entry before the cursor. It does not clear the buffer: behind the
      cursor is what the buffer held there. */
  lemma UpShows(e: Editor)
    requires Inv(e) && e.count > 0
    ensures var e' := Apply(e, Up);
      && Inv(e') && 0 <= e'.index < e.count
      && e'.index == (if e.index == -1 then e.count - 1 else if e.index > 0 then e.index - 1 else 0)
      && Before(e') == Entry(e, e'.index) && After(e') == CStr(e.buf, e'.pos)
  {
    UpInv(e);
    EntryPlain(e, KeyUp(e).index);
    ShownGap(e, Entry(e, KeyUp(e).index), KeyUp(e));
  }

  /** So the line is the entry exactly when the buffer held a NUL behind it. */
  lemma UpExactly(e: Editor)
    requires Inv(e) && e.count > 0
    ensures var e', entry := Apply(e, Up), Entry(e, Apply(e, Up).index);
      && Inv(e') && |entry| < 256
      && (Before(e') + After(e') == entry <==> e.buf[|entry|] == NUL)
  {
    UpShows(e);
    EntryPlain(e, KeyUp(e).index);
    var entry := Entry(e, KeyUp(e).index);
    var rest := CStr(e.buf, |entry|);
    NulAhead(e, |entry|);
    assert rest == [] <==> e.buf[|entry|] == NUL;
    hide KeyUp, Inv, CStr, Entry, Before, After;
    assert |entry + rest| == |entry| + |rest|;
  }

  /** Without entries Up does nothing, and Down does nothing if no Up came before. */
  lemma NothingToBrowse(e: Editor)
    requires Inv(e)
    ensures e.count == 0 ==> Apply(e, Up) == e
    ensures e.index == -1 ==> Apply(e, Down) == e
    ensures Apply(e, Ignored) == e
  {
    hide Inv;
  }

  /** So does Down, with the next entry or the saved line. */
  lemma DownShows(e: Editor)
    requires Inv(e) && e.index != -1
    ensures var e' := Apply(e, Down);
      && Inv(e') && e'.index == (if e.index + 1 < e.count then e.index + 1 else -1)
      && Before(e') == (if e.index + 1 < e.count then Entry(e, e.index + 1) else CStr(e.saved, 0))
      && After(e') == CStr(e.buf, e'.pos)
  {
    DownInv(e);
    if e.index + 1 < e.count {
      EntryPlain(e, e.index + 1);
      ShownGap(e, Entry(e, e.index + 1), KeyDown(e));
    } else {
      CStrShort(e.saved);
      ShownGap(e, CStr(e.saved, 0), KeyDown(e));
    }
    hide Inv, CStr, Entry, Overlay, Before, After;
  }

  lemma ShownGap(e: Editor, text: seq<char>, e': Editor)
    requires Inv(e) && |text| < SIZE && e'.buf == Overlay(e.buf, text) && e'.pos == |text|
    ensures Before(e') == text && After(e') == CStr(e.buf, |text|)
  {
    NulAhead(e, |text|);
    assert forall i :: |text| <= i < SIZE ==> e'.buf[i] == e.buf[i];
    NextNulIs(e'.buf, |text|, NextNul(e.buf, |text|));
  }

  // ---------- A session in which Up leaves old text ----------

  ghost predicate Line(e: Editor, before: seq<char>, after: seq<char>, entries: seq<seq<char>>) {
    Inv(e) && e.index == -1 && GapOf(e) == Gap(before, after) && Entries(e) == entries
  }

  lemma FirstLetter()
    ensures Room(Start().editor, Char('a')) && Line(Apply(Start().editor, Char('a')), ['a'], [], [])
  {
    ApplyInv(Start().editor, Char('a'));
    AppendExtends(Start().editor, 'a');
  }

  lemma SubmitLetter(e: Editor)
    requires Line(e, ['a'], [], [])
    ensures Room(e, Enter) && Line(Apply(e, Enter), [], ['a'], [['a']])
  {
    EnterKeepsText(e);
    EnterEntries(e);
    assert Apply(e, Enter).index == -1;
    hide KeyEnter, Inv, GapOf, Entries;
  }

  lemma TypeBefore(e: Editor)
    requires Line(e, [], ['a'], [['a']])
    ensures Room(e, Char('x')) && Line(Apply(e, Char('x')), ['x'], ['a'], [['a']])
  {
    RoomExactly(e, 'x');
    MidlineInserts(e, 'x');
    ApplyInv(e, Char('x'));
    var e' := Apply(e, Char('x'));
    assert e'.index == -1 && e'.history == e.history && e'.count == e.count;
    SameEntries(e, e');
    hide Apply, Inv, Entries, GapOf;
  }

  /** The only entry is "a", and the line shows "aa". */
  ghost predicate Doubled(e: Editor) {
    Inv(e) && Entries(e) == [['a']] && GapOf(e) == Gap(['a'], ['a'])
  }

  lemma UpDoubles(e: Editor)
    requires Line(e, ['x'], ['a'], [['a']])
    ensures Room(e, Up) && Doubled(Apply(e, Up))
  {
    UpShows(e);
    var e' := Apply(e, Up);
    assert e'.history == e.history && e'.count == e.count;
    assert Entry(e, 0) == Entries(e)[0];
    assert |Before(e')| == e'.pos && |Before(e)| == e.pos;
    SameEntries(e, e');
    hide Apply, KeyUp, Inv, Entries;
  }

  lemma Onward(keys: seq<Key>, s: Session, k: Key) returns (s': Session)
    requires Inv(s.editor) && Room(s.editor, k) && (k.Char? ==> k.c != NUL)
    requires Reaches(Start(), keys, s)
    ensures Reaches(Start(), keys + [k], s') && s'.editor == Apply(s.editor, k) && Inv(s'.editor)
  {
    hide Apply, Inv, Start, Reaches, Room;
    ReachAppend(Start(), keys, s, k);
    s' := Press(s, k);
  }

  /** After a and Enter the submitted text is behind the gap. */
  lemma SubmittedLetter() returns (s: Session)
    ensures Reaches(Start(), [Char('a'), Enter], s) && Inv(s.editor) && Line(s.editor, [], ['a'], [['a']])
  {
    s := Start();
    assert Reaches(s, [], s);
    FirstLetter();
    hide Start, Reaches, Line, Apply, Inv, Room;
    s := Onward([], s, Char('a'));
    SubmitLetter(s.editor);
    s := Onward([] + [Char('a')], s, Enter);
    assert [] + [Char('a')] + [Enter] == [Char('a'), Enter];
  }

  /** Typing a, submitting it, typing x and going up leads from the start to a line
      that is not the entry. */
  lemma UpLeavesText()
    ensures exists s: Session :: Reaches(Start(), [Char('a'), Enter, Char('x'), Up], s) && Doubled(s.editor)
  {
    hide Start, Reaches, Line, Doubled, Apply, Inv, Room;
    var s := SubmittedLetter();
    TypeBefore(s.editor);
    s := Onward([Char('a'), Enter], s, Char('x'));
    UpDoubles(s.editor);
    s := Onward([Char('a'), Enter] + [Char('x')], s, Up);
    assert [Char('a'), Enter] + [Char('x')] + [Up] == [Char('a'), Enter, Char('x'), Up];
  }

  /** While browsing, the text before the cursor is the entry at history_index. */
  ghost predicate Browsing(e: Editor, e0: Editor)
    requires Inv(e) && Inv(e0)
  {
    && e.history == e0.history && e.count == e0.count && 0 <= e.index < e.count
    && Before(e) == Entry(e, e.index)
    && CStr(e.saved, 0) == Before(e0)
  }

  /** The first Up saves the line. */
  lemma UpFirst(e: Editor)
    requires Inv(e) && e.index == -1 && e.count > 0
    ensures Inv(KeyUp(e)) && Browsing(KeyUp(e), e) && KeyUp(e).index == e.count - 1
  {
    UpShows(e);
    CStrOfOverlay(e.saved, Before(e));
    hide Inv, Row, Overlay;
  }

  lemma UpNext(e: Editor, e0: Editor)
    requires Inv(e) && Inv(e0) && Browsing(e, e0)
    ensures Inv(KeyUp(e)) && Browsing(KeyUp(e), e0)
    ensures KeyUp(e).index == if e.index > 0 then e.index - 1 else 0
  {
    UpShows(e);
    hide Inv, Row, Overlay;
  }

  lemma {:induction false} UpBrowses(e: Editor, k: nat)
    requires Inv(e) && e.index == -1 && e.count > 0 && k > 0
    ensures Browsing(UpTimes(e, k), e) && UpTimes(e, k).index == e.count - Min(k, e.count)
  {
    if k == 1 {
      assert UpTimes(e, 0) == e;
      UpFirst(e);
    } else {
      UpBrowses(e, k - 1);
      UpNext(UpTimes(e, k - 1), e);
    }
    hide KeyUp, Inv, Before, Entry;
  }

  lemma DownStep(e: Editor, e0: Editor)
    requires Inv(e) && Inv(e0) && Browsing(e, e0)
    ensures var e' := KeyDown(e);
      if e.index + 1 < e.count then Inv(e') && Browsing(e', e0) && e'.index == e.index + 1
      else e'.index == -1 && e'.pos <= |e'.buf| && Before(e') == Before(e0)
  {
    DownShows(e);
    hide Inv, Row, Overlay;
  }

  lemma {:induction false} DownBrowses(e: Editor, e0: Editor, k: nat)
    requires Inv(e) && Inv(e0) && Browsing(e, e0) && e.index + k < e.count
    ensures Browsing(DownTimes(e, k), e0) && DownTimes(e, k).index == e.index + k && DownTimes(e, k).count == e.count
  {
    hide KeyDown, Inv;
    if k > 0 {
      DownBrowses(e, e0, k - 1);
      DownStep(DownTimes(e, k - 1), e0);
    }
  }

  /** Up k times and then Down as often as there were entries to pass restores the
      text before the cursor, for any k; on the way the index is in range and the text
      before the cursor is the entry at the index. */
  lemma {:induction false} UpThenDownRestores(e: Editor, k: nat)
    requires Inv(e) && e.index == -1 && e.count > 0 && k > 0
    ensures forall j :: 1 <= j <= k ==> Browsing(UpTimes(e, j), e)
    ensures forall j :: 0 <= j < Min(k, e.count) ==> Browsing(DownTimes(UpTimes(e, k), j), e)
    ensures var e' := DownTimes(UpTimes(e, k), Min(k, e.count));
      e'.index == -1 && Before(e') == Before(e)
  {
    hide KeyUp, KeyDown, Inv, Before, Entry;
    forall j | 1 <= j <= k
      ensures Browsing(UpTimes(e, j), e)
    {
      UpBrowses(e, j);
    }
    UpBrowses(e, k);
    var top := UpTimes(e, k);
    var m := Min(k, e.count);
    forall j | 0 <= j < m
      ensures Browsing(DownTimes(top, j), e)
    {
      DownBrowses(top, e, j);
    }
    DownBrowses(top, e, m - 1);
    DownStep(DownTimes(top, m - 1), e);
  }

  // ---------- When the whole line comes back ----------

  lemma OverlayAt(b: seq<char>, text: seq<char>, p: nat)
    requires p < |b| && |text| <= |b| && Plain(text)
    ensures Overlay(b, text)[p] == NUL <==> |text| <= p && b[p] == NUL
  {
  }

  /** Up leaves a NUL at p exactly if there was one and the entry does not reach it. */
  lemma UpAt(e: Editor, p: nat)
    requires Inv(e) && e.count > 0 && p < SIZE
    ensures var e' := KeyUp(e);
      && Inv(e') && 0 <= e'.index < e.count
      && (e'.buf[p] == NUL <==> |Entry(e, e'.index)| <= p && e.buf[p] == NUL)
  {
    UpShows(e);
    var text := Entry(e, KeyUp(e).index);
    EntryPlain(e, KeyUp(e).index);
    OverlayAt(e.buf, text, p);
    assert KeyUp(e).buf == Overlay(e.buf, text);
    hide KeyUp, Inv, Overlay, Entry;
  }

  /** So does Down. */
  lemma DownAt(e: Editor, p: nat)
    requires Inv(e) && e.index != -1 && p < SIZE
    ensures var e' := KeyDown(e);
      var text := if e.index + 1 < e.count then Entry(e, e.index + 1) else CStr(e.saved, 0);
      Inv(e') && (e'.buf[p] == NUL <==> |text| <= p && e.buf[p] == NUL)
  {
    DownShows(e);
    var text := if e.index + 1 < e.count then Entry(e, e.index + 1) else CStr(e.saved, 0);
    if e.index + 1 < e.count {
      EntryPlain(e, e.index + 1);
    } else {
      CStrShort(e.saved);
    }
    OverlayAt(e.buf, text, p);
    assert KeyDown(e).buf == Overlay(e.buf, text);
    hide KeyDown, Inv, Overlay, Entry, CStr;
  }

  /** No entry of e0 from index from on is longer than p. */
  ghost predicate ShortFrom(e0: Editor, from: int, p: nat)
    requires Inv(e0) && 0 <= from
  {
    forall r :: from <= r < e0.count ==> |Entry(e0, r)| <= p
  }

  lemma {:induction false} UpLeavesNul(e: Editor, k: nat, p: nat)
    requires Inv(e) && e.index == -1 && e.count > 0 && p < SIZE && e.buf[p] == NUL
    ensures UpTimes(e, k).buf[p] == NUL <==> ShortFrom(e, e.count - Min(k, e.count), p)
  {
    hide KeyUp, Inv, Before;
    if k > 0 {
      UpLeavesNul(e, k - 1, p);
      UpBrowses(e, k);
      if k > 1 {
        UpBrowses(e, k - 1);
      }
      var e1, r := UpTimes(e, k - 1), UpTimes(e, k).index;
      UpAt(e1, p);
      EntrySame(e1, e, r);
      hide Entry;
      ShortStep(e, e.count - Min(k, e.count), e.count - Min(k - 1, e.count), p);
    }
  }

  lemma EntrySame(e: Editor, e': Editor, r: nat)
    requires Inv(e) && Inv(e') && r < e.count && e'.history == e.history && e'.count == e.count
    ensures Entry(e', r) == Entry(e, r)
  {
  }

  lemma ShortStep(e0: Editor, from: int, next: int, p: nat)
    requires Inv(e0) && 0 <= from < e0.count && from <= next <= from + 1
    ensures ShortFrom(e0, from, p) <==> |Entry(e0, from)| <= p && ShortFrom(e0, next, p)
  {
    hide Inv, Entry;
  }

  lemma {:induction false} DownLeavesNul(e: Editor, e0: Editor, k: nat, p: nat)
    requires Inv(e) && Inv(e0) && Browsing(e, e0) && e.index + k < e.count && p < SIZE
    requires e.buf[p] == NUL <==> ShortFrom(e0, e.index, p)
    ensures DownTimes(e, k).buf[p] == NUL <==> ShortFrom(e0, e.index, p)
  {
    hide KeyDown, Inv, Before;
    if k > 0 {
      DownLeavesNul(e, e0, k - 1, p);
      DownBrowses(e, e0, k - 1);
      var e1 := DownTimes(e, k - 1);
      DownAt(e1, p);
      EntrySame(e1, e0, e1.index + 1);
    }
  }

  lemma EndsAt(e: Editor)
    requires Inv(e)
    ensures e.pos < SIZE && |e.buf| == SIZE
    ensures After(e) == [] <==> e.buf[e.pos] == NUL
  {
    NulAhead(e, e.pos);
  }

  /** From the end of a line, Up k times and then Down brings the whole line back
      exactly when none of the entries passed is longer than it. */
  lemma LineRestoredExactly(e: Editor, k: nat)
    requires Inv(e) && e.index == -1 && e.count > 0 && k > 0 && After(e) == []
    ensures var m := Min(k, e.count);
      var e' := DownTimes(UpTimes(e, k), m);
      && Before(e') == Before(e)
      && (After(e') == [] <==> forall r :: e.count - m <= r < e.count ==> |Entry(e, r)| <= e.pos)
  {
    hide KeyUp, KeyDown, Inv, Entry, CStr;
    var m, top := Min(k, e.count), UpTimes(e, k);
    UpThenDownRestores(e, k);
    UpBrowses(e, k);
    EndsAt(e);
    UpLeavesNul(e, k, e.pos);
    DownLeavesNul(top, e, m - 1, e.pos);
    DownBrowses(top, e, m - 1);
    DownAt(DownTimes(top, m - 1), e.pos);
    EndsAt(DownTimes(top, m));
    assert |Before(DownTimes(top, m))| == |Before(e)|;
  }

}
