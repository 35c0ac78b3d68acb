/** What the editor's operations promise together: which of them undo each other,
    and exactly when. */
module EditorLaws {
  import opened Columns
  import opened WordWrap
  import opened EditorState

  // --- Runs ------------------------------------------------------------------------

  function Run(e: Env, s: State, keys: seq<Key>): (r: State)
    requires s.Valid()
    ensures r.Valid()
    decreases |keys|
  {
    if keys == [] then s else Press(e, Run(e, s, keys[..|keys| - 1]), keys[|keys| - 1])
  }

  ghost predicate MarkRests(f: Font, s: State)
    requires s.Valid()
  {
    s.marked ==> Stable(f, s.text[s.markRow].text, s.markPos)
  }

  lemma MarkRestsAfterKey(e: Env, s: State, key: Key)
    requires s.Valid() && MarkRests(e.font, s)
    ensures MarkRests(e.font, Press(e, s, key))
  {
    hide IndexOfCol, Width, NewLine, DeleteChar, Type, Yank, JustifyHere, UndoJustify;
    IndexOfColIsLast(e.font, s.Here().text, s.col);
  }

  /** In every run the document keeps a line under the cursor and the mark stays at a
      place where the cursor could rest. */
  lemma {:induction false} RunKeepsCursorAndMark(e: Env, s: State, keys: seq<Key>)
    requires s.Valid() && MarkRests(e.font, s)
    ensures var r := Run(e, s, keys); r.row < |r.text| && MarkRests(e.font, r)
    decreases |keys|
  {
    if keys != [] {
      RunKeepsCursorAndMark(e, s, keys[..|keys| - 1]);
      MarkRestsAfterKey(e, Run(e, s, keys[..|keys| - 1]), keys[|keys| - 1]);
    }
  }

  // --- Moving and marking ------------------------------------------------------------

  lemma PressKeeps(e: Env, s: State, key: Key)
    requires s.Valid() && key.Shifted()
    ensures var r := Press(e, s, key);
      r.text == s.text && r.cut == s.cut && r.marked &&
      (r.markRow, r.markPos) == if s.marked then (s.markRow, s.markPos) else (s.row, s.Index(e.font))
  {
    hide IndexOfCol, Width;
  }

  /** However the cursor is moved with shifted keys, the marked region stays between where they
      started, or the old mark if there was one, and the cursor. Any other key but those that act
      on the region drops it. */
  lemma {:induction false} ShiftedRun(e: Env, s: State, keys: seq<Key>)
    requires s.Valid() && keys != [] && forall k :: 0 <= k < |keys| ==> keys[k].Shifted()
    ensures var r := Run(e, s, keys);
      r.text == s.text && r.cut == s.cut && r.marked &&
      ((r.markRow, r.markPos) == if s.marked then (s.markRow, s.markPos) else (s.row, s.Index(e.font)))
    ensures forall key: Key | !key.Shifted() && !key.Del? && !key.Backspace? && !key.Cut? && !key.ClearToEol? ::
      !Press(e, Run(e, s, keys), key).marked
    decreases |keys|
  {
    hide Press;
    var n := |keys| - 1;
    assert Run(e, s, []) == s;
    if n > 0 {
      ShiftedRun(e, s, keys[..n]);
    }
    PressKeeps(e, Run(e, s, keys[..n]), keys[n]);
    forall key: Key | !key.Shifted() && !key.Del? && !key.Backspace? && !key.Cut? && !key.ClearToEol?
      ensures !Press(e, Run(e, s, keys), key).marked
    {
      DropsMark(e, Run(e, s, keys), key);
    }
  }

  lemma DropsMark(e: Env, s: State, key: Key)
    requires s.Valid() && !key.Shifted() && !key.Del? && !key.Backspace? && !key.Cut? && !key.ClearToEol?
    ensures !Press(e, s, key).marked
  {
    hide IndexOfCol, Width, NewLine, Type, Yank, JustifyHere, UndoJustify, Splice;
  }

  /** UP and DOWN keep the column, and each takes the other back inside the document. */
  lemma UpAndDown(e: Env, s: State, shift: bool)
    requires s.Valid()
    ensures var up, down := Press(e, s, Up(shift)), Press(e, s, Down(shift));
      up.text == s.text && up.col == s.col && down.text == s.text && down.col == s.col &&
      (s.row > 0 ==> up.row < s.row && Press(e, up, Down(shift)).row == s.row) && (s.row == 0 ==> up.row == 0) &&
      (s.row + 1 < |s.text| ==> down.row > s.row && Press(e, down, Up(shift)).row == s.row) &&
      (s.row + 1 == |s.text| ==> down.row == s.row)
  {
    hide IndexOfCol, Width;
  }

  /** END goes to the end of the line whatever it ends in, HOME to its start exactly if the cursor
      can rest there. */
  lemma HomeAndEnd(e: Env, s: State, shift: bool)
    requires s.Valid()
    ensures var home, end := Press(e, s, Home(shift)), Press(e, s, End(shift));
      home.text == s.text && home.row == s.row && end.text == s.text && end.row == s.row &&
      (home.Index(e.font) == 0 <==> Stable(e.font, s.Here().text, 0)) && end.Index(e.font) == |s.Here().text|
  {
    hide IndexOfCol, Width, Stable;
    RestAtEnd(e.font, s.Here().text);
    HomeRests(e.font, s.Here().text);
  }

  lemma HomeRests(f: Font, line: seq<char>)
    ensures IndexOfCol(f, line, 0) == 0 <==> Stable(f, line, 0)
  {
    assert PrefixCol(f, line, 0) == 0;
    ColumnRoundTrip(f, line, 0);
  }

  // --- Replacing lines -------------------------------------------------------------

  /** Reading the new lines in chunks makes a difference exactly when the range to
      replace does not exist and a second chunk finds its place in the document. */
  lemma ChunksMatter(s: State, start: nat, cnt: nat, lines: seq<Line>)
    requires s.text != []
    ensures ReplaceLines(s, start, cnt, lines, true) == ReplaceLines(s, start, cnt, lines, false) <==>
      (start + cnt <= |s.text| || |lines| <= CHUNK || |s.text| < start + CHUNK)
  {
    if |s.text| < start + cnt && |lines| > CHUNK && start + CHUNK <= |s.text| {
      assert |ReplaceLines(s, start, cnt, lines, true).text| > |s.text|;
    }
  }

  // --- ENTER and BACKSPACE -----------------------------------------------------------

  lemma AfterEnter(f: Font, s: State)
    requires s.Valid()
    ensures var a := PressEnter(f, s);
      !a.marked && a.row == s.row + 1 && a.col == 0 && a.cut == s.cut &&
      a.text == Splice(s.text, s.row, 1, [Line(s.Before(f), false), Line(s.After(f), s.Here().flowed)])
  {}

  lemma BackspaceAtStart(f: Font, a: State)
    requires a.Valid() && !a.marked && a.row > 0 && a.Index(f) == 0
    ensures var r, above := PressBackspace(f, a), a.text[a.row - 1].text;
      r.row == a.row - 1 && r.col == Width(f, above) && r.cut == a.cut &&
      r.text == Splice(a.text, a.row - 1, 2, [Line(above + a.Here().text, a.Here().flowed)])
  {
    hide IndexOfCol, Width, Splice;
    var above := a.text[a.row - 1].text;
    RestAtEnd(f, above);
    assert above[..|above|] == above && above[|above|..] == [];
  }

  // The cursor can rest at the start of what is left of a line after it.
  lemma RestAtStartOfRest(f: Font, line: seq<char>, col: nat)
    ensures var i := IndexOfCol(f, line, col);
      IndexOfCol(f, line[i..], 0) == 0 && IndexOfCol(f, line, Width(f, line[..i])) == i
  {
    IndexOfColIsLast(f, line, col);
    var i := IndexOfCol(f, line, col);
    assert line == line[..i] + line[i..];
    JoinsMeans(f, line[..i], line[i..]);
    assert PrefixCol(f, line[i..], 0) == 0;
    ColumnRoundTrip(f, line[i..], 0);
    ColumnRoundTrip(f, line, i);
  }

  /** BACKSPACE right after ENTER restores the document, flags included, and the
      cursor's place, wherever the cursor was. */
  lemma EnterThenBackspace(f: Font, s: State)
    requires s.Valid()
    ensures var r := PressBackspace(f, PressEnter(f, s));
      r.text == s.text && r.row == s.row && r.Index(f) == s.Index(f) && r.cut == s.cut
  {
    hide PressEnter, PressBackspace, IndexOfCol, Width, Splice;
    var a, line := PressEnter(f, s), s.Here();
    var halves := [Line(s.Before(f), false), Line(s.After(f), line.flowed)];
    AfterEnter(f, s);
    SpliceAt(s.text, s.row, 1, halves);
    assert a.text[s.row + 0] == halves[0] && a.text[s.row + 1] == halves[1];
    RestAtStartOfRest(f, line.text, s.col);
    BackspaceAtStart(f, a);
    assert s.Before(f) + s.After(f) == line.text;
    SpliceAndBack(s.text, s.row, halves);
  }

  lemma SpliceAndBack(text: seq<Line>, row: nat, lines: seq<Line>)
    requires row < |text|
    ensures Splice(Splice(text, row, 1, lines), row, |lines|, [text[row]]) == text
  {}

  // --- RIGHT and LEFT ------------------------------------------------------------------

  // Whether the place that RIGHT moves to is one where the cursor can rest.
  predicate LandsRight(f: Font, s: State)
    requires s.Valid() && (s.Index(f) < |s.Here().text| || s.row + 1 < |s.text|)
  {
    if s.Index(f) < |s.Here().text| then Stable(f, s.Here().text, NextBoundary(f, s.Here().text, s.Index(f)))
    else Stable(f, s.text[s.row + 1].text, 0)
  }

  lemma LeftFromBoundary(f: Font, line: seq<char>, k: nat)
    requires k < |line| && Stable(f, line, k)
    ensures var n := NextBoundary(f, line, k);
      var i := IndexOfCol(f, line, PrefixCol(f, line, n));
      i > 0 && (IndexOfCol(f, line, PrefixCol(f, line, PrevBoundary(f, line, i))) == k <==> Stable(f, line, n))
  {
    var n := NextBoundary(f, line, k);
    var i := IndexOfCol(f, line, PrefixCol(f, line, n));
    IndexOfColIsLast(f, line, PrefixCol(f, line, n));
    ColumnRoundTrip(f, line, n);
    NextBoundaryMeans(f, line, k);
    PrevBoundaryMeans(f, line, if i > 0 then i else |line|);
    PrefixColMonotone(f, line, k, n);
    VisibleIffWide(f, line[k..n], PrefixCol(f, line, k));
    assert i >= n;
    var p := PrevBoundary(f, line, i);
    if Stable(f, line, n) {
      assert Boundary(f, line, k) && Boundary(f, line, p) && p == k;
      ColumnRoundTrip(f, line, k);
    } else {
      assert i > n && Boundary(f, line, n);
      assert p >= n;
      PrefixColMonotone(f, line, n, p);
      PrefixColMonotone(f, line, k, p);
      IndexOfColIsLast(f, line, PrefixCol(f, line, p));
      assert IndexOfCol(f, line, PrefixCol(f, line, p)) != k;
    }
  }

  /** Away from the end of the document, RIGHT then LEFT returns the cursor to where
      it was exactly when RIGHT moved it to a place where it can rest. */
  lemma RightThenLeft(f: Font, s: State)
    requires s.Valid() && (s.Index(f) < |s.Here().text| || s.row + 1 < |s.text|)
    ensures var r := PressLeft(f, PressRight(f, s, false), false);
      r.text == s.text &&
      ((r.row == s.row && r.Index(f) == s.Index(f)) <==> LandsRight(f, s))
  {
    var line, k := s.Here().text, s.Index(f);
    IndexOfColIsLast(f, line, s.col);
    if k < |line| {
      LeftFromBoundary(f, line, k);
    } else {
      var next := s.text[s.row + 1].text;
      assert PrefixCol(f, next, 0) == 0;
      ColumnRoundTrip(f, next, 0);
      RestAtEnd(f, line);
    }
  }

  // --- Cutting and pasting -------------------------------------------------------------

  // Text that commutes with invisible text is invisible.
  lemma {:induction false} CommutesInvisibly(f: Font, a: seq<char>, b: seq<char>, i: nat)
    requires a + b == b + a && a != [] && i < |b| && !Visible(f, a)
    ensures f.CharWidth(b[i], 0) == 0
  {
    if i < |a| {
      assert (a + b)[i] == a[i] && (b + a)[i] == b[i];
    } else {
      assert (a + b)[i] == b[i - |a|] && (b + a)[i] == b[i];
      CommutesInvisibly(f, a, b, i - |a|);
    }
  }

  // Text pasted past the join of its surroundings: it would have to commute with
  // the invisible text that the cursor skipped.
  lemma PastedPast(f: Font, p: seq<char>, c: seq<char>, gap: seq<char>, rest: seq<char>)
    requires gap != [] && !Visible(f, gap) && Visible(f, c)
    ensures p + gap + c + rest != p + c + gap + rest
  {
    if p + gap + c + rest == p + c + gap + rest {
      var n := |p| + |gap| + |c|;
      assert (p + gap + c + rest)[|p|..n] == gap + c;
      assert (p + c + gap + rest)[|p|..n] == c + gap;
      var v :| 0 <= v < |c| && f.CharWidth(c[v], 0) > 0;
      CommutesInvisibly(f, gap, c, v);
    }
  }

  // Text pasted before the join: it would have to end in the character that runs
  // into what follows.
  lemma PastedBefore(f: Font, head: seq<char>, tail: seq<char>, c: seq<char>, s: seq<char>)
    requires tail != [] && c != [] && s != []
    requires f.Breaks(c[|c| - 1], s[0]) && !f.Breaks(tail[|tail| - 1], s[0])
    ensures head + c + tail + s != head + tail + c + s
  {
    var n := |head| + |c| + |tail|;
    assert (head + c + tail + s)[n - 1] == tail[|tail| - 1];
    assert (head + tail + c + s)[n - 1] == c[|c| - 1];
  }

  lemma PastedElsewhere(f: Font, p: seq<char>, c: seq<char>, s: seq<char>)
    requires c != [] && Visible(f, c) && (s != [] ==> f.Breaks(c[|c| - 1], s[0]))
    requires !Joins(f, p, s)
    ensures var i := IndexOfCol(f, p + s, Width(f, p)); (p + s)[..i] + c + (p + s)[i..] != p + c + s
  {
    hide Joins, Visible;
    var m := p + s;
    var i := IndexOfCol(f, m, Width(f, p));
    IndexOfColIsLast(f, m, Width(f, p));
    JoinColumn(f, p, s);
    assert m[..|p|] == p;
    if i > |p| {
      PrefixColMonotone(f, m, |p|, i);
      VisibleIffWide(f, m[|p|..i], Width(f, p));
      InsertedPast(f, p, c, s, i);
    } else {
      assert !Boundary(f, m, |p|);
      InsertedBefore(f, p, c, s, i);
    }
  }

  lemma InsertedPast(f: Font, p: seq<char>, c: seq<char>, s: seq<char>, i: nat)
    requires |p| < i <= |p + s| && Visible(f, c) && !Visible(f, (p + s)[|p|..i])
    ensures (p + s)[..i] + c + (p + s)[i..] != p + c + s
  {
    var gap, rest := (p + s)[|p|..i], (p + s)[i..];
    PastedPast(f, p, c, gap, rest);
    assert (p + s)[..i] == p + gap && s == gap + rest;
    assert p + c + s == p + c + gap + rest;
  }

  lemma InsertedBefore(f: Font, p: seq<char>, c: seq<char>, s: seq<char>, i: nat)
    requires i < |p| && c != [] && s != []
    requires f.Breaks(c[|c| - 1], s[0]) && !f.Breaks(p[|p| - 1], s[0])
    ensures (p + s)[..i] + c + (p + s)[i..] != p + c + s
  {
    var head, tail := p[..i], p[i..];
    PastedBefore(f, head, tail, c, s);
    assert (p + s)[..i] == head && (p + s)[i..] == tail + s && p == head + tail;
    assert head + c + (tail + s) == head + c + tail + s;
  }

  // A region on one line that starts where the cursor can rest is visible.
  lemma RegionVisible(f: Font, line: seq<char>, i: nat, j: nat)
    requires i < j <= |line| && Stable(f, line, i) && Boundary(f, line, j)
    ensures Visible(f, line[i..j])
  {
    var n := NextBoundary(f, line, i);
    NextBoundaryMeans(f, line, i);
    var v :| 0 <= v < n - i && f.CharWidth(line[i..n][v], 0) > 0;
    assert line[i..j][v] == line[i..n][v];
  }

  lemma ExcerptParts(text: seq<Line>, g: Region)
    requires g.In(text)
    ensures var e, n := Excerpt(text, g), g.row2 - g.row1;
      |e| == n + 1 &&
      (n == 0 ==> e[0].text == text[g.row1].text[g.pos1..g.pos2]) &&
      (n > 0 ==> e[0] == Line(text[g.row1].text[g.pos1..], text[g.row1].flowed) &&
                 e[n].text == text[g.row2].text[..g.pos2]) &&
      forall i :: 0 < i < n ==> e[i] == text[g.row1 + i]
  {
    var e, n := Excerpt(text, g), g.row2 - g.row1;
    var l := text[g.row2].text;
    assert n == 0 ==> l[..g.pos2][g.pos1..] == l[g.pos1..g.pos2];
    assert e[0] == ExcerptLine(text, g, g.row1) && e[n] == ExcerptLine(text, g, g.row2);
    forall i | 0 < i < n ensures e[i] == text[g.row1 + i] {
      assert e[i] == ExcerptLine(text, g, g.row1 + i);
    }
  }

  // Pasting the excerpt back at the place it was cut from.
  lemma PastedExcerpt(text: seq<Line>, g: Region)
    requires g.In(text)
    ensures Pasted(text[g.row1].text[..g.pos1], text[g.row2].text[g.pos2..], text[g.row2].flowed, Excerpt(text, g))
      == text[g.row1..g.row2 + 1]
  {
    hide Excerpt, Pasted;
    var first, last := text[g.row1].text, text[g.row2].text;
    var e, n := Excerpt(text, g), g.row2 - g.row1;
    ExcerptParts(text, g);
    if n == 0 {
      PastedOne(first[..g.pos1], last[g.pos2..], text[g.row2].flowed, e);
      assert first[..g.pos1] + first[g.pos1..g.pos2] + first[g.pos2..] == first;
      assert text[g.row1..g.row2 + 1] == [text[g.row1]];
    } else {
      assert first[..g.pos1] + first[g.pos1..] == first && last[..g.pos2] + last[g.pos2..] == last;
      SameSlice(e, text, g.row1, n);
      PastedMany(first[..g.pos1], last[g.pos2..], text[g.row2].flowed, e);
      SliceEnds(text, g.row1, g.row2);
    }
  }

  lemma SameSlice(e: seq<Line>, text: seq<Line>, row: nat, n: nat)
    requires 0 < n <= |e| && row + n <= |text| && forall i :: 0 < i < n ==> e[i] == text[row + i]
    ensures e[1..n] == text[row + 1..row + n]
  {
    forall i | 0 <= i < n - 1 ensures e[1..n][i] == text[row + 1..row + n][i] {
      assert e[i + 1] == text[row + (i + 1)];
    }
  }

  lemma SliceEnds(text: seq<Line>, i: nat, j: nat)
    requires i < j < |text|
    ensures text[i..j + 1] == [text[i]] + text[i + 1..j] + [text[j]]
  {}

  lemma PasteExcerptBack(text: seq<Line>, g: Region)
    requires g.In(text)
    ensures var p, s := text[g.row1].text[..g.pos1], text[g.row2].text[g.pos2..];
      Splice(Splice(text, g.row1, g.row2 + 1 - g.row1, [Remainder(text, g)]), g.row1, 1,
             Pasted(p, s, text[g.row2].flowed, Excerpt(text, g))) == text
  {
    hide Excerpt, Remainder, Pasted, Splice;
    PastedExcerpt(text, g);
    PasteInto(text, g.row1, g.row2, Remainder(text, g), text[g.row1..g.row2 + 1]);
  }

  lemma PasteInto(text: seq<Line>, row1: nat, row2: nat, line: Line, lines: seq<Line>)
    requires row1 <= row2 < |text| && lines == text[row1..row2 + 1]
    ensures Splice(Splice(text, row1, row2 + 1 - row1, [line]), row1, 1, lines) == text
  {}

  lemma AfterCut(f: Font, s: State)
    requires s.Valid() && s.marked && !Marked(f, s).0.Empty()
    ensures var g := Marked(f, s).0;
      var a := PressCut(f, s);
      a.text == Splice(s.text, g.row1, g.row2 + 1 - g.row1, [Remainder(s.text, g)]) && a.row == g.row1 &&
      a.Here() == Remainder(s.text, g) && a.col == Width(f, s.text[g.row1].text[..g.pos1]) &&
      a.cut == Excerpt(s.text, g)
  {
    hide Excerpt, Remainder, IndexOfCol, Width;
    var g := Marked(f, s).0;
    SpliceAt(s.text, g.row1, g.row2 + 1 - g.row1, [Remainder(s.text, g)]);
  }

  lemma AfterPaste(f: Font, a: State)
    requires a.Valid() && a.cut != []
    ensures var n := |a.cut| - 1;
      var r := PressPaste(f, a);
      r.text == Splice(a.text, a.row, 1, Pasted(a.Before(f), a.After(f), a.Here().flowed, a.cut)) &&
      r.row == a.row + n && r.col == Width(f, (if n == 0 then a.Before(f) else []) + a.cut[n].text)
  {}

  lemma DeleteIgnoresKey(f: Font, s: State, key: Key)
    requires s.Valid()
    ensures DeleteChar(f, s.(lastKey := key), false) == DeleteChar(f, s, false).(lastKey := key)
  {
    hide IndexOfCol, Width, Splice, Remainder, DropGrapheme, CutBufferAfter;
  }

  lemma LeftIgnoresKey(f: Font, s: State, key: Key)
    requires s.Valid()
    ensures MoveLeft(f, s.(lastKey := key)) == MoveLeft(f, s).(lastKey := key)
  {
    hide IndexOfCol, Width;
  }

  /** CUT does nothing without a mark. With one, DELETE does what CUT does, and BACKSPACE what
      SHIFT and LEFT, then DELETE do: the region it deletes ends one grapheme earlier. */
  lemma RegionKeys(f: Font, s: State)
    requires s.Valid()
    ensures var r := PressCut(f, s);
      !s.marked ==> r.text == s.text && r.row == s.row && r.col == s.col && r.cut == s.cut && !r.marked
    ensures s.marked ==> PressDel(f, s) == PressCut(f, s).(lastKey := Del)
    ensures s.marked ==> PressBackspace(f, s) == PressDel(f, PressLeft(f, s, true)).(lastKey := Backspace)
  {
    hide DeleteChar, MoveLeft;
    if s.marked {
      DeleteIgnoresKey(f, s, Del);
      DeleteIgnoresKey(f, s, Cut);
      LeftIgnoresKey(f, s, Backspace);
      LeftIgnoresKey(f, s, Left(true));
      DeleteIgnoresKey(f, MoveLeft(f, s), Backspace);
      DeleteIgnoresKey(f, MoveLeft(f, s), Del);
    }
  }

  // The document when the excerpt is pasted at the place where the cursor comes to
  // rest after the cut.
  function PastedBack(f: Font, text: seq<Line>, g: Region): seq<Line>
    requires g.In(text)
  {
    var m := Remainder(text, g);
    var i := IndexOfCol(f, m.text, Width(f, text[g.row1].text[..g.pos1]));
    Splice(Splice(text, g.row1, g.row2 + 1 - g.row1, [m]), g.row1, 1,
           Pasted(m.text[..i], m.text[i..], m.flowed, Excerpt(text, g)))
  }

  lemma PastedBackRestores(f: Font, text: seq<Line>, g: Region)
    requires g.In(text) && Joins(f, text[g.row1].text[..g.pos1], text[g.row2].text[g.pos2..])
    ensures PastedBack(f, text, g) == text
  {
    var p, q := text[g.row1].text[..g.pos1], text[g.row2].text[g.pos2..];
    JoinColumn(f, p, q);
    assert (p + q)[..|p|] == p && (p + q)[|p|..] == q;
    PasteExcerptBack(text, g);
  }

  // The first line of that document.
  lemma PastedBackFirst(f: Font, text: seq<Line>, g: Region)
    requires g.In(text)
    ensures var m, line := Remainder(text, g).text, text[g.row1].text;
      var i := IndexOfCol(f, m, Width(f, line[..g.pos1]));
      g.row1 < |PastedBack(f, text, g)| &&
      PastedBack(f, text, g)[g.row1].text ==
        m[..i] + if g.row1 == g.row2 then line[g.pos1..g.pos2] + m[i..] else line[g.pos1..]
  {
    hide Excerpt, Remainder, IndexOfCol, Width;
    ExcerptParts(text, g);
    if g.row1 == g.row2 {
      var m, c := Remainder(text, g).text, text[g.row1].text[g.pos1..g.pos2];
      var i := IndexOfCol(f, m, Width(f, text[g.row1].text[..g.pos1]));
      assert m[..i] + c + m[i..] == m[..i] + (c + m[i..]);
    }
  }

  lemma PastedBackDiffers(f: Font, text: seq<Line>, g: Region)
    requires g.In(text) && !g.Empty() && !Joins(f, text[g.row1].text[..g.pos1], text[g.row2].text[g.pos2..])
    requires Stable(f, text[g.row1].text, g.pos1) && Stable(f, text[g.row2].text, g.pos2)
    ensures PastedBack(f, text, g) != text
  {
    hide PastedBack, Joins, Visible, IndexOfCol, Width;
    var line := text[g.row1].text;
    var p, q := line[..g.pos1], text[g.row2].text[g.pos2..];
    var i := IndexOfCol(f, p + q, Width(f, p));
    JoinColumn(f, p, q);
    PastedBackFirst(f, text, g);
    if g.row1 == g.row2 {
      PieceElsewhere(f, line, g.pos1, g.pos2);
    }
  }

  // The same within one line.
  lemma PieceElsewhere(f: Font, line: seq<char>, i: nat, j: nat)
    requires i < j <= |line| && Stable(f, line, i) && Stable(f, line, j) && !Joins(f, line[..i], line[j..])
    ensures var m := line[..i] + line[j..];
      var k := IndexOfCol(f, m, Width(f, line[..i]));
      m[..k] + (line[i..j] + m[k..]) != line
  {
    hide Joins, Visible, IndexOfCol, Width;
    var p, c, q := line[..i], line[i..j], line[j..];
    var k := IndexOfCol(f, p + q, Width(f, p));
    assert p + c + q == line;
    RegionVisible(f, line, i, j);
    PastedElsewhere(f, p, c, q);
    assert (p + q)[..k] + c + (p + q)[k..] == (p + q)[..k] + (c + (p + q)[k..]);
  }

  lemma CutThenPasteCursor(f: Font, text: seq<Line>, g: Region)
    requires g.In(text) && Stable(f, text[g.row2].text, g.pos2)
    ensures var n := g.row2 - g.row1;
      IndexOfCol(f, text[g.row2].text,
        Width(f, (if n == 0 then text[g.row1].text[..g.pos1] else []) + Excerpt(text, g)[n].text)) == g.pos2
  {
    var n := g.row2 - g.row1;
    ExcerptParts(text, g);
    assert n == 0 ==> text[g.row1].text[..g.pos1] + text[g.row1].text[g.pos1..g.pos2] == text[g.row2].text[..g.pos2];
    assert (if n == 0 then text[g.row1].text[..g.pos1] else []) + Excerpt(text, g)[n].text
      == text[g.row2].text[..g.pos2];
    ColumnRoundTrip(f, text[g.row2].text, g.pos2);
  }

  lemma RegionRests(f: Font, s: State)
    requires s.Valid() && s.marked && MarkRests(f, s)
    ensures var g := Marked(f, s).0;
      Stable(f, s.text[g.row1].text, g.pos1) && Stable(f, s.text[g.row2].text, g.pos2)
  {
    IndexOfColIsLast(f, s.Here().text, s.col);
  }

  /** Pasting right after cutting a marked region restores the whole document, flags
      included, exactly when the cursor can rest where the two ends of the region
      meet; the cursor is then at the end of the region. */
  lemma CutThenPaste(f: Font, s: State)
    requires s.Valid() && s.marked && !Marked(f, s).0.Empty() && MarkRests(f, s)
    ensures var g := Marked(f, s).0;
      var r := PressPaste(f, PressCut(f, s));
      (r.text == s.text <==> Joins(f, s.text[g.row1].text[..g.pos1], s.text[g.row2].text[g.pos2..])) &&
      (r.text == s.text ==> r.row == g.row2 && r.Index(f) == g.pos2)
  {
    hide PressCut, PressPaste, Marked, Joins, MarkRests, Stable;
    var g := Marked(f, s).0;
    RegionRests(f, s);
    AfterCut(f, s);
    AfterPaste(f, PressCut(f, s));
    if Joins(f, s.text[g.row1].text[..g.pos1], s.text[g.row2].text[g.pos2..]) {
      PastedBackRestores(f, s.text, g);
      JoinColumn(f, s.text[g.row1].text[..g.pos1], s.text[g.row2].text[g.pos2..]);
      CutThenPasteCursor(f, s.text, g);
    } else {
      PastedBackDiffers(f, s.text, g);
    }
  }

  // A character that joins with its like, as the first letters of a Hangul syllable do.
  predicate Joining(f: Font, ch: char) { f.Class(ch) == L && f.wcwidth(ch) == 2 && ch != '\t' }

  lemma JoiningColumns(f: Font, a: char, b: char)
    requires Joining(f, a) && Joining(f, b) && Ordinary(f, 'x')
    ensures Width(f, [a]) == 2 && IndexOfCol(f, [a, 'x', b], 3) == 2 && IndexOfCol(f, [a, b], 2) == 0
  {
    var line, pair := [a, 'x', b], [a, b];
    assert line[..1] == [a] && line[..2] == [a, 'x'] && [a][..1] == [a] && pair[..2] == pair;
    ColumnAfter(f, [a], 0);
    ColumnAfter(f, line, 1);
    assert line[2..3][0] == b;
    ColumnRoundTrip(f, line, 2);
    ColumnAfter(f, pair, 1);
    assert pair[..1] == [a];
    assert NextBoundary(f, pair, 0) == 2;
  }

  /** A region for which it fails: cutting the x from between two letters that join puts it,
      pasted, in front of both. */
  lemma CutJoins(f: Font, a: char, b: char)
    requires Joining(f, a) && Joining(f, b) && Ordinary(f, 'x')
    ensures var s := State([Line([a, 'x', b], false)], 0, 3, true, 0, 1, [], NoKey);
      s.Index(f) == 2 && PressPaste(f, PressCut(f, s)).text == [Line(['x', a, b], false)]
  {
    hide PressCut, PressPaste, IndexOfCol, Width;
    var s := State([Line([a, 'x', b], false)], 0, 3, true, 0, 1, [], NoKey);
    var g := Region(0, 1, 0, 2);
    JoiningColumns(f, a, b);
    assert Marked(f, s).0 == g;
    AfterCut(f, s);
    assert [a, 'x', b][..1] == [a] && [a, 'x', b][2..] == [b] && [a] + [b] == [a, b];
    ExcerptParts(s.text, g);
    assert [a, 'x', b][1..2] == "x" && Excerpt(s.text, g)[0] == ExcerptLine(s.text, g, 0);
    AfterPaste(f, PressCut(f, s));
    assert [a, b][..0] + "x" + [a, b][0..] == ['x', a, b];
  }

  // --- Justifying twice -------------------------------------------------------------------

  lemma {:induction false} BlockStartInside(text: seq<Line>, from: nat, k: nat)
    requires from <= k <= |text| && (forall i :: from <= i < k ==> Justifiable(text[i]))
    requires from == 0 || !Justifiable(text[from - 1])
    ensures BlockStart(text, k) == from
  {
    if from < k {
      BlockStartInside(text, from, k - 1);
    }
  }

  // What justifying leaves behind.
  lemma AfterJustify(e: Env, s: State)
    requires s.Valid() && !s.lastKey.Justify? && Justifiable(s.Here())
    ensures var start, end := BlockStart(s.text, s.row), BlockEnd(s.text, s.row);
      var lines := Rewrapped(e, s.text, start, end);
      var a := PressJustify(e, s);
      start <= s.row < end && a.text == Splice(s.text, start, end - start, lines) &&
      a.row == start + |lines| - 1 && a.cut == s.text[start..end] && a.lastKey.Justify? && !a.marked
  {
    hide Splice, BlockStart, BlockEnd, Rewrapped;
    var start, end := BlockStart(s.text, s.row), BlockEnd(s.text, s.row);
    BlockEndFrom(s.text, s.row, s.row + 1);
    SpliceLength(s.text, start, end - start, Rewrapped(e, s.text, start, end));
  }

  lemma SpliceBack(text: seq<Line>, start: nat, end: nat, lines: seq<Line>)
    requires start <= end <= |text|
    ensures Splice(Splice(text, start, end - start, lines), start, |lines|, text[start..end]) == text
  {}

  // The document when justifying is undone.
  function Undone(text: seq<Line>, start: nat, end: nat, lines: seq<Line>): seq<Line>
    requires start <= end <= |text|
  {
    var t := Splice(text, start, end - start, lines);
    var from := BlockStart(t, start + |lines|);
    Splice(t, from, start + |lines| - from, text[start..end])
  }

  lemma UndoneRestores(text: seq<Line>, start: nat, end: nat, lines: seq<Line>)
    requires start < end <= |text| && (start == 0 || !Justifiable(text[start - 1]))
    requires forall i :: 0 <= i < |lines| ==> Justifiable(lines[i])
    ensures Undone(text, start, end, lines) == text
  {
    var t := Splice(text, start, end - start, lines);
    forall i | start <= i < start + |lines| ensures Justifiable(t[i]) {
      assert t[i] == lines[i - start];
    }
    assert start > 0 ==> t[start - 1] == text[start - 1];
    BlockStartInside(t, start, start + |lines|);
    SpliceBack(text, start, end, lines);
  }

  lemma UndoneDiffers(text: seq<Line>, start: nat, end: nat, lines: seq<Line>, i: nat)
    requires start < end <= |text| && i < |lines| && !Justifiable(lines[i])
    ensures |Undone(text, start, end, lines)| > |text|
  {
    var t := Splice(text, start, end - start, lines);
    BlockStartMeans(t, start + |lines|);
    assert t[start + i] == lines[i];
  }

  lemma AfterUndo(e: Env, a: State)
    requires a.Valid() && a.lastKey.Justify? && a.cut != []
    ensures var from := BlockStart(a.text, a.row + 1);
      PressJustify(e, a).text == Splice(a.text, from, a.row + 1 - from, a.cut)
  {}

  lemma AfterJustifyTwice(e: Env, s: State)
    requires s.Valid() && !s.lastKey.Justify? && Justifiable(s.Here())
    ensures var start, end := BlockStart(s.text, s.row), BlockEnd(s.text, s.row);
      PressJustify(e, PressJustify(e, s)).text == Undone(s.text, start, end, Rewrapped(e, s.text, start, end))
  {
    hide PressJustify, Rewrapped;
    AfterJustify(e, s);
    AfterUndo(e, PressJustify(e, s));
  }

  /** Justifying again right away restores the document, flags included, exactly when
      every line of the justified paragraph could itself be justified. */
  lemma JustifyTwice(e: Env, s: State)
    requires s.Valid() && !s.lastKey.Justify? && Justifiable(s.Here())
    ensures var start, end := BlockStart(s.text, s.row), BlockEnd(s.text, s.row);
      var lines := Rewrapped(e, s.text, start, end);
      PressJustify(e, PressJustify(e, s)).text == s.text <==>
        (forall i :: 0 <= i < |lines| ==> Justifiable(lines[i]))
  {
    var start, end := BlockStart(s.text, s.row), BlockEnd(s.text, s.row);
    var lines := Rewrapped(e, s.text, start, end);
    BlockStartMeans(s.text, s.row);
    BlockEndFrom(s.text, s.row, s.row + 1);
    AfterJustifyTwice(e, s);
    if i :| 0 <= i < |lines| && !Justifiable(lines[i]) {
      UndoneDiffers(s.text, start, end, lines, i);
    } else {
      UndoneRestores(s.text, start, end, lines);
    }
  }

  // --- DELETE and BACKSPACE -------------------------------------------------------------

  /** The texts that DELETE treats right. Every grapheme after the first is a single
      character, and from its second character on the text repeats with the period n - 1,
      where n is the length of the first grapheme. */
  predicate DropsOne(f: Font, after: seq<char>)
    requires after != []
  {
    var n := NextBoundary(f, after, 0);
    GraphemeCount(f, after[n..]) == |after[n..]| &&
    forall k :: n <= k < |after| ==> after[k - (n - 1)] == after[k]
  }

  lemma DropsOneMeans(f: Font, after: seq<char>)
    requires after != []
    ensures DropGrapheme(f, after) == after[NextBoundary(f, after, 0)..] <==> DropsOne(f, after)
  {
    var n, c := NextBoundary(f, after, 0), GraphemeCount(f, after);
    var drop, tail := after[1..c], after[n..];
    assert c == 1 + GraphemeCount(f, tail);
    if drop == tail {
      forall k | n <= k < |after| ensures after[k - (n - 1)] == after[k] {
        assert drop[k - n] == tail[k - n];
      }
    }
    if DropsOne(f, after) {
      forall k | 0 <= k < |tail| ensures drop[k] == tail[k] {
        assert after[(n + k) - (n - 1)] == after[n + k];
      }
    }
  }

  /** DELETE without a region changes one line, or joins two: all other lines, the cut buffer and
      the row stay, the line keeps its flag or gets that of the line joined to it, and the cursor
      stays behind what was before it. */
  lemma AfterDelete(f: Font, s: State)
    requires s.Valid() && !s.marked
    ensures var r, after, line := PressDel(f, s), s.After(f), s.Here();
      r.row == s.row && r.cut == s.cut && !r.marked &&
      if after != [] then
        r.text == s.text[s.row := Line(s.Before(f) + DropGrapheme(f, after), line.flowed)] && r.col == Width(f, s.Before(f))
      else if s.row + 1 < |s.text| then
        var next := s.text[s.row + 1];
        r.text == Splice(s.text, s.row, 2, [Line(line.text + next.text, next.flowed)]) && r.col == Width(f, line.text)
      else r.text == s.text && r.col == s.col
  {
    assert s.After(f) == [] ==> s.Before(f) == s.Here().text;
  }

  /** DELETE removes exactly the grapheme under the cursor if and only if the text from
      there on is one of those: the number of graphemes is used as a number of characters,
      and what is over is lost from the end of the line. */
  lemma DeleteIsExact(f: Font, s: State)
    requires s.Valid() && !s.marked && s.After(f) != []
    ensures var after := s.After(f);
      PressDel(f, s).Here().text == s.Before(f) + after[NextBoundary(f, after, 0)..] <==> DropsOne(f, after)
  {
    hide PressDel, DropsOne, DropGrapheme;
    var before, after := s.Before(f), s.After(f);
    var n := NextBoundary(f, after, 0);
    AfterDelete(f, s);
    DropsOneMeans(f, after);
    assert (before + DropGrapheme(f, after))[|before|..] == DropGrapheme(f, after);
    assert (before + after[n..])[|before|..] == after[n..];
  }

  /** A line for which it fails: with the cursor on a letter with a combining mark, DELETE
      leaves the mark and loses the last character of the line. */
  lemma DeleteCutsTail(f: Font, mark: char)
    requires Ordinary(f, 'e') && Ordinary(f, 'x') && Ordinary(f, 'y') && Combining(f, mark)
    ensures var s := State([Line(['e', mark, 'x', 'y'], false)], 0, 0, false, 0, 0, [], NoKey);
      s.Index(f) == 0 && NextBoundary(f, s.Here().text, 0) == 2 && PressDel(f, s).Here().text == [mark, 'x']
  {
    hide PressDel, IndexOfCol, GraphemeCount;
    var line := ['e', mark, 'x', 'y'];
    var s := State([Line(line, false)], 0, 0, false, 0, 0, [], NoKey);
    MarkedLetter(f, mark);
    assert line[0..] == line;
    AfterDelete(f, s);
    assert [] + line[1..3] == [mark, 'x'];
  }

  lemma MarkedLetter(f: Font, mark: char)
    requires Ordinary(f, 'e') && Ordinary(f, 'x') && Ordinary(f, 'y') && Combining(f, mark)
    ensures var line := ['e', mark, 'x', 'y'];
      NextBoundary(f, line, 0) == 2 && GraphemeCount(f, line) == 3 && IndexOfCol(f, line, 0) == 0
  {
    var line := ['e', mark, 'x', 'y'];
    assert NextBoundary(f, line, 0) == 2;
    assert line[2..] == "xy" && "xy"[1..] == "y" && "y"[1..] == [];
    assert GraphemeCount(f, "y") == 1 && GraphemeCount(f, "xy") == 2;
    ColumnAfter(f, line, 0);
    ColumnAfter(f, line, 1);
  }

  // The grapheme before a place where the cursor can rest: if the cursor cannot rest at its
  // start either, it goes nowhere.
  lemma LeftOfRest(f: Font, line: seq<char>, i: nat)
    requires 0 < i <= |line| && Stable(f, line, i)
    ensures var p := PrevBoundary(f, line, i);
      var j := IndexOfCol(f, line, PrefixCol(f, line, p));
      NextBoundary(f, line, p) == i && (Stable(f, line, p) ==> j == p) &&
      (!Stable(f, line, p) ==> j == i && !Visible(f, line[p..i]))
  {
    var p := PrevBoundary(f, line, i);
    var col := PrefixCol(f, line, p);
    PrevBoundaryMeans(f, line, i);
    IsNextBoundary(f, line, p, i);
    ColumnRoundTrip(f, line, p);
    if !Stable(f, line, p) {
      IndexOfColIsLast(f, line, col);
      PrefixColMonotone(f, line, p, i);
      VisibleIffWide(f, line[p..i], col);
      var j := IndexOfCol(f, line, col);
      if i < j {
        PastRest(f, line, i, j);
      }
    }
  }

  lemma PastRest(f: Font, line: seq<char>, i: nat, j: nat)
    requires i < j <= |line| && Stable(f, line, i) && Boundary(f, line, j)
    ensures PrefixCol(f, line, i) < PrefixCol(f, line, j)
  {
    var n := NextBoundary(f, line, i);
    NextBoundaryMeans(f, line, i);
    PrefixColMonotone(f, line, i, n);
    VisibleIffWide(f, line[i..n], PrefixCol(f, line, i));
    PrefixColMonotone(f, line, n, j);
  }

  // Deleting behind an invisible grapheme never looks as if that grapheme were gone.
  lemma DropsAnother(f: Font, gap: seq<char>, a: seq<char>)
    requires gap != [] && a != [] && !Visible(f, gap) && Visible(f, a[..NextBoundary(f, a, 0)])
    ensures gap + DropGrapheme(f, a) != a
  {
    var n, w := NextBoundary(f, a, 0), gap + DropGrapheme(f, a);
    var v :| 0 <= v < n && f.CharWidth(a[..n][v], 0) > 0;
    if |gap| < n {
      assert |w| < |a|;
    } else {
      assert w[v] == gap[v];
      assert w[v] != a[v];
    }
  }

  lemma AfterBackspace(f: Font, s: State)
    requires s.Valid() && !s.marked && s.Index(f) > 0
    ensures var line, p := s.Here().text, PrevBoundary(f, s.Here().text, s.Index(f));
      PressBackspace(f, s).Here() == PressDel(f, s.(col := PrefixCol(f, line, p))).Here()
  {}

  /** BACKSPACE inside a line removes exactly the grapheme before the cursor if and only if
      the cursor can rest where it starts and DELETE there would be exact. */
  lemma BackspaceIsExact(f: Font, s: State)
    requires s.Valid() && !s.marked && s.Index(f) > 0
    ensures var line, i := s.Here().text, s.Index(f);
      var p := PrevBoundary(f, line, i);
      PressBackspace(f, s).Here().text == line[..p] + line[i..] <==> Stable(f, line, p) && DropsOne(f, line[p..])
  {
    hide PressBackspace, PressDel, DropsOne, DropGrapheme, Stable, IndexOfCol, Visible;
    var line, i := s.Here().text, s.Index(f);
    var p := PrevBoundary(f, line, i);
    var u := s.(col := PrefixCol(f, line, p));
    IndexOfColIsLast(f, line, s.col);
    LeftOfRest(f, line, i);
    AfterBackspace(f, s);
    if Stable(f, line, p) {
      DeleteIsExact(f, u);
      RestOfGrapheme(f, line, p);
    } else {
      AfterDelete(f, u);
      DeletesBehind(f, line, p, i);
    }
  }

  lemma RestOfGrapheme(f: Font, line: seq<char>, p: nat)
    requires p < |line|
    ensures line[p..][NextBoundary(f, line[p..], 0)..] == line[NextBoundary(f, line, p)..]
  {
    assert line[..p] + line[p..] == line;
    NextBoundaryShift(f, line[..p], line[p..], 0);
  }

  lemma DeletesBehind(f: Font, line: seq<char>, p: nat, i: nat)
    requires p < i <= |line| && Stable(f, line, i) && !Visible(f, line[p..i])
    ensures i < |line| ==> line[..i] + DropGrapheme(f, line[i..]) != line[..p] + line[i..]
  {
    if i < |line| {
      var gap, a := line[p..i], line[i..];
      assert line[..i] + a == line;
      NextBoundaryShift(f, line[..i], a, 0);
      assert line[i..NextBoundary(f, line, i)] == a[..NextBoundary(f, a, 0)];
      DropsAnother(f, gap, a);
      assert line[..i] + DropGrapheme(f, a) == line[..p] + (gap + DropGrapheme(f, a));
      assert (line[..p] + (gap + DropGrapheme(f, a)))[p..] == gap + DropGrapheme(f, a);
      assert (line[..p] + a)[p..] == a;
    }
  }
}
