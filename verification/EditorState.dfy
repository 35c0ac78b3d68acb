/** What every operation of the message editor does to its state: the lines of
    text, the cursor, the marked region and the cut buffer. The cursor's place in
    its line is kept as a screen column, as in the program. */
module EditorState {
  import opened Columns

  // What the editor is run with: the character tables, how a text is wrapped, and
  // how the lines of a paragraph are wrapped again.
  datatype Env = Env(font: Font, wrap: seq<char> -> seq<seq<char>>, rewrap: seq<Line> -> seq<seq<char>>)

  datatype Line = Line(text: seq<char>, flowed: bool)

  datatype Key =
    | NoKey | Up(shift: bool) | Down(shift: bool) | Left(shift: bool) | Right(shift: bool)
    | Home(shift: bool) | End(shift: bool) | Enter | Backspace | Del | Cut | ClearToEol
    | Justify | Paste | Char(ch: char)
  {
    predicate Shifted() {
      (Up? || Down? || Left? || Right? || Home? || End?) && shift
    }
    predicate KeepsMark() { Del? || Backspace? || Cut? || ClearToEol? }
  }

  datatype State = State(text: seq<Line>, row: nat, col: nat, marked: bool, markRow: nat, markPos: nat,
                         cut: seq<Line>, lastKey: Key)
  {
    predicate Valid() {
      row < |text| && (marked ==> markRow < |text| && markPos <= |text[markRow].text|)
    }

    function Here(): Line
      requires row < |text|
    {
      text[row]
    }

    // The index, in its line, of the character under the cursor.
    function Index(f: Font): (i: nat)
      requires row < |text|
      ensures i <= |Here().text|
    {
      IndexOfCol(f, Here().text, col)
    }

    function Before(f: Font): seq<char>
      requires row < |text|
    {
      Here().text[..Index(f)]
    }

    function After(f: Font): seq<char>
      requires row < |text|
    {
      Here().text[Index(f)..]
    }
  }

  // --- Replacing lines ---------------------------------------------------------

  function Splice(text: seq<Line>, start: nat, cnt: nat, lines: seq<Line>): seq<Line>
    requires start + cnt <= |text|
  {
    text[..start] + lines + text[start + cnt..]
  }

  function AtLeastOne(text: seq<Line>): seq<Line> {
    if text == [] then [Line([], false)] else text
  }

  // Replacing a range that exists leaves the cursor on the last inserted line.
  function Replace(s: State, start: nat, cnt: nat, lines: seq<Line>): (r: State)
    requires start + cnt <= |s.text|
    ensures r.row < |r.text| && (lines != [] ==> r.row == start + |lines| - 1)
  {
    var end := start + |lines|;
    s.(text := AtLeastOne(Splice(s.text, start, cnt, lines)), row := if end > 0 then end - 1 else 0, col := 0)
  }

  const CHUNK := 256

  /** replaceTextLines, for any range. Input that is read in chunks may be inserted
      from its second chunk on even though the range does not exist. */
  function ReplaceLines(s: State, start: nat, cnt: nat, lines: seq<Line>, chunked: bool): (r: State)
    requires s.text != []
    ensures r.row < |r.text|
  {
    if start + cnt <= |s.text| then Replace(s, start, cnt, lines)
    else if chunked && |lines| > CHUNK && start + CHUNK <= |s.text| then
      Replace(s, start + CHUNK, 0, lines[CHUNK..])
    else s.(row := if start + 1 < |s.text| then start else |s.text| - 1)
  }

  lemma SpliceLength(text: seq<Line>, start: nat, cnt: nat, lines: seq<Line>)
    requires start + cnt <= |text|
    ensures |Splice(text, start, cnt, lines)| == |text| - cnt + |lines|
  {}

  lemma SpliceAt(text: seq<Line>, start: nat, cnt: nat, lines: seq<Line>)
    requires start + cnt <= |text|
    ensures var t := Splice(text, start, cnt, lines);
      |t| == |text| - cnt + |lines| && forall i :: 0 <= i < |lines| ==> t[start + i] == lines[i]
  {}

  lemma SpliceUpdate(text: seq<Line>, start: nat, cnt: nat, lines: seq<Line>, i: nat, line: Line)
    requires start + cnt <= |text| && i < |lines|
    ensures start + i < |Splice(text, start, cnt, lines)|
    ensures Splice(text, start, cnt, lines)[start + i := line] == Splice(text, start, cnt, lines[i := line])
  {}

  // Filling the blank lines made for the new ones, one at a time.
  lemma FillStep(t: seq<Line>, start: nat, i: nat, lines: seq<Line>)
    requires i < |lines| && start + |lines| <= |t| && t[start..start + i] == lines[..i]
    ensures var u := t[start + i := lines[i]];
      |u| == |t| && u[..start] == t[..start] && u[start..start + i + 1] == lines[..i + 1] &&
      u[start + |lines|..] == t[start + |lines|..]
  {
    var u := t[start + i := lines[i]];
    assert u[start..start + i + 1] == t[start..start + i] + [lines[i]];
  }

  lemma FilledIsSplice(t: seq<Line>, text: seq<Line>, start: nat, cnt: nat, lines: seq<Line>)
    requires start + cnt <= |text| && |t| == |text| - cnt + |lines|
    requires t[..start] == text[..start] && t[start..start + |lines|] == lines
    requires t[start + |lines|..] == text[start + cnt..]
    ensures t == Splice(text, start, cnt, lines)
  {
    assert t == t[..start] + t[start..start + |lines|] + t[start + |lines|..];
  }

  // Splicing in one chunk of lines after another.
  lemma SpliceChunk(text: seq<Line>, at: nat, cnt: nat, a: seq<Line>, b: seq<Line>)
    requires at + cnt <= |text|
    ensures Splice(Splice(text, at, cnt, a), at + |a|, 0, b) == Splice(text, at, cnt, a + b)
  {}

  // --- Cursor movement ---------------------------------------------------------

  function SetMark(f: Font, s: State): (r: State)
    requires s.Valid()
    ensures r.Valid()
  {
    s.(marked := true, markRow := s.row, markPos := s.Index(f))
  }

  function ToEnd(f: Font, s: State): (r: State)
    requires s.Valid()
    ensures r.Valid()
  {
    s.(col := Width(f, s.Here().text))
  }

  function MoveLeft(f: Font, s: State): (r: State)
    requires s.Valid()
    ensures r.Valid()
  {
    if s.Index(f) > 0 then
      s.(col := PrefixCol(f, s.Here().text, PrevBoundary(f, s.Here().text, s.Index(f))))
    else if s.row > 0 then ToEnd(f, s.(row := s.row - 1))
    else s
  }

  function MoveRight(f: Font, s: State): (r: State)
    requires s.Valid()
    ensures r.Valid()
  {
    if s.Index(f) < |s.Here().text| then
      s.(col := PrefixCol(f, s.Here().text, NextBoundary(f, s.Here().text, s.Index(f))))
    else if s.row + 1 < |s.text| then s.(row := s.row + 1, col := 0)
    else s
  }

  // The width of the grapheme under the cursor; at the end of the line the cursor
  // itself takes a column.
  function CursorWidth(f: Font, line: seq<char>, i: nat): (w: nat)
    requires i <= |line|
  {
    if i == |line| then 1 else
      PrefixColMonotone(f, line, i, NextBoundary(f, line, i));
      PrefixCol(f, line, NextBoundary(f, line, i)) - PrefixCol(f, line, i)
  }

  /** What moving the sideways shift of a line from `old` to `shift` does for a
      cursor at index i in a window of w columns. On a line that does not fit, the
      grapheme under the cursor is shown whole exactly when the window has room for
      it, and nothing moves if it was already shown whole. */
  ghost predicate ShowsCursor(f: Font, line: seq<char>, i: nat, w: nat, old': nat, shift: nat)
    requires i <= |line|
  {
    shift <= |line| &&
    var cw, at, col := CursorWidth(f, line, i), PrefixCol(f, line, i),
                       PrefixCol(f, line, i) - PrefixCol(f, line, shift);
    if Width(f, line) < w then shift == 0 && 0 <= col < w
    else
      ((shift <= i && 0 <= col && col + cw <= w - 1) <==> cw <= w - 1) &&
      (old' < i && Stable(f, line, old') && at + cw <= PrefixCol(f, line, old') + (w - 1) ==> shift == old')
  }

  // No place that is good enough lies before the least one found.
  lemma LeastShiftBound(f: Font, line: seq<char>, j: nat, colAfter: nat, w: nat, from: nat, least: nat)
    requires Stable(f, line, j) && colAfter <= PrefixCol(f, line, j) + w
    requires from == IndexOfCol(f, line, if colAfter >= w then colAfter - w else 0)
    requires from <= least <= |line|
    requires forall k :: from <= k < least && Boundary(f, line, k) ==> PrefixCol(f, line, k) + w < colAfter
    ensures least <= j
  {
    IndexOfColIsLast(f, line, if colAfter >= w then colAfter - w else 0);
    if j < from {
      var n := NextBoundary(f, line, j);
      NextBoundaryMeans(f, line, j);
      PrefixColMonotone(f, line, j, n);
      PrefixColMonotone(f, line, n, from);
      VisibleIffWide(f, line[j..n], PrefixCol(f, line, j));
    }
  }

  lemma LongLineShift(f: Font, line: seq<char>, i: nat, w: nat, shift: nat, from: nat, least: nat)
    requires i <= |line| && Stable(f, line, i) && shift <= i
    requires from <= least <= |line|
    requires var colAfter := PrefixCol(f, line, i) + CursorWidth(f, line, i);
      from == IndexOfCol(f, line, if colAfter >= w then colAfter - w else 0) &&
      (least < |line| ==> colAfter <= PrefixCol(f, line, least) + w) &&
      forall k :: from <= k < least && Boundary(f, line, k) ==> PrefixCol(f, line, k) + w < colAfter
    ensures var cw, k := CursorWidth(f, line, i), if shift < least then least else shift;
      (cw <= w ==> k <= i && PrefixCol(f, line, i) + cw <= PrefixCol(f, line, k) + w) &&
      (Stable(f, line, shift) && PrefixCol(f, line, i) + cw <= PrefixCol(f, line, shift) + w ==> k == shift)
  {
    var colAfter := PrefixCol(f, line, i) + CursorWidth(f, line, i);
    if CursorWidth(f, line, i) <= w {
      LeastShiftBound(f, line, i, colAfter, w, from, least);
      PrefixColMonotone(f, line, least, if shift < least then least else shift);
    }
    if Stable(f, line, shift) && colAfter <= PrefixCol(f, line, shift) + w {
      LeastShiftBound(f, line, shift, colAfter, w, from, least);
    }
  }

  // --- Editing -----------------------------------------------------------------

  function NewLine(f: Font, s: State): (r: State)
    requires s.Valid() && !s.marked
    ensures r.Valid() && !r.marked
  {
    s.(text := Splice(s.text, s.row, 1, [Line(s.Before(f), false), Line(s.After(f), s.Here().flowed)]),
       row := s.row + 1, col := 0)
  }

  // The lines that take the place of the cursor's line when ys is pasted in it.
  function Pasted(before: seq<char>, after: seq<char>, flowed: bool, ys: seq<Line>): (r: seq<Line>)
    requires ys != []
    ensures |r| == |ys|
  {
    var n := |ys| - 1;
    if n == 0 then [Line(before + ys[0].text + after, flowed)]
    else [Line(before + ys[0].text, ys[0].flowed)] + ys[1..n] + [Line(ys[n].text + after, flowed)]
  }

  lemma PastedOne(before: seq<char>, after: seq<char>, flowed: bool, ys: seq<Line>)
    requires |ys| == 1
    ensures Pasted(before, after, flowed, ys) == [Line(before + ys[0].text + after, flowed)]
  {}

  lemma PastedMany(before: seq<char>, after: seq<char>, flowed: bool, ys: seq<Line>)
    requires |ys| > 1
    ensures var n := |ys| - 1;
      Pasted(before, after, flowed, ys) ==
        [Line(before + ys[0].text, ys[0].flowed)] + ys[1..n] + [Line(ys[n].text + after, flowed)]
  {}

  function Yank(f: Font, s: State, ys: seq<Line>): (r: State)
    requires s.Valid()
    ensures r.Valid() && (!s.marked ==> !r.marked)
  {
    if ys == [] then s else
      var n := |ys| - 1;
      s.(text := Splice(s.text, s.row, 1, Pasted(s.Before(f), s.After(f), s.Here().flowed, ys)),
         row := s.row + n,
         col := Width(f, (if n == 0 then s.Before(f) else []) + ys[n].text),
         marked := false)
  }

  // The same, one line at a time.
  lemma PasteInSteps(text: seq<Line>, row: nat, before: seq<char>, after: seq<char>, flowed: bool, ys: seq<Line>)
    requires row < |text| && ys != []
    ensures var n := |ys| - 1;
      var a := Splice(text, row, 1, ys);
      var b := a[row := Line(before + a[row].text, a[row].flowed)];
      b[row + n].text == (if n == 0 then before else []) + ys[n].text &&
      b[row + n := Line(b[row + n].text + after, flowed)] ==
        Splice(text, row, 1, Pasted(before, after, flowed, ys))
  {
    hide Splice, Pasted;
    var n := |ys| - 1;
    var a := Splice(text, row, 1, ys);
    SpliceAt(text, row, 1, ys);
    var b := a[row := Line(before + ys[0].text, ys[0].flowed)];
    if n == 0 {
      PastedOne(before, after, flowed, ys);
      SpliceUpdate(text, row, 1, ys, 0, Line(before + ys[0].text + after, flowed));
      assert ys[0 := Line(before + ys[0].text + after, flowed)] == Pasted(before, after, flowed, ys);
    } else {
      SpliceUpdate(text, row, 1, ys, 0, Line(before + ys[0].text, ys[0].flowed));
      var zs := ys[0 := Line(before + ys[0].text, ys[0].flowed)];
      SpliceAt(text, row, 1, zs);
      SpliceUpdate(text, row, 1, zs, n, Line(ys[n].text + after, flowed));
      PastedMany(before, after, flowed, ys);
      assert zs[n := Line(ys[n].text + after, flowed)] == Pasted(before, after, flowed, ys);
    }
  }

  datatype Region = Region(row1: nat, pos1: nat, row2: nat, pos2: nat)
  {
    predicate In(text: seq<Line>) {
      row1 <= row2 < |text| && pos1 <= |text[row1].text| && pos2 <= |text[row2].text| &&
      (row1 == row2 ==> pos1 <= pos2)
    }
    predicate Empty() { row1 == row2 && pos1 == pos2 }
  }

  // The region between the mark and the cursor; also whether the mark is ahead.
  function Marked(f: Font, s: State): (r: (Region, bool))
    requires s.Valid() && s.marked
    ensures r.0.In(s.text)
  {
    var pos := s.Index(f);
    if s.row < s.markRow || (s.row == s.markRow && pos < s.markPos)
    then (Region(s.row, pos, s.markRow, s.markPos), true)
    else (Region(s.markRow, s.markPos, s.row, pos), false)
  }

  // The part of line i that lies in the region.
  function ExcerptLine(text: seq<Line>, g: Region, i: nat): Line
    requires g.In(text) && g.row1 <= i <= g.row2
  {
    var l := text[i].text;
    var l := if i == g.row2 then l[..g.pos2] else l;
    Line(if i == g.row1 then l[g.pos1..] else l, text[i].flowed)
  }

  function Excerpt(text: seq<Line>, g: Region): seq<Line>
    requires g.In(text)
  {
    seq(g.row2 + 1 - g.row1, i requires 0 <= i < g.row2 + 1 - g.row1 => ExcerptLine(text, g, g.row1 + i))
  }

  lemma ExcerptGrows(text: seq<Line>, g: Region, i: nat)
    requires g.In(text) && g.row1 + i <= g.row2
    ensures |Excerpt(text, g)| == g.row2 + 1 - g.row1
    ensures Excerpt(text, g)[..i + 1] == Excerpt(text, g)[..i] + [ExcerptLine(text, g, g.row1 + i)]
  {
    assert Excerpt(text, g)[i] == ExcerptLine(text, g, g.row1 + i);
  }

  // The line that remains of the first and the last line of the region.
  function Remainder(text: seq<Line>, g: Region): Line
    requires g.In(text)
  {
    Line(text[g.row1].text[..g.pos1] + text[g.row2].text[g.pos2..], text[g.row2].flowed)
  }

  // Clearing to the end of the line overwrites the last line of the cut buffer.
  function CutBufferAfter(text: seq<Line>, g: Region, cut: seq<Line>, clearing: bool): seq<Line>
    requires g.In(text)
  {
    if !clearing then Excerpt(text, g)
    else (if cut == [] then [] else cut[..|cut| - 1]) + [ExcerptLine(text, g, g.row2)]
  }

  // The cut buffer after the first n lines of the region have been copied to it.
  function Saved(text: seq<Line>, g: Region, cut: seq<Line>, clearing: bool, n: nat): seq<Line>
    requires g.In(text) && g.row1 + n <= g.row2 + 1
  {
    if n == 0 then if clearing then cut else [] else
      var c, line := Saved(text, g, cut, clearing, n - 1), ExcerptLine(text, g, g.row1 + n - 1);
      if clearing && c != [] then c[|c| - 1 := line] else c + [line]
  }

  lemma {:induction false} SavedMeans(text: seq<Line>, g: Region, cut: seq<Line>, clearing: bool, n: nat)
    requires g.In(text) && g.row1 + n <= g.row2 + 1
    ensures !clearing ==> Saved(text, g, cut, clearing, n) == Excerpt(text, g)[..n]
    ensures clearing && n > 0 ==>
      Saved(text, g, cut, clearing, n) == (if cut == [] then [] else cut[..|cut| - 1]) + [ExcerptLine(text, g, g.row1 + n - 1)]
  {
    hide Excerpt, ExcerptLine;
    if n > 0 {
      SavedMeans(text, g, cut, clearing, n - 1);
      ExcerptGrows(text, g, n - 1);
    }
  }

  // One more line saved, as the program does it: an empty cut buffer gets an entry first.
  lemma SavedStep(text: seq<Line>, g: Region, cut: seq<Line>, clearing: bool, n: nat)
    requires g.In(text) && g.row1 + n <= g.row2
    ensures var c, line := Saved(text, g, cut, clearing, n), ExcerptLine(text, g, g.row1 + n);
      var c' := if clearing && c != [] then c else c + [line];
      Saved(text, g, cut, clearing, n + 1) == c'[|c'| - 1 := line]
  {}

  lemma SavedNone(text: seq<Line>, g: Region, cut: seq<Line>, clearing: bool)
    requires g.In(text)
    ensures Saved(text, g, cut, clearing, 0) == if clearing then cut else []
  {}

  lemma SavedAll(text: seq<Line>, g: Region, cut: seq<Line>, clearing: bool)
    requires g.In(text)
    ensures Saved(text, g, cut, clearing, g.row2 + 1 - g.row1) == CutBufferAfter(text, g, cut, clearing)
  {
    SavedMeans(text, g, cut, clearing, g.row2 + 1 - g.row1);
  }

  function DeleteRegion(f: Font, s: State, g: Region, clearing: bool): (r: State)
    requires s.Valid() && !s.marked && g.In(s.text)
    ensures r.Valid()
  {
    s.(text := Splice(s.text, g.row1, g.row2 + 1 - g.row1, [Remainder(s.text, g)]),
       row := g.row1,
       col := Width(f, s.text[g.row1].text[..g.pos1]),
       cut := CutBufferAfter(s.text, g, s.cut, clearing))
  }

  // What is left of the text after the cursor when the grapheme under the cursor
  // is deleted: the number of graphemes is used as a number of characters.
  function DropGrapheme(f: Font, after: seq<char>): seq<char>
    requires after != []
  {
    after[1..GraphemeCount(f, after)]
  }

  function DeleteOne(f: Font, s: State, clearing: bool): (r: State)
    requires s.Valid() && !s.marked
    ensures r.Valid()
  {
    var before, after := s.Before(f), s.After(f);
    var s := if clearing then s.(cut := s.cut + [Line([], s.Here().flowed)]) else s;
    if after != [] then
      s.(text := s.text[s.row := Line(before + DropGrapheme(f, after), s.Here().flowed)], col := Width(f, before))
    else if s.row + 1 < |s.text| then
      var next := s.text[s.row + 1];
      s.(text := Splice(s.text, s.row, 2, [Line(before + next.text, next.flowed)]), col := Width(f, before))
    else s
  }

  lemma JoinInSteps(text: seq<Line>, row: nat, line: Line)
    requires row + 1 < |text|
    ensures Splice(text, row + 1, 1, [])[row := line] == Splice(text, row, 2, [line])
  {}

  function DeleteChar(f: Font, s: State, clearing: bool): (r: State)
    requires s.Valid()
    ensures r.Valid() && !r.marked
  {
    var u := s.(marked := false);
    if s.marked && !Marked(f, s).0.Empty() then DeleteRegion(f, u, Marked(f, s).0, clearing)
    else DeleteOne(f, u, clearing)
  }

  // --- Typing --------------------------------------------------------------------

  function Flow(pieces: seq<seq<char>>): seq<Line>
  {
    seq(|pieces|, i requires 0 <= i < |pieces| => Line(pieces[i], true))
  }

  // inserted: wrap what is before the cursor if it no longer fits.
  function Autowrap(e: Env, s: State): (r: State)
    requires s.Valid() && !s.marked
    ensures r.Valid() && !r.marked
  {
    var pieces := e.wrap(s.Before(e.font));
    var n := |pieces| - 1;
    if n < 1 then s else
      s.(text := Splice(s.text, s.row, 1, Flow(pieces[..n]) + [Line(pieces[n] + s.After(e.font), s.Here().flowed)]),
         row := s.row + n,
         col := Width(e.font, pieces[n]))
  }

  lemma WrapInSteps(text: seq<Line>, row: nat, lines: seq<Line>, last: Line)
    requires row < |text|
    ensures Splice(text, row, 0, lines)[row + |lines| := last] == Splice(text, row, 1, lines + [last])
  {}

  function Insert(f: Font, s: State, ch: char): (r: State)
    requires s.Valid() && !s.marked
    ensures r.Valid() && !r.marked
  {
    var before := s.Before(f) + [ch];
    s.(text := s.text[s.row := Line(before + s.After(f), s.Here().flowed)], col := Width(f, before))
  }

  function Type(e: Env, s: State, ch: char): (r: State)
    requires s.Valid() && !s.marked
    ensures r.Valid() && !r.marked
  {
    if ch < ' ' && ch != '\t' then s else Autowrap(e, Insert(e.font, s, ch))
  }

  // --- Justification -------------------------------------------------------------

  predicate Justifiable(line: Line) {
    line.text != [] && line.text[0] != '>' && line.text[0] != ' ' && line.text[0] != '\t'
  }

  // The first of the justifiable lines that end before line k.
  function BlockStart(text: seq<Line>, k: nat): (r: nat)
    requires k <= |text|
    ensures r <= k
  {
    if k > 0 && Justifiable(text[k - 1]) then BlockStart(text, k - 1) else k
  }

  function BlockEnd(text: seq<Line>, k: nat): (r: nat)
    requires k <= |text|
    ensures k <= r <= |text|
    decreases |text| - k
  {
    if k < |text| && Justifiable(text[k]) then BlockEnd(text, k + 1) else k
  }

  lemma {:induction false} BlockStartMeans(text: seq<Line>, k: nat)
    requires k <= |text|
    ensures var r := BlockStart(text, k);
      (forall i :: r <= i < k ==> Justifiable(text[i])) && (r > 0 ==> !Justifiable(text[r - 1]))
  {
    if k > 0 && Justifiable(text[k - 1]) {
      BlockStartMeans(text, k - 1);
    }
  }

  lemma {:induction false} BlockEndFrom(text: seq<Line>, i: nat, k: nat)
    requires i <= k <= |text| && forall j :: i <= j < k ==> Justifiable(text[j])
    ensures BlockEnd(text, i) == BlockEnd(text, k)
    decreases k - i
  {
    if i < k {
      BlockEndFrom(text, i + 1, k);
    }
  }

  lemma BlockEndFromStart(text: seq<Line>, k: nat)
    requires k <= |text|
    ensures BlockEnd(text, BlockStart(text, k)) == BlockEnd(text, k)
  {
    BlockStartMeans(text, k);
    BlockEndFrom(text, BlockStart(text, k), k);
  }

  // The wrapped lines flow into each other. The line after the paragraph is
  // wrapped with it.
  function Rewrapped(e: Env, text: seq<Line>, start: nat, end: nat): (r: seq<Line>)
    requires start <= end <= |text|
    ensures r != []
  {
    var lines := Flow(e.rewrap(text[start..if end < |text| then end + 1 else end]));
    if lines == [] then [Line([], false)]
    else lines[|lines| - 1 := lines[|lines| - 1].(flowed := false)]
  }

  function JustifyHere(e: Env, s: State): (r: State)
    requires s.Valid() && !s.marked
    ensures r.Valid() && !r.marked
  {
    if !Justifiable(s.Here()) then s.(lastKey := NoKey) else
      var start, end := BlockStart(s.text, s.row), BlockEnd(s.text, s.row);
      var lines := Rewrapped(e, s.text, start, end);
      Replace(s, start, end - start, lines).(cut := s.text[start..end])
  }

  function UndoJustify(s: State): (r: State)
    requires s.Valid() && !s.marked
    ensures r.Valid() && !r.marked
  {
    if s.cut == [] then s else
      var r := BlockStart(s.text, s.row + 1);
      Replace(s, r, s.row - r + 1, s.cut).(cut := [], lastKey := NoKey)
  }

  // --- One key press ---------------------------------------------------------------

  // Shifted movement starts a region, most other keys drop it.
  function BeforeKey(f: Font, s: State, key: Key): (r: State)
    requires s.Valid()
    ensures r.Valid() && r.text == s.text && r.row == s.row && r.col == s.col && r.cut == s.cut
    ensures key.Shifted() ==> r.marked
    ensures !key.Shifted() && !key.KeepsMark() ==> !r.marked
  {
    var s := s.(lastKey := key);
    if key.Shifted() then if s.marked then s else SetMark(f, s)
    else if key.KeepsMark() then s
    else s.(marked := false)
  }

  function PressLeft(f: Font, s: State, shift: bool): (r: State)
    requires s.Valid()
    ensures r.Valid()
  {
    MoveLeft(f, BeforeKey(f, s, Left(shift)))
  }

  function PressRight(f: Font, s: State, shift: bool): (r: State)
    requires s.Valid()
    ensures r.Valid()
  {
    MoveRight(f, BeforeKey(f, s, Right(shift)))
  }

  function PressEnter(f: Font, s: State): (r: State)
    requires s.Valid()
    ensures r.Valid()
  {
    NewLine(f, BeforeKey(f, s, Enter))
  }

  function PressBackspace(f: Font, s: State): (r: State)
    requires s.Valid()
    ensures r.Valid()
  {
    DeleteChar(f, MoveLeft(f, BeforeKey(f, s, Backspace)), false)
  }

  function PressDel(f: Font, s: State): (r: State)
    requires s.Valid()
    ensures r.Valid()
  {
    DeleteChar(f, BeforeKey(f, s, Del), false)
  }

  function PressCut(f: Font, s: State): (r: State)
    requires s.Valid()
    ensures r.Valid()
  {
    var u := BeforeKey(f, s, Cut);
    if u.marked then DeleteChar(f, u, false) else u
  }

  // A run of presses shares one cut buffer.
  function PressClearToEol(f: Font, s: State): (r: State)
    requires s.Valid()
    ensures r.Valid()
  {
    var u := BeforeKey(f, s, ClearToEol);
    var v := if s.lastKey.ClearToEol? then u else u.(cut := []);
    DeleteChar(f, ToEnd(f, SetMark(f, v)), true)
  }

  function PressJustify(e: Env, s: State): (r: State)
    requires s.Valid()
    ensures r.Valid()
  {
    var u := BeforeKey(e.font, s, Justify);
    if s.lastKey.Justify? then UndoJustify(u) else JustifyHere(e, u)
  }

  function PressPaste(f: Font, s: State): (r: State)
    requires s.Valid()
    ensures r.Valid()
  {
    var u := BeforeKey(f, s, Paste);
    Yank(f, u, u.cut)
  }

  function PressChar(e: Env, s: State, ch: char): (r: State)
    requires s.Valid()
    ensures r.Valid()
  {
    Type(e, BeforeKey(e.font, s, Char(ch)), ch)
  }

  function Press(e: Env, s: State, key: Key): (r: State)
    requires s.Valid()
    ensures r.Valid()
  {
    var f := e.font;
    var u := BeforeKey(f, s, key);
    match key
    case NoKey => u
    case Up(_) => if u.row > 0 then u.(row := u.row - 1) else u
    case Down(_) => if u.row + 1 < |u.text| then u.(row := u.row + 1) else u
    case Left(shift) => PressLeft(f, s, shift)
    case Right(shift) => PressRight(f, s, shift)
    case Home(_) => u.(col := 0)
    case End(_) => ToEnd(f, u)
    case Enter => PressEnter(f, s)
    case Backspace => PressBackspace(f, s)
    case Del => PressDel(f, s)
    case Cut => PressCut(f, s)
    case ClearToEol => PressClearToEol(f, s)
    case Justify => PressJustify(e, s)
    case Paste => PressPaste(f, s)
    case Char(ch) => PressChar(e, s, ch)
  }
}
