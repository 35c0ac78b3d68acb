/** The message editor: CursesEditMessage. Screen output is left out; the methods
    below change the fields in the order in which the program does. */
module Editor {
  import opened Columns
  import opened WordWrap
  import opened EditorState
  import opened FlowedText
  import DraftFiles

  // The text that is wrapped again, and where in it each line started.
  function Unjustified(lines: seq<Line>): (seq<char>, set<nat>) {
    if lines == [] then ([], {}) else
      var n := |lines| - 1;
      var (text, starts) := Unjustified(lines[..n]);
      var line := TrimEnd(lines[n].text);
      (text + line, if line == [] then starts else starts + {|text|})
  }

  function EnvOf(l: Locale): Env {
    Env(l.font,
        text => Wrap(l, text, {}, LINEW),
        lines => var (text, starts) := Unjustified(lines); Wrap(l, text, starts, LINEW))
  }

  class Editor {
    const env: Env
    const font: Font := env.font

    var text: seq<Line>
    var cursorRow: nat
    var cursorCol: nat
    var horizShift: nat
    var marked: bool
    var markRow: nat
    var markPos: nat
    var cutBuffer: seq<Line>
    var lastKey: Key

    function View(): State
      reads this
    {
      State(text, cursorRow, cursorCol, marked, markRow, markPos, cutBuffer, lastKey)
    }

    predicate Valid()
      reads this
    {
      View().Valid()
    }

    constructor (locale: Locale)
      ensures Valid() && text == [Line([], false)] && !marked && env == EnvOf(locale)
    {
      env := EnvOf(locale);
      text := [Line([], false)];
      cursorRow, cursorCol, horizShift := 0, 0, 0;
      marked, markRow, markPos := false, 0, 0;
      cutBuffer, lastKey := [], NoKey;
    }

    // --- Columns and lines -------------------------------------------------------

    method GetIndexOfCol(line: seq<char>, colNum: nat) returns (k: nat)
      ensures k == IndexOfCol(font, line, colNum)
    {
      var b, p, col := 0, 0, 0;
      k := 0;
      while true
        invariant p <= b <= |line| && Boundary(font, line, p) && k == p
        invariant forall j :: p < j < b ==> !Boundary(font, line, j)
        invariant col == PrefixCol(font, line, p)
        invariant IndexFrom(font, line, p, colNum) == IndexOfCol(font, line, colNum)
        decreases |line| - b, b - p
      {
        if b != |line| && (b == p || !font.Breaks(line[b - 1], line[b])) {
          b := b + 1;
          continue;
        }
        if b > p {
          IsNextBoundary(font, line, p, b);
          GraphemesDoNotChangeWidth(font, line[p..b], col);
          PrefixColMonotone(font, line, p, b);
          col := col + GraphemeSum(font, line[p..b], col);
          if col > colNum {
            break;
          }
          k := b;
        }
        p := b;
        if b == |line| {
          break;
        }
      }
    }

    method GetTextBeforeAfter() returns (before: seq<char>, after: seq<char>, flowed: bool)
      requires cursorRow < |text|
      ensures before == View().Before(font) && after == View().After(font)
      ensures flowed == text[cursorRow].flowed
    {
      flowed := text[cursorRow].flowed;
      var pos := GetIndexOfCol(text[cursorRow].text, cursorCol);
      after := text[cursorRow].text[pos..];
      before := text[cursorRow].text[..pos];
    }

    method SetTextBeforeAfter(before: seq<char>, after: seq<char>, flowed: bool)
      requires cursorRow < |text|
      modifies this`text, this`cursorCol
      ensures text == old(text)[cursorRow := Line(before + after, flowed)]
      ensures cursorCol == Width(font, before)
    {
      text := text[cursorRow := Line(before + after, flowed)];
      cursorCol := WidthOf(before);
    }

    // --- Replacing lines ---------------------------------------------------------

    method ReplaceTextLinesImpl(start: nat, cnt: nat, lines: seq<Line>)
      modifies this`text, this`cursorRow, this`cursorCol
      ensures start + cnt <= |old(text)| ==>
        text == Splice(old(text), start, cnt, lines) && cursorRow == start + |lines| && cursorCol == 0
      ensures start + cnt > |old(text)| ==>
        text == old(text) && cursorRow == old(cursorRow) && cursorCol == old(cursorCol)
    {
      if start > |text| || |text| - start < cnt {
        return;
      }
      text := text[..start] + text[start + cnt..];
      text := text[..start] + seq(|lines|, _ => Line([], false)) + text[start..];
      var i := 0;
      while i < |lines|
        invariant i <= |lines| && |text| == |old(text)| - cnt + |lines|
        invariant text[..start] == old(text)[..start] && text[start..start + i] == lines[..i]
        invariant text[start + |lines|..] == old(text)[start + cnt..]
      {
        FillStep(text, start, i, lines);
        text := text[start + i := lines[i]];
        i := i + 1;
      }
      FilledIsSplice(text, old(text), start, cnt, lines);
      cursorRow := start + |lines|;
      cursorCol := 0;
    }

    // Input that cannot be measured beforehand is taken in chunks.
    method ReplaceInChunks(start: nat, cnt: nat, lines: seq<Line>)
      modifies this`text, this`cursorRow, this`cursorCol
      ensures start + cnt <= |old(text)| ==>
        text == Splice(old(text), start, cnt, lines) && cursorRow == start + |lines| && cursorCol == 0
      ensures start + cnt > |old(text)| ==>
        if |lines| > CHUNK && start + CHUNK <= |old(text)| then
          text == Splice(old(text), start + CHUNK, 0, lines[CHUNK..]) &&
          cursorRow == start + |lines| && cursorCol == 0
        else text == old(text) && cursorRow == old(cursorRow) && cursorCol == old(cursorCol)
    {
      ghost var inRange := start + cnt <= |old(text)|;
      // where the lines that are accepted go, and what they replace there
      ghost var from, gap := if inRange then 0 else CHUNK, if inRange then cnt else 0;
      ghost var fits := start + from + gap <= |old(text)|;
      var at, left, n := start, cnt, 0;
      while true
        invariant n <= |lines| && at == start + n
        invariant if n == 0 then left == cnt else left == 0 && CHUNK <= n < |lines|
        invariant n == 0 || !fits || n <= from ==>
          text == old(text) && cursorRow == old(cursorRow) && cursorCol == old(cursorCol)
        invariant n > from && fits ==> text == Splice(old(text), start + from, gap, lines[from..n])
        decreases |lines| - n
      {
        var m := if |lines| - n < CHUNK then |lines| else n + CHUNK;
        var chunk := lines[n..m];
        ReplaceTextLinesImpl(at, left, chunk);
        if n > from && fits {
          SpliceChunk(old(text), start + from, gap, lines[from..n], chunk);
          assert lines[from..n] + chunk == lines[from..m];
        }
        at, left, n := at + |chunk|, 0, m;
        if n == |lines| {
          break;
        }
      }
      assert lines[0..|lines|] == lines;
    }

    method ReplaceTextLines(start: nat, cnt: nat, lines: seq<Line>, chunked: bool)
      requires text != []
      modifies this`text, this`cursorRow, this`cursorCol
      ensures View() == ReplaceLines(old(View()), start, cnt, lines, chunked)
    {
      hide Splice;
      if start + cnt <= |text| {
        SpliceLength(text, start, cnt, lines);
      } else if chunked && |lines| > CHUNK && start + CHUNK <= |text| {
        SpliceLength(text, start + CHUNK, 0, lines[CHUNK..]);
      }
      cursorRow := start + 1;
      if chunked {
        ReplaceInChunks(start, cnt, lines);
      } else {
        ReplaceTextLinesImpl(start, cnt, lines);
      }
      if |text| == 0 {
        text := text + [Line([], false)];
      }
      if cursorRow >= |text| {
        cursorRow := |text|;
      }
      if cursorRow > 0 {
        cursorRow := cursorRow - 1;
      }
    }

    // --- Cursor movement -----------------------------------------------------------

    method Mark()
      requires Valid()
      modifies this`marked, this`markRow, this`markPos
      ensures View() == SetMark(font, old(View()))
    {
      var pos := GetIndexOfCol(text[cursorRow].text, cursorCol);
      markRow := cursorRow;
      markPos := pos;
      marked := true;
    }

    method MoveToEnd()
      requires Valid()
      modifies this`cursorCol
      ensures View() == ToEnd(font, old(View()))
    {
      cursorCol := WidthOf(text[cursorRow].text);
    }

    method GoLeft()
      requires Valid()
      modifies this`cursorRow, this`cursorCol
      ensures View() == MoveLeft(font, old(View()))
    {
      var line := text[cursorRow].text;
      var pos := GetIndexOfCol(line, cursorCol);
      if pos == 0 {
        if cursorRow > 0 {
          cursorRow := cursorRow - 1;
          MoveToEnd();
        }
        return;
      }
      ghost var from := pos;
      pos := pos - 1;
      while pos > 0 && !font.Breaks(line[pos - 1], line[pos])
        invariant 0 <= pos < from
        invariant PrevBoundary(font, line, from) == PrevBoundary(font, line, pos + 1)
      {
        pos := pos - 1;
      }
      cursorCol := WidthOf(line[..pos]);
    }

    method GoRight()
      requires Valid()
      modifies this`cursorRow, this`cursorCol, this`horizShift
      ensures View() == MoveRight(font, old(View()))
    {
      var line := text[cursorRow].text;
      var pos := GetIndexOfCol(line, cursorCol);
      if pos == |line| {
        if cursorRow + 1 < |text| {
          cursorCol := 0;
          horizShift := 0;
          cursorRow := cursorRow + 1;
        }
        return;
      }
      ghost var from := pos;
      pos := pos + 1;
      while pos < |line| && !font.Breaks(line[pos - 1], line[pos])
        invariant from < pos <= |line|
        invariant NextBoundary(font, line, from) == NextBoundary(font, line, pos - 1)
      {
        pos := pos + 1;
      }
      cursorCol := WidthOf(line[..pos]);
    }

    // --- Editing -------------------------------------------------------------------

    method EnterKey()
      requires Valid() && !marked
      modifies this`text, this`cursorRow, this`cursorCol
      ensures View() == NewLine(font, old(View()))
    {
      var row := cursorRow;
      var before, after, flowed := GetTextBeforeAfter();
      ReplaceTextLines(cursorRow, 1, [Line(before, false), Line(after, flowed)], false);
      cursorRow := row + 1;
      cursorCol := 0;
    }

    method PasteText(ys: seq<Line>)
      requires Valid()
      modifies this`text, this`cursorRow, this`cursorCol, this`marked
      ensures View() == Yank(font, old(View()), ys)
    {
      var row := cursorRow;
      var before, after, flowed := GetTextBeforeAfter();
      if ys == [] {
        return;
      }
      PasteInSteps(text, row, before, after, flowed, ys);
      ReplaceTextLines(row, 1, ys, true);
      text := text[row := Line(before + text[row].text, text[row].flowed)];
      SetTextBeforeAfter(text[cursorRow].text, after, flowed);
      marked := false;
    }

    method GetMarkedRegion() returns (g: Region, swapped: bool)
      requires Valid() && marked
      ensures (g, swapped) == Marked(font, View())
    {
      swapped := false;
      var before, _, _ := GetTextBeforeAfter();
      g := Region(markRow, markPos, cursorRow, |before|);
      if g.row2 < g.row1 || (g.row2 == g.row1 && g.pos2 < g.pos1) {
        g := Region(g.row2, g.pos2, g.row1, g.pos1);
        swapped := true;
      }
    }

    // Copy the region to the cut buffer, line by line.
    method SaveRegion(g: Region, clearing: bool)
      requires g.In(text)
      modifies this`cutBuffer
      ensures cutBuffer == CutBufferAfter(text, g, old(cutBuffer), clearing)
    {
      hide Saved, CutBufferAfter;
      SavedNone(text, g, cutBuffer, clearing);
      if !clearing {
        cutBuffer := [];
      }
      var i := g.row1;
      while i <= g.row2
        invariant g.row1 <= i <= g.row2 + 1
        invariant cutBuffer == Saved(text, g, old(cutBuffer), clearing, i - g.row1)
      {
        var u := text[i].text;
        if i == g.row2 {
          u := u[..g.pos2];
        }
        if i == g.row1 {
          u := u[g.pos1..];
        }
        var line := Line(u, text[i].flowed);
        SavedStep(text, g, old(cutBuffer), clearing, i - g.row1);
        if clearing {
          if cutBuffer == [] {
            cutBuffer := cutBuffer + [line];
          }
          cutBuffer := cutBuffer[|cutBuffer| - 1 := line];
        } else {
          cutBuffer := cutBuffer + [line];
        }
        i := i + 1;
      }
      SavedAll(text, g, old(cutBuffer), clearing);
    }

    method DeleteMarked(g: Region, clearing: bool)
      requires Valid() && !marked && g.In(text)
      modifies this`text, this`cursorRow, this`cursorCol, this`cutBuffer
      ensures View() == DeleteRegion(font, old(View()), g, clearing)
    {
      SaveRegion(g, clearing);
      var u := text[g.row1].text[..g.pos1];
      var col := WidthOf(u);
      var line := Line(u + text[g.row2].text[g.pos2..], text[g.row2].flowed);
      ReplaceTextLines(g.row1, g.row2 + 1 - g.row1, [line], false);
      cursorRow := g.row1;
      cursorCol := col;
    }

    // Without a region: the grapheme under the cursor, or the line break.
    method DeleteAtCursor(clearing: bool)
      requires Valid() && !marked
      modifies this`text, this`cursorRow, this`cursorCol, this`cutBuffer
      ensures View() == DeleteOne(font, old(View()), clearing)
    {
      var before, after, flowed := GetTextBeforeAfter();
      if clearing {
        cutBuffer := cutBuffer + [Line([], flowed)];
      }
      if GraphemeCount(font, after) > 0 {
        after := DropGrapheme(font, after);
        SetTextBeforeAfter(before, after, flowed);
        return;
      }
      if cursorRow + 1 < |text| {
        var row := cursorRow;
        var l := text[row + 1];
        JoinInSteps(text, row, Line(before + l.text, l.flowed));
        ReplaceTextLines(row + 1, 1, [], false);
        cursorRow := row;
        SetTextBeforeAfter(before, l.text, l.flowed);
      }
    }

    method DeleteCharacter(clearing: bool)
      requires Valid()
      modifies this`text, this`cursorRow, this`cursorCol, this`cutBuffer, this`marked
      ensures View() == DeleteChar(font, old(View()), clearing)
    {
      if marked {
        var g, _ := GetMarkedRegion();
        marked := false;
        if g.row1 != g.row2 || g.pos1 != g.pos2 {
          DeleteMarked(g, clearing);
          return;
        }
      }
      DeleteAtCursor(clearing);
    }

    method Inserted()
      requires Valid() && !marked
      modifies this`text, this`cursorRow, this`cursorCol, this`horizShift
      ensures View() == Autowrap(env, old(View()))
    {
      var row := cursorRow;
      var before, after, flowed := GetTextBeforeAfter();
      var wrapped := Flow(env.wrap(before));
      if |wrapped| > 1 {
        var last := wrapped[|wrapped| - 1];
        WrapInSteps(text, row, wrapped[..|wrapped| - 1], Line(last.text + after, flowed));
        ReplaceTextLines(row, 0, wrapped[..|wrapped| - 1], true);
        cursorRow := cursorRow + 1;
        SetTextBeforeAfter(last.text, after, flowed);
        horizShift := 0;
      }
    }

    method InsertKeyPos(k: char)
      requires Valid() && !marked
      modifies this`text, this`cursorRow, this`cursorCol, this`horizShift
      ensures View() == Type(env, old(View()), k)
    {
      if k < ' ' && k != '\t' {
        return;
      }
      var before, after, flowed := GetTextBeforeAfter();
      before := before + [k];
      cursorCol := WidthOf(before);
      text := text[cursorRow := Line(before + after, flowed)];
      assert View() == Insert(font, old(View()), k);
      Inserted();
    }

    // --- Justification ---------------------------------------------------------------

    // Find the start of the paragraph.
    method ToParagraphStart()
      requires Valid() && Justifiable(text[cursorRow])
      modifies this`cursorRow
      ensures cursorRow == BlockStart(text, old(cursorRow))
    {
      while cursorRow > 0
        invariant cursorRow <= old(cursorRow)
        invariant BlockStart(text, cursorRow) == BlockStart(text, old(cursorRow))
      {
        cursorRow := cursorRow - 1;
        if !Justifiable(text[cursorRow]) {
          cursorRow := cursorRow + 1;
          break;
        }
      }
    }

    // Copy the paragraph to the cut buffer, leaving the cursor after it.
    method SaveParagraph()
      requires cursorRow <= |text|
      modifies this`cursorRow, this`cutBuffer
      ensures cursorRow == BlockEnd(text, old(cursorRow))
      ensures cutBuffer == text[old(cursorRow)..cursorRow]
    {
      cutBuffer := [];
      while cursorRow < |text|
        invariant old(cursorRow) <= cursorRow <= |text|
        invariant BlockEnd(text, cursorRow) == BlockEnd(text, old(cursorRow))
        invariant cutBuffer == text[old(cursorRow)..cursorRow]
      {
        if !Justifiable(text[cursorRow]) {
          break;
        }
        assert text[old(cursorRow)..cursorRow + 1] == text[old(cursorRow)..cursorRow] + [text[cursorRow]];
        cutBuffer := cutBuffer + [text[cursorRow]];
        cursorRow := cursorRow + 1;
      }
    }

    method JustifyParagraph()
      requires Valid() && !marked
      modifies this`text, this`cursorRow, this`cursorCol, this`cutBuffer, this`lastKey
      ensures View() == JustifyHere(env, old(View()))
    {
      hide Splice, Rewrapped, BlockStart, BlockEnd;
      if !Justifiable(text[cursorRow]) {
        lastKey := NoKey;
        return;
      }
      ghost var s := View();
      BlockEndFromStart(text, cursorRow);
      ToParagraphStart();
      var start := cursorRow;
      SaveParagraph();
      ghost var end := BlockEnd(s.text, s.row);
      assert View() == s.(row := end, cut := s.text[start..end]);
      var wrapped := Rewrapped(env, text, start, cursorRow);
      ReplaceTextLines(start, cursorRow - start, wrapped, true);
      assert View() == Replace(s, start, end - start, wrapped).(cut := s.text[start..end]);
    }

    method UndoJustification()
      requires Valid() && !marked
      modifies this`text, this`cursorRow, this`cursorCol, this`cutBuffer, this`lastKey
      ensures View() == UndoJustify(old(View()))
    {
      hide Splice;
      if cutBuffer == [] {
        return;
      }
      var r := cursorRow + 1;
      while r > 0
        invariant 0 <= r <= cursorRow + 1 && View() == old(View())
        invariant BlockStart(text, r) == BlockStart(text, cursorRow + 1)
      {
        r := r - 1;
        if !Justifiable(text[r]) {
          r := r + 1;
          break;
        }
      }
      ReplaceTextLines(r, cursorRow - r + 1, cutBuffer, true);
      cutBuffer := [];
      lastKey := NoKey;
    }

    // --- Loading and saving ------------------------------------------------------------

    method Load(file: seq<char>, isflowed: bool, delsp: bool)
      requires text != []
      modifies this`text, this`cursorRow, this`cursorCol
      ensures View() == old(View()).(text := DraftFiles.Load(file, isflowed, delsp), row := 0, col := 0)
    {
      var lines := DraftFiles.ReadAll(file, isflowed, delsp);
      ReplaceTextLines(0, |text|, lines, true);
      assert Splice(old(text), 0, |old(text)|, lines) == lines;
      cursorRow := 0;
    }

    method GetUTF8Text(i: nat, isflowed: bool) returns (s: seq<char>)
      requires i < |text|
      ensures s == DraftFiles.LineText(text[i], isflowed)
    {
      s := text[i].text;
      if isflowed {
        if text[i].flowed {
          s := s + [' '];
        } else {
          var e := |s|;
          assert s[..e] == s;
          while e > 0 && s[e - 1] == ' '
            invariant 0 <= e <= |s| && TrimEnd(s[..e]) == TrimEnd(s)
          {
            assert s[..e][..e - 1] == s[..e - 1];
            e := e - 1;
          }
          s := s[..e];
        }
      }
    }

    method Save(isflowed: bool) returns (out: seq<char>)
      ensures out == DraftFiles.Save(text, isflowed)
    {
      out := [];
      var i := 0;
      assert text[0..] == text;
      while i < |text|
        invariant i <= |text| && out + DraftFiles.Save(text[i..], isflowed) == DraftFiles.Save(text, isflowed)
      {
        var s := GetUTF8Text(i, isflowed);
        DraftFiles.SaveFirst(text[i..], isflowed);
        assert text[i..][1..] == text[i + 1..];
        out := out + s + ['\n'];
        i := i + 1;
      }
      assert text[i..] == [];
    }

    // --- Where the cursor is shown -----------------------------------------------------

    // The first place, from the boundary `from` on, that brings column colAfter
    // within w columns.
    method LeastShift(line: seq<char>, from: nat, colAfter: nat, w: nat) returns (k: nat)
      requires from <= |line| && Boundary(font, line, from)
      ensures from <= k <= |line| && Boundary(font, line, k)
      ensures k < |line| ==> PrefixCol(font, line, k) + w >= colAfter
      ensures forall j :: from <= j < k && Boundary(font, line, j) ==> PrefixCol(font, line, j) + w < colAfter
    {
      k := from;
      while k < |line|
        invariant from <= k <= |line| && Boundary(font, line, k)
        invariant forall j :: from <= j < k && Boundary(font, line, j) ==>
          PrefixCol(font, line, j) + w < colAfter
      {
        var col := WidthOf(line[..k]);
        if col + w >= colAfter {
          break;
        }
        ghost var at := k;
        k := k + 1;
        while k < |line| && !font.Breaks(line[k - 1], line[k])
          invariant at < k <= |line|
          invariant forall j :: at < j < k ==> !Boundary(font, line, j)
        {
          k := k + 1;
        }
      }
    }

    method WidthOf(s: seq<char>) returns (w: nat)
      ensures w == Width(font, s)
    {
      GraphemesDoNotChangeWidth(font, s, 0);
      w := GraphemeSum(font, s, 0);
    }

    method CursorWidthAt(line: seq<char>, i: nat, col: nat) returns (cw: nat)
      requires i <= |line| && col == PrefixCol(font, line, i)
      ensures cw == CursorWidth(font, line, i)
    {
      cw := 1;
      if i < |line| {
        var p := i + 1;
        while p < |line| && !font.Breaks(line[p - 1], line[p])
          invariant i < p <= |line|
          invariant forall j :: i < j < p ==> !Boundary(font, line, j)
        {
          p := p + 1;
        }
        IsNextBoundary(font, line, i, p);
        PrefixColMonotone(font, line, i, p);
        GraphemesDoNotChangeWidth(font, line[i..p], col);
        cw := GraphemeSum(font, line[i..p], col);
      }
    }

    // The shift for a line that does not fit in w columns.
    method ShiftLongLine(line: seq<char>, i: nat, w: nat, shift: nat) returns (k: nat)
      requires i <= |line| && Stable(font, line, i) && w > 0 && shift <= i
      ensures shift <= k <= |line|
      ensures var cw := CursorWidth(font, line, i);
        cw <= w - 1 ==> k <= i && PrefixCol(font, line, i) + cw <= PrefixCol(font, line, k) + (w - 1)
      ensures Stable(font, line, shift) &&
        PrefixCol(font, line, i) + CursorWidth(font, line, i) <= PrefixCol(font, line, shift) + (w - 1)
        ==> k == shift
    {
      var cursorAt := WidthOf(line[..i]);
      var cw := CursorWidthAt(line, i, cursorAt);
      var colAfter := cursorAt + cw;
      var leastCol := if colAfter >= w - 1 then colAfter - (w - 1) else 0;
      var from := GetIndexOfCol(line, leastCol);
      IndexOfColIsLast(font, line, leastCol);
      var least := LeastShift(line, from, colAfter, w - 1);
      LongLineShift(font, line, i, w - 1, shift, from, least);
      k := if shift < least then least else shift;
    }

    method ShiftFor(line: seq<char>, i: nat, w: nat, shift: nat) returns (k: nat)
      requires i <= |line| && Stable(font, line, i) && w > 0
      ensures ShowsCursor(font, line, i, w, shift, k)
    {
      var lineWidth := WidthOf(line);
      assert line[..|line|] == line;
      PrefixColMonotone(font, line, i, |line|);
      k := shift;
      if k >= i {
        k := i;
        while k > 0
          invariant 0 <= k <= i
        {
          k := k - 1;
          if k > 0 && font.Breaks(line[k - 1], line[k]) {
            break;
          }
        }
      }
      if lineWidth < w {
        k := 0;
      } else {
        k := ShiftLongLine(line, i, w, k);
        if k <= i {
          PrefixColMonotone(font, line, k, i);
        }
      }
    }

    /** Scrolls the line sideways to show the cursor. */
    method GetCursorPosition(width: nat) returns (row: nat, col: int, markBehind: bool)
      requires Valid()
      modifies this`horizShift
      ensures row == cursorRow
      ensures markBehind <==> !(marked && Marked(font, View()).1)
      ensures var line, i := text[cursorRow].text, View().Index(font);
        ShowsCursor(font, line, i, if width < 1 then 1 else width, old(horizShift), horizShift) &&
        col == PrefixCol(font, line, i) - PrefixCol(font, line, horizShift)
    {
      var line := text[cursorRow].text;
      var i := GetIndexOfCol(line, cursorCol);
      IndexOfColIsLast(font, line, cursorCol);
      horizShift := ShiftFor(line, i, if width < 1 then 1 else width, horizShift);
      row := cursorRow;
      var cursorAt: int := WidthOf(line[..i]);
      var shiftedAt: int := WidthOf(line[..horizShift]);
      col := cursorAt - shiftedAt;
      markBehind := true;
      if marked {
        var _, swapped := GetMarkedRegion();
        markBehind := !swapped;
      }
    }

    // --- Keys --------------------------------------------------------------------------

    // Shifted movement starts a region, most other keys drop it.
    method TrackMark(key: Key) returns (last: Key)
      requires Valid()
      modifies this`lastKey, this`marked, this`markRow, this`markPos
      ensures View() == BeforeKey(font, old(View()), key) && last == old(lastKey)
    {
      last := lastKey;
      lastKey := key;
      if key.Shifted() {
        if !marked {
          Mark();
        }
      } else if marked && !key.KeepsMark() {
        marked := false;
      }
    }

    method ClearLine(last: Key)
      requires Valid()
      modifies this
      ensures View() == DeleteChar(font, ToEnd(font, SetMark(font,
        if last.ClearToEol? then old(View()) else old(View()).(cut := []))), true)
    {
      if !last.ClearToEol? {
        cutBuffer := [];
      }
      Mark();
      MoveToEnd();
      DeleteCharacter(true);
    }

    method ProcessKey(key: Key)
      requires Valid()
      modifies this
      ensures Valid() && View() == Press(env, old(View()), key)
    {
      hide DeleteChar, MoveLeft, MoveRight, NewLine, Type, Yank, JustifyHere, UndoJustify, ToEnd, SetMark, BeforeKey;
      var last := TrackMark(key);
      match key
      case NoKey =>
      case Up(_) =>
        if cursorRow > 0 {
          cursorRow := cursorRow - 1;
        }
      case Down(_) =>
        if cursorRow + 1 < |text| {
          cursorRow := cursorRow + 1;
        }
      case Left(_) => GoLeft();
      case Right(_) => GoRight();
      case Home(_) =>
        cursorCol := 0;
        horizShift := 0;
      case End(_) => MoveToEnd();
      case Enter => EnterKey();
      case Backspace =>
        GoLeft();
        DeleteCharacter(false);
      case Del => DeleteCharacter(false);
      case Cut =>
        if marked {
          DeleteCharacter(false);
        }
      case ClearToEol => ClearLine(last);
      case Justify =>
        if last.Justify? {
          UndoJustification();
        } else {
          JustifyParagraph();
        }
      case Paste => PasteText(cutBuffer);
      case Char(ch) => InsertKeyPos(ch);
    }
  }
}
