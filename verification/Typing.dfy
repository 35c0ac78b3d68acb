/** What typing does to the document: to the line, to the paragraphs, and when BACKSPACE takes
    it back. */
module Typing {
  import opened Columns
  import opened WordWrap
  import opened EditorState
  import opened EditorLaws
  import opened Paragraphs
  import opened FlatText
  import LB = LineBreaks
  import E = Editor

  predicate IsControl(ch: char) { ch < ' ' && ch != '\t' }

  /** Control characters other than tab only drop the mark. */
  lemma ControlsIgnored(e: Env, s: State, ch: char)
    requires s.Valid() && IsControl(ch)
    ensures var r := Press(e, s, Char(ch));
      r.text == s.text && r.row == s.row && r.col == s.col && r.cut == s.cut && !r.marked
  {}

  // --- The line ----------------------------------------------------------------------

  // The cursor's line with the character put in before the cursor.
  function LineWith(f: Font, s: State, ch: char): seq<char>
    requires s.Valid()
  {
    s.Here().text[..s.Index(f)] + [ch] + s.Here().text[s.Index(f)..]
  }

  // Where the cursor is on that line before it is wrapped.
  function IndexWith(f: Font, s: State, ch: char): (j: nat)
    requires s.Valid()
    ensures j <= |LineWith(f, s, ch)|
  {
    IndexOfCol(f, LineWith(f, s, ch), Width(f, s.Here().text[..s.Index(f)] + [ch]))
  }

  // The wrapper leaves what is then before the cursor in one piece.
  predicate OnePiece(e: Env, s: State, ch: char)
    requires s.Valid()
  {
    |e.wrap(LineWith(e.font, s, ch)[..IndexWith(e.font, s, ch)])| <= 1
  }

  lemma Untyped(f: Font, s: State, ch: char)
    requires s.Valid()
    ensures var t := Insert(f, s.(marked := false, lastKey := Char(ch)), ch);
      t.text == s.text[s.row := Line(LineWith(f, s, ch), s.Here().flowed)] && t.row == s.row &&
      t.cut == s.cut && t.Index(f) == IndexWith(f, s, ch)
  {}

  lemma TypedIsWrapped(e: Env, s: State, ch: char)
    requires s.Valid() && !IsControl(ch)
    ensures Press(e, s, Char(ch)) == Autowrap(e, Insert(e.font, s.(marked := false, lastKey := Char(ch)), ch))
  {}

  // The cursor at the end of a text, put before another that a cursor can rest in front of.
  lemma RestBehind(f: Font, before: seq<char>, after: seq<char>)
    requires before != [] && Stable(f, after, 0)
    ensures var j, line := IndexOfCol(f, before + after, Width(f, before)), before + after;
      j <= |before| && Stable(f, line, j) && (j == |before| <==> Joins(f, before, after)) &&
      (j == |before| <==> Boundary(f, line, |before|))
  {
    hide IndexOfCol, Width, Stable, Joins, Visible;
    var line := before + after;
    var j := IndexOfCol(f, line, Width(f, before));
    IndexOfColIsLast(f, line, Width(f, before));
    JoinColumn(f, before, after);
    JoinsMeans(f, before, after);
    assert line[..|before|] == before;
    if |before| < j {
      PastFirst(f, before, after, j);
    }
  }

  lemma PastFirst(f: Font, before: seq<char>, after: seq<char>, j: nat)
    requires before != [] && Stable(f, after, 0) && |before| < j <= |before + after| && Boundary(f, before + after, j)
    ensures Width(f, before) < PrefixCol(f, before + after, j)
  {
    hide Width, Visible;
    var line, i := before + after, |before|;
    NextBoundaryShift(f, before, after, 0);
    NextBoundaryMeans(f, line, i);
    var n := NextBoundary(f, line, i);
    PrefixColMonotone(f, line, i, n);
    PrefixColMonotone(f, line, n, j);
    assert line[..i] == before && line[i..n] == after[0..NextBoundary(f, after, 0)];
    VisibleIffWide(f, line[i..n], PrefixCol(f, line, i));
  }

  lemma CursorBehind(f: Font, s: State, ch: char)
    requires s.Valid()
    ensures var i, j, line := s.Index(f), IndexWith(f, s, ch), LineWith(f, s, ch);
      j <= i + 1 && Stable(f, line, j) && (j == i + 1 <==> Joins(f, s.Before(f) + [ch], s.After(f))) &&
      (j == i + 1 <==> Boundary(f, line, i + 1))
  {
    hide IndexOfCol, Width, Stable, Joins, Boundary;
    IndexOfColIsLast(f, s.Here().text, s.col);
    assert s.Here().text == s.Before(f) + s.After(f);
    assert Joins(f, s.Before(f), s.After(f)) by { RestJoins(f, s.Here().text, s.Index(f)); }
    JoinsMeans(f, s.Before(f), s.After(f));
    RestBehind(f, s.Before(f) + [ch], s.After(f));
  }

  lemma RestJoins(f: Font, line: seq<char>, i: nat)
    requires i <= |line| && Stable(f, line, i)
    ensures Joins(f, line[..i], line[i..])
  {
    assert line[..i] + line[i..] == line;
  }

  /** While the line need not be wrapped, the character goes into it where the cursor is. All other
      lines, the line's flag and the cut buffer stay. The cursor is behind the character exactly
      when it joins what follows without running into it, and further left otherwise. */
  lemma TypesInPlace(e: Env, s: State, ch: char)
    requires s.Valid() && !IsControl(ch) && OnePiece(e, s, ch)
    ensures var r, i, line := Press(e, s, Char(ch)), s.Index(e.font), s.Here().text;
      r.text == s.text[s.row := Line(line[..i] + [ch] + line[i..], s.Here().flowed)] &&
      r.row == s.row && r.cut == s.cut && !r.marked && r.Index(e.font) <= i + 1 &&
      (r.Index(e.font) == i + 1 <==> Joins(e.font, line[..i] + [ch], line[i..])) &&
      Flat(r.text) == UpTo(s.text, s.row, i) + [ch] + From(s.text, s.row, i)
  {
    hide Press, Insert, Flat, IndexOfCol, Width, Joins;
    var f, i, line := e.font, s.Index(e.font), LineWith(e.font, s, ch);
    Untyped(f, s, ch);
    TypedIsWrapped(e, s, ch);
    CursorBehind(f, s, ch);
    FlatTyped(s.text, s.row, i, ch);
  }

  lemma FlatTyped(text: seq<Line>, row: nat, i: nat, ch: char)
    requires row < |text| && i <= |text[row].text|
    ensures var line := text[row].text;
      Flat(text[row := Line(line[..i] + [ch] + line[i..], text[row].flowed)]) ==
        UpTo(text, row, i) + [ch] + From(text, row, i)
  {
    hide Flat, Head, Rest;
    var line := text[row].text;
    var typed := Line(line[..i] + [ch] + line[i..], text[row].flowed);
    FlatSplice(text, row, 1, [typed]);
    FlatOne(typed);
    assert text[row := typed] == Splice(text, row, 1, [typed]);
  }

  // --- The paragraphs ------------------------------------------------------------------

  lemma {:induction false} PlaceFromFirst(lines: seq<Line>, row: nat, k: nat)
    requires 0 < row <= |lines|
    ensures var p := ParagraphOf(lines[1..], row - 1);
      ParagraphOf(lines, row) == p + (if lines[0].flowed then 0 else 1) &&
      OffsetOf(lines, row, k) ==
        OffsetOf(lines[1..], row - 1, k) + if lines[0].flowed && p == 0 then |lines[0].text| else 0
  {
    if row > 1 {
      assert lines[1..][row - 2] == lines[row - 1];
      PlaceFromFirst(lines, row - 1, |lines[row - 1].text| + k);
      PlaceFromFirst(lines, row - 1, k);
    }
  }

  lemma {:induction false} OffsetMoves(lines: seq<Line>, row: nat, k: nat)
    requires row <= |lines|
    ensures OffsetOf(lines, row, k) == OffsetOf(lines, row, 0) + k
  {
    if row > 0 && lines[row - 1].flowed {
      OffsetMoves(lines, row - 1, |lines[row - 1].text| + k);
      OffsetMoves(lines, row - 1, |lines[row - 1].text|);
    }
  }

  /** The paragraphs with a character put into one of them. */
  function WithCharacter(paragraphs: seq<seq<char>>, p: nat, k: nat, ch: char): seq<seq<char>>
    requires p < |paragraphs| && k <= |paragraphs[p]|
  {
    paragraphs[p := paragraphs[p][..k] + [ch] + paragraphs[p][k..]]
  }

  lemma {:induction false} PlaceExists(lines: seq<Line>, row: nat, k: nat)
    requires row < |lines| && k <= |lines[row].text|
    ensures var p := ParagraphOf(lines, row);
      p < |Join(lines)| && OffsetOf(lines, row, k) <= |Join(lines)[p]|
  {
    if row > 0 {
      PlaceFromFirst(lines, row, k);
      PlaceExists(lines[1..], row - 1, k);
    }
  }

  lemma JoinFirst(line: Line, lines: seq<Line>)
    ensures var rest := Join(lines);
      Join([line] + lines) ==
        if line.flowed && rest != [] then [line.text + rest[0]] + rest[1..] else [line.text] + rest
  {
    assert ([line] + lines)[1..] == lines;
  }

  lemma WithBehind(line: seq<char>, k: nat, ch: char, more: seq<char>)
    requires k <= |line|
    ensures line[..k] + [ch] + line[k..] + more == (line + more)[..k] + [ch] + (line + more)[k..]
  {
    assert (line + more)[..k] == line[..k] && (line + more)[k..] == line[k..] + more;
    assert line[..k] + [ch] + line[k..] + more == line[..k] + [ch] + (line[k..] + more);
  }

  lemma TypedFirst(line: seq<char>, k: nat, ch: char, flowed: bool, lines: seq<Line>)
    requires k <= |line|
    ensures var all := Join([Line(line, flowed)] + lines);
      all != [] && k <= |all[0]| &&
      Join([Line(line[..k] + [ch] + line[k..], flowed)] + lines) == WithCharacter(all, 0, k, ch)
  {
    hide Join;
    JoinFirst(Line(line, flowed), lines);
    JoinFirst(Line(line[..k] + [ch] + line[k..], flowed), lines);
    var rest := Join(lines);
    if flowed && rest != [] {
      WithBehind(line, k, ch, rest[0]);
    }
  }

  // A line before the ones with the character.
  lemma TypedBelow(line: Line, rest: seq<seq<char>>, p: nat, at: nat, ch: char)
    requires p < |rest| && at <= |rest[p]|
    ensures var w := WithCharacter(rest, p, at, ch);
      if !line.flowed then [line.text] + w == WithCharacter([line.text] + rest, p + 1, at, ch)
      else if p > 0 then [line.text + w[0]] + w[1..] == WithCharacter([line.text + rest[0]] + rest[1..], p, at, ch)
      else [line.text + w[0]] + w[1..] == WithCharacter([line.text + rest[0]] + rest[1..], 0, |line.text| + at, ch)
  {
    var n := |line.text|;
    if line.flowed && p == 0 {
      assert (line.text + rest[0])[..n + at] == line.text + rest[0][..at];
      assert (line.text + rest[0])[n + at..] == rest[0][at..];
      assert line.text + (rest[0][..at] + [ch] + rest[0][at..]) == line.text + rest[0][..at] + [ch] + rest[0][at..];
    }
  }

  lemma {:induction false} JoinTyped(lines: seq<Line>, row: nat, k: nat, ch: char)
    requires row < |lines| && k <= |lines[row].text|
    ensures var p, at, line := ParagraphOf(lines, row), OffsetOf(lines, row, k), lines[row].text;
      p < |Join(lines)| && at <= |Join(lines)[p]| &&
      Join(lines[row := Line(line[..k] + [ch] + line[k..], lines[row].flowed)]) ==
        WithCharacter(Join(lines), p, at, ch)
  {
    hide Join, WithCharacter;
    var line := lines[row].text;
    var typed := Line(line[..k] + [ch] + line[k..], lines[row].flowed);
    PlaceExists(lines, row, k);
    assert lines == [lines[0]] + lines[1..];
    if row == 0 {
      TypedFirst(line, k, ch, lines[0].flowed, lines[1..]);
      assert lines[0 := typed] == [typed] + lines[1..];
    } else {
      PlaceFromFirst(lines, row, k);
      JoinTyped(lines[1..], row - 1, k, ch);
      assert lines[row := typed] == [lines[0]] + lines[1..][row - 1 := typed];
      JoinFirst(lines[0], lines[1..]);
      JoinFirst(lines[0], lines[1..][row - 1 := typed]);
      TypedBelow(lines[0], Join(lines[1..]), ParagraphOf(lines[1..], row - 1), OffsetOf(lines[1..], row - 1, k), ch);
      SameNumber(Join(lines[1..]), ParagraphOf(lines[1..], row - 1), OffsetOf(lines[1..], row - 1, k), ch);
    }
  }

  lemma SameNumber(paragraphs: seq<seq<char>>, p: nat, k: nat, ch: char)
    requires p < |paragraphs| && k <= |paragraphs[p]|
    ensures |WithCharacter(paragraphs, p, k, ch)| == |paragraphs|
  {}

  /** Typing puts the character into the cursor's paragraph at the cursor's place, wrapping or not,
      exactly when nothing is wrapped, or what is before the cursor has no line breaks in it and
      does not end in a symbol and an opening punctuation. The cursor stays in its paragraph, and is
      right behind the character exactly when that does not run into what follows. */
  lemma TypesInParagraph(l: Locale, s: State, ch: char)
    requires s.Valid() && !IsControl(ch)
    ensures var r, i := Press(E.EnvOf(l), s, Char(ch)), s.Index(l.font);
      var p, k := ParagraphOf(s.text, s.row), OffsetOf(s.text, s.row, i);
      var before := LineWith(l.font, s, ch)[..IndexWith(l.font, s, ch)];
      p < |Join(s.text)| && k <= |Join(s.text)[p]| &&
      (Join(r.text) == WithCharacter(Join(s.text), p, k, ch) <==>
        OnePiece(E.EnvOf(l), s, ch) || (Plain(before) && !LB.EndsOpened(l.Classes(before)))) &&
      (Join(r.text) == WithCharacter(Join(s.text), p, k, ch) ==>
        ParagraphOf(r.text, r.row) == p &&
        (OffsetOf(r.text, r.row, r.Index(l.font)) == k + 1 <==> Joins(l.font, s.Before(l.font) + [ch], s.After(l.font))))
  {
    hide Press, Autowrap, Insert, Wrap, Join, ParagraphOf, OffsetOf, IndexOfCol, Width, Joins, Plain,
         LB.EndsOpened, WithCharacter;
    var i, j := s.Index(l.font), IndexWith(l.font, s, ch);
    var t := Insert(l.font, s.(marked := false, lastKey := Char(ch)), ch);
    Untyped(l.font, s, ch);
    TypedIsWrapped(E.EnvOf(l), s, ch);
    AutowrapConserves(l, t);
    JoinTyped(s.text, s.row, i, ch);
    CursorBehind(l.font, s, ch);
    PlacesDependOnPrefix(t.text, s.text, s.row, j);
    OffsetMoves(s.text, s.row, i);
    OffsetMoves(s.text, s.row, j);
  }

  // --- ENTER ---------------------------------------------------------------------------

  /** The paragraphs with one of them cut in two. */
  function CutInTwo(paragraphs: seq<seq<char>>, p: nat, k: nat): seq<seq<char>>
    requires p < |paragraphs| && k <= |paragraphs[p]|
  {
    paragraphs[..p] + [paragraphs[p][..k], paragraphs[p][k..]] + paragraphs[p + 1..]
  }

  lemma CutsFirst(a: seq<char>, b: seq<char>, rest: seq<seq<char>>)
    ensures CutInTwo([a + b] + rest, 0, |a|) == [a, b] + rest
  {
    assert (a + b)[..|a|] == a && (a + b)[|a|..] == b;
    assert ([a + b] + rest)[1..] == rest;
  }

  lemma CutFirst(a: seq<char>, b: seq<char>, flowed: bool, lines: seq<Line>)
    ensures var all := Join([Line(a + b, flowed)] + lines);
      all != [] && |a| <= |all[0]| &&
      Join([Line(a, false)] + ([Line(b, flowed)] + lines)) == CutInTwo(all, 0, |a|)
  {
    hide Join, CutInTwo;
    JoinFirst(Line(a + b, flowed), lines);
    JoinFirst(Line(b, flowed), lines);
    JoinFirst(Line(a, false), [Line(b, flowed)] + lines);
    var rest := Join(lines);
    if flowed && rest != [] {
      CutsFirst(a, b + rest[0], rest[1..]);
      assert a + b + rest[0] == a + (b + rest[0]);
      assert [a] + ([b + rest[0]] + rest[1..]) == [a, b + rest[0]] + rest[1..];
    } else {
      CutsFirst(a, b, rest);
      assert [a] + ([b] + rest) == [a, b] + rest;
    }
  }

  // A line in front of the paragraphs: it becomes one of its own, or flows into the first.
  lemma CutBelow(text: seq<char>, rest: seq<seq<char>>, p: nat, at: nat)
    requires p < |rest| && at <= |rest[p]|
    ensures [text] + CutInTwo(rest, p, at) == CutInTwo([text] + rest, p + 1, at)
  {}

  lemma CutLater(text: seq<char>, rest: seq<seq<char>>, p: nat, at: nat)
    requires 0 < p < |rest| && at <= |rest[p]|
    ensures var w := CutInTwo(rest, p, at);
      w != [] && [text + w[0]] + w[1..] == CutInTwo([text + rest[0]] + rest[1..], p, at)
  {
    var all := [text + rest[0]] + rest[1..];
    assert all[..p] == [text + rest[0]] + rest[1..p] && all[p + 1..] == rest[p + 1..] && all[p] == rest[p];
    assert CutInTwo(rest, p, at)[1..] == rest[1..p] + [rest[p][..at], rest[p][at..]] + rest[p + 1..];
  }

  lemma CutFlowed(text: seq<char>, rest: seq<seq<char>>, at: nat)
    requires rest != [] && at <= |rest[0]|
    ensures var w := CutInTwo(rest, 0, at);
      w != [] && [text + w[0]] + w[1..] == CutInTwo([text + rest[0]] + rest[1..], 0, |text| + at)
  {
    var all := [text + rest[0]] + rest[1..];
    assert all[0][..|text| + at] == text + rest[0][..at] && all[0][|text| + at..] == rest[0][at..];
    assert all[1..] == rest[1..] && all[..0] == [] && rest[..0] == [];
    assert CutInTwo(rest, 0, at)[1..] == [rest[0][at..]] + rest[1..];
  }

  lemma {:induction false} JoinCut(lines: seq<Line>, row: nat, k: nat)
    requires row < |lines| && k <= |lines[row].text|
    ensures var p, at, line := ParagraphOf(lines, row), OffsetOf(lines, row, k), lines[row];
      p < |Join(lines)| && at <= |Join(lines)[p]| &&
      Join(Splice(lines, row, 1, [Line(line.text[..k], false), Line(line.text[k..], line.flowed)])) ==
        CutInTwo(Join(lines), p, at)
  {
    hide Join, CutInTwo;
    var line := lines[row];
    var halves := [Line(line.text[..k], false), Line(line.text[k..], line.flowed)];
    PlaceExists(lines, row, k);
    assert lines == [lines[0]] + lines[1..];
    if row == 0 {
      CutFirst(line.text[..k], line.text[k..], line.flowed, lines[1..]);
      assert line.text[..k] + line.text[k..] == line.text;
      assert Splice(lines, 0, 1, halves) == [halves[0]] + ([halves[1]] + lines[1..]);
    } else {
      PlaceFromFirst(lines, row, k);
      JoinCut(lines[1..], row - 1, k);
      assert Splice(lines, row, 1, halves) == [lines[0]] + Splice(lines[1..], row - 1, 1, halves);
      JoinFirst(lines[0], lines[1..]);
      JoinFirst(lines[0], Splice(lines[1..], row - 1, 1, halves));
      var p, at := ParagraphOf(lines[1..], row - 1), OffsetOf(lines[1..], row - 1, k);
      if !lines[0].flowed {
        CutBelow(lines[0].text, Join(lines[1..]), p, at);
      } else if p > 0 {
        CutLater(lines[0].text, Join(lines[1..]), p, at);
      } else {
        CutFlowed(lines[0].text, Join(lines[1..]), at);
      }
    }
  }

  /** ENTER cuts the cursor's paragraph in two where the cursor is, flowed lines or not, and the
      cursor is then at the start of the second. */
  lemma EnterCutsParagraph(e: Env, s: State)
    requires s.Valid()
    ensures var r, i := Press(e, s, Enter), s.Index(e.font);
      var p, k := ParagraphOf(s.text, s.row), OffsetOf(s.text, s.row, i);
      p < |Join(s.text)| && k <= |Join(s.text)[p]| && Join(r.text) == CutInTwo(Join(s.text), p, k) &&
      ParagraphOf(r.text, r.row) == p + 1 && OffsetOf(r.text, r.row, r.Index(e.font)) == 0
  {
    hide PressEnter, Join, CutInTwo, IndexOfCol, Splice;
    var r, i := Press(e, s, Enter), s.Index(e.font);
    var halves := [Line(s.Before(e.font), false), Line(s.After(e.font), s.Here().flowed)];
    AfterEnter(e.font, s);
    JoinCut(s.text, s.row, i);
    SpliceAt(s.text, s.row, 1, halves);
    assert r.text[s.row + 0] == halves[0] && r.text[s.row + 1] == halves[1];
    RestAtStartOfRest(e.font, s.Here().text, s.col);
    SpliceBefore(s.text, s.row, halves);
    PlacesDependOnPrefix(r.text, s.text, s.row, 0);
  }

  lemma SpliceBefore(text: seq<Line>, row: nat, lines: seq<Line>)
    requires row < |text|
    ensures Splice(text, row, 1, lines)[..row] == text[..row]
  {}

  // --- Typing and BACKSPACE --------------------------------------------------------------

  // Every grapheme is a single character.
  predicate Singles(f: Font, s: seq<char>) { GraphemeCount(f, s) == |s| }

  lemma {:induction false} SinglesMeans(f: Font, s: seq<char>, k: nat)
    requires Singles(f, s) && k <= |s|
    ensures Boundary(f, s, k) && Singles(f, s[k..])
  {
    if k == 0 {
      assert s[0..] == s;
    } else {
      assert NextBoundary(f, s, 0) == 1;
      SinglesMeans(f, s[1..], k - 1);
      assert s[1..][k - 1..] == s[k..];
    }
  }

  lemma SinglesBoundary(f: Font, line: seq<char>, q: nat, k: nat)
    requires q < k <= |line| && Singles(f, line[q..])
    ensures Boundary(f, line, k) && Singles(f, line[k..])
  {
    SinglesMeans(f, line[q..], k - q);
    assert line[q..][k - q..] == line[k..];
  }

  // What is left of a line after DELETE at index q.
  lemma DeletedLength(f: Font, line: seq<char>, q: nat)
    requires q < |line|
    ensures |line[..q] + DropGrapheme(f, line[q..])| == |line| - 1 <==> Singles(f, line[q..])
  {}

  // BACKSPACE, by the place from which it deletes.
  lemma BackspaceDeletes(f: Font, a: State)
    requires a.Valid() && !a.marked && (a.Index(f) > 0 || a.row == 0)
    ensures var line, i := a.Here().text, a.Index(f);
      var q := if i > 0 then IndexOfCol(f, line, PrefixCol(f, line, PrevBoundary(f, line, i))) else 0;
      var r := PressBackspace(f, a);
      r.row == a.row && r.cut == a.cut &&
      (q < |line| ==> r.text == a.text[a.row := Line(line[..q] + DropGrapheme(f, line[q..]), a.Here().flowed)] &&
                      r.col == Width(f, line[..q])) &&
      (q == |line| && a.row + 1 < |a.text| ==> |r.text| == |a.text| - 1) &&
      (q == |line| && a.row + 1 == |a.text| ==> r.text == a.text)
  {
    hide IndexOfCol, Width, DropGrapheme;
  }

  lemma OneLineFewer(f: Font, a: State)
    requires a.Valid() && !a.marked && a.row > 0 && a.Index(f) == 0
    ensures |PressBackspace(f, a).text| == |a.text| - 1
  {
    hide PressBackspace, IndexOfCol;
    BackspaceAtStart(f, a);
  }

  // The place from which BACKSPACE deletes if it restores the line.
  lemma RestoresFrom(f: Font, line: seq<char>, i: nat, j: nat, q: nat)
    requires i < |line| && q <= i && q < |line| && Singles(f, line[q..])
    requires j <= i + 1 && (j == i + 1 <==> Boundary(f, line, i + 1)) && Stable(f, line, j)
    requires q == if j > 0 then IndexOfCol(f, line, PrefixCol(f, line, PrevBoundary(f, line, j))) else 0
    ensures q == i && Stable(f, line, i)
  {
    hide IndexOfCol, Width, Singles;
    SinglesBoundary(f, line, q, i + 1);
    LeftOfRest(f, line, j);
    PrevBoundaryMeans(f, line, j);
    if q < i {
      SinglesBoundary(f, line, q, i);
    }
  }

  // Deleting behind an invisible character does not take it back.
  lemma InvisibleStays(f: Font, before: seq<char>, ch: char, after: seq<char>)
    requires after != [] && Stable(f, after, 0) && !Visible(f, [ch])
    ensures before + [ch] + DropGrapheme(f, after) != before + after
  {
    hide Visible, DropGrapheme;
    assert after[0..NextBoundary(f, after, 0)] == after[..NextBoundary(f, after, 0)];
    DropsAnother(f, [ch], after);
    assert before + [ch] + DropGrapheme(f, after) == before + ([ch] + DropGrapheme(f, after));
    assert (before + ([ch] + DropGrapheme(f, after)))[|before|..] == [ch] + DropGrapheme(f, after);
    assert (before + after)[|before|..] == after;
  }

  lemma InvisiblePart(f: Font, line: seq<char>, p: nat, i: nat)
    requires p <= i < |line| && !Visible(f, line[p..i + 1])
    ensures !Visible(f, [line[i]])
  {
    assert line[p..i + 1][i - p] == line[i];
  }

  // A character taken back from its own place.
  lemma TakenBack(f: Font, before: seq<char>, ch: char, after: seq<char>)
    ensures var line, i := before + [ch] + after, |before|;
      Singles(f, line[i..]) ==> line[..i] + DropGrapheme(f, line[i..]) == before + after
  {
    assert (before + [ch] + after)[|before|..] == [ch] + after;
  }

  lemma LongerWithout(f: Font, before: seq<char>, ch: char, after: seq<char>, q: nat)
    ensures var line := before + [ch] + after;
      q < |line| && line[..q] + DropGrapheme(f, line[q..]) == before + after ==> Singles(f, line[q..])
  {
    var line := before + [ch] + after;
    if q < |line| {
      DeletedLength(f, line, q);
    }
  }

  lemma BackspaceRestores(f: Font, before: seq<char>, ch: char, after: seq<char>, j: nat, q: nat)
    requires var line, i := before + [ch] + after, |before|;
      Stable(f, after, 0) && j <= i + 1 && (j == i + 1 <==> Boundary(f, line, i + 1)) && Stable(f, line, j) &&
      q == if j > 0 then IndexOfCol(f, line, PrefixCol(f, line, PrevBoundary(f, line, j))) else 0
    ensures var line, i := before + [ch] + after, |before|;
      (q < |line| && line[..q] + DropGrapheme(f, line[q..]) == before + after <==>
        Stable(f, line, i) && Singles(f, line[i..])) &&
      (Stable(f, line, i) && Singles(f, line[i..]) ==> q == i)
  {
    hide IndexOfCol, Width, Stable, Singles, DropGrapheme, Visible, Boundary;
    var line, i := before + [ch] + after, |before|;
    if Stable(f, line, i) && Singles(f, line[i..]) {
      SinglesBoundary(f, line, i, i + 1);
      PrevIs(f, line, i);
      LeftOfRest(f, line, j);
      TakenBack(f, before, ch, after);
    } else if q < |line| && line[..q] + DropGrapheme(f, line[q..]) == before + after {
      LongerWithout(f, before, ch, after, q);
      NotElsewhere(f, before, ch, after, j, q);
    }
  }

  lemma PrevIs(f: Font, line: seq<char>, i: nat)
    requires i < |line| && Stable(f, line, i)
    ensures PrevBoundary(f, line, i + 1) == i
  {
    PrevBoundaryMeans(f, line, i + 1);
  }

  lemma NotElsewhere(f: Font, before: seq<char>, ch: char, after: seq<char>, j: nat, q: nat)
    requires var line, i := before + [ch] + after, |before|;
      Stable(f, after, 0) && j <= i + 1 && (j == i + 1 <==> Boundary(f, line, i + 1)) && Stable(f, line, j) &&
      q == (if j > 0 then IndexOfCol(f, line, PrefixCol(f, line, PrevBoundary(f, line, j))) else 0) &&
      q < |line| && Singles(f, line[q..]) && line[..q] + DropGrapheme(f, line[q..]) == before + after
    ensures var line, i := before + [ch] + after, |before|;
      Stable(f, line, i) && Singles(f, line[i..])
  {
    hide IndexOfCol, Width, Stable, Singles, DropGrapheme, Visible, Boundary;
    var line, i := before + [ch] + after, |before|;
    if q <= i {
      RestoresFrom(f, line, i, j, q);
    } else {
      var p := PrevBoundary(f, line, j);
      LeftOfRest(f, line, j);
      InvisiblePart(f, line, p, i);
      assert line[..q] == before + [ch] && line[q..] == after;
      InvisibleStays(f, before, ch, after);
    }
  }

  lemma JoinsAtRest(f: Font, before: seq<char>, after: seq<char>)
    requires Stable(f, before + after, |before|)
    ensures Stable(f, after, 0)
  {
    hide Stable;
    assert Joins(f, before, after);
    JoinsMeans(f, before, after);
  }

  /** Typed without wrapping, a character is taken back by BACKSPACE if and only if the cursor can
      rest before it and every grapheme from it on is a single character. The whole document is then
      as it was, and the cursor at its place. */
  lemma TypeThenBackspace(e: Env, s: State, ch: char)
    requires s.Valid() && !IsControl(ch) && OnePiece(e, s, ch)
    ensures var f, i, r := e.font, s.Index(e.font), PressBackspace(e.font, Press(e, s, Char(ch)));
      var line := LineWith(f, s, ch);
      (r.text == s.text <==> Stable(f, line, i) && Singles(f, line[i..])) &&
      (r.text == s.text ==> r.row == s.row && r.Index(f) == i && r.cut == s.cut)
  {
    hide Press, PressBackspace, IndexOfCol, Width, Stable, Singles, Joins, Flat, Boundary, DropGrapheme;
    var f, i, line := e.font, s.Index(e.font), LineWith(e.font, s, ch);
    var a := Press(e, s, Char(ch));
    TypesInPlace(e, s, ch);
    CursorBehind(f, s, ch);
    var j := a.Index(f);
    IndexOfColIsLast(f, a.Here().text, a.col);
    assert a.Here() == Line(line, s.Here().flowed);
    if j == 0 && a.row > 0 {
      OneLineFewer(f, a);
      if Singles(f, line[i..]) {
        SinglesBoundary(f, line, i, i + 1);
      }
    } else {
      IndexOfColIsLast(f, s.Here().text, s.col);
      assert s.Before(f) + s.After(f) == s.Here().text;
      JoinsAtRest(f, s.Before(f), s.After(f));
      BackspaceDeletes(f, a);
      var q := if j > 0 then IndexOfCol(f, line, PrefixCol(f, line, PrevBoundary(f, line, j))) else 0;
      BackspaceRestores(f, s.Before(f), ch, s.After(f), j, q);
      RestAtStartOfRest(f, s.Here().text, s.col);
      assert line[..i] == s.Before(f);
      assert a.text[a.row := s.Here()] == s.text;
    }
  }

  lemma JoinLines(text: seq<Line>, row: nat, line: Line)
    requires row + 1 < |text| && line.text == text[row].text + text[row + 1].text
    ensures TextLength(Splice(text, row, 2, [line])) == TextLength(text) && |Splice(text, row, 2, [line])| == |text| - 1
  {
    hide TextLength;
    var pre, post := text[..row], text[row + 2..];
    LineLength(pre, line, post);
    LineLength(pre, text[row], [text[row + 1]] + post);
    LineLength([], text[row + 1], post);
    assert TextLength([]) == 0 by { NoLength(); }
    assert [] + [text[row + 1]] + post == [text[row + 1]] + post;
    assert text == pre + [text[row]] + ([text[row + 1]] + post);
  }

  lemma NoLength()
    ensures TextLength([]) == 0
  {}

  // BACKSPACE leaves as many lines, or one line fewer and all of the text.
  lemma BackspaceKeepsEither(f: Font, a: State)
    requires a.Valid() && !a.marked
    ensures var r := PressBackspace(f, a);
      |r.text| == |a.text| || (|r.text| == |a.text| - 1 && TextLength(r.text) == TextLength(a.text))
  {
    hide PressBackspace, PressDel, IndexOfCol, Width, DropGrapheme, Splice, TextLength;
    if a.Index(f) == 0 && a.row > 0 {
      BackspaceAtStart(f, a);
      JoinLines(a.text, a.row - 1, Line(a.text[a.row - 1].text + a.Here().text, a.Here().flowed));
    } else {
      var u := if a.Index(f) > 0 then a.(col := PrefixCol(f, a.Here().text, PrevBoundary(f, a.Here().text, a.Index(f)))) else a;
      BackspaceIsDelete(f, a);
      AfterDelete(f, u);
      if u.After(f) == [] && u.row + 1 < |u.text| {
        var next := u.text[u.row + 1];
        JoinLines(u.text, u.row, Line(u.Here().text + next.text, next.flowed));
      }
    }
  }

  lemma BackspaceIsDelete(f: Font, a: State)
    requires a.Valid() && !a.marked && (a.Index(f) > 0 || a.row == 0)
    ensures var line, i := a.Here().text, a.Index(f);
      PressBackspace(f, a).text ==
        PressDel(f, if i > 0 then a.(col := PrefixCol(f, line, PrevBoundary(f, line, i))) else a).text
  {
    hide DeleteChar, IndexOfCol, Width;
    var line, i := a.Here().text, a.Index(f);
    var u := if i > 0 then a.(col := PrefixCol(f, line, PrevBoundary(f, line, i))) else a;
    DeleteIgnoresKey(f, u, Backspace);
    DeleteIgnoresKey(f, u, Del);
  }

  /** Where typing wraps the line, BACKSPACE never undoes it. */
  lemma WrapThenBackspace(l: Locale, s: State, ch: char)
    requires s.Valid() && !IsControl(ch) && !OnePiece(E.EnvOf(l), s, ch)
    requires var before := LineWith(l.font, s, ch)[..IndexWith(l.font, s, ch)];
      Plain(before) && !LB.EndsOpened(l.Classes(before))
    ensures PressBackspace(l.font, Press(E.EnvOf(l), s, Char(ch))).text != s.text
  {
    hide Press, PressBackspace, Autowrap, Insert, Wrap, Join, TextLength, IndexOfCol, Width, Plain, LB.EndsOpened, Wrapped;
    var t := Insert(l.font, s.(marked := false, lastKey := Char(ch)), ch);
    var a := Press(E.EnvOf(l), s, Char(ch));
    Untyped(l.font, s, ch);
    TypedIsWrapped(E.EnvOf(l), s, ch);
    AutowrapConserves(l, t);
    JoinKeepsLength(a.text);
    JoinKeepsLength(t.text);
    OneMoreCharacter(s.text, s.row, t.text[s.row]);
    MoreLines(E.EnvOf(l), t);
    BackspaceKeepsEither(l.font, a);
  }

  lemma OneMoreCharacter(text: seq<Line>, row: nat, line: Line)
    requires row < |text| && |line.text| == |text[row].text| + 1
    ensures TextLength(text[row := line]) == TextLength(text) + 1
  {
    var pre, post := text[..row], text[row + 1..];
    LineLength(pre, text[row], post);
    LineLength(pre, line, post);
    assert text[row := line] == pre + [line] + post && text == pre + [text[row]] + post;
  }

  lemma MoreLines(e: Env, t: State)
    requires t.Valid() && !t.marked && |e.wrap(t.Before(e.font))| > 1
    ensures |Autowrap(e, t).text| > |t.text|
  {}
}
