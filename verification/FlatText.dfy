/** The document as one string, with a line feed between two lines: what the keys insert into it
    and take out of it. */
module FlatText {
  import opened Columns
  import opened EditorState
  import opened EditorLaws

  // Lines with a line feed after each, and with one before each.
  function Head(lines: seq<Line>): seq<char> {
    if lines == [] then [] else Head(lines[..|lines| - 1]) + lines[|lines| - 1].text + ['\n']
  }

  function Rest(lines: seq<Line>): seq<char> {
    if lines == [] then [] else ['\n'] + lines[0].text + Rest(lines[1..])
  }

  function Flat(lines: seq<Line>): seq<char> {
    if lines == [] then [] else lines[0].text + Rest(lines[1..])
  }

  // What comes before index k of line `row`, and after it.
  function UpTo(lines: seq<Line>, row: nat, k: nat): seq<char>
    requires row < |lines| && k <= |lines[row].text|
  {
    Head(lines[..row]) + lines[row].text[..k]
  }

  function From(lines: seq<Line>, row: nat, k: nat): seq<char>
    requires row < |lines| && k <= |lines[row].text|
  {
    lines[row].text[k..] + Rest(lines[row + 1..])
  }

  lemma {:induction false} RestConcat(a: seq<Line>, b: seq<Line>)
    ensures Rest(a + b) == Rest(a) + Rest(b)
  {
    if a == [] {
      assert a + b == b;
    } else {
      assert (a + b)[1..] == a[1..] + b;
      RestConcat(a[1..], b);
    }
  }

  lemma FlatFirst(line: Line, lines: seq<Line>)
    ensures Flat([line] + lines) == line.text + Rest(lines)
    ensures Rest([line] + lines) == ['\n'] + Flat([line] + lines)
  {
    assert ([line] + lines)[1..] == lines;
  }

  lemma RestIsFlat(lines: seq<Line>)
    requires lines != []
    ensures Rest(lines) == ['\n'] + Flat(lines)
  {}

  lemma HeadLast(lines: seq<Line>)
    requires lines != []
    ensures Head(lines) == Head(lines[..|lines| - 1]) + lines[|lines| - 1].text + ['\n']
  {}

  // The line feeds can be counted to the lines before or after them.
  lemma {:induction false} FlatSplits(pre: seq<Line>, lines: seq<Line>)
    requires lines != []
    ensures Flat(pre + lines) == Head(pre) + Flat(lines)
  {
    hide Flat, Rest, Head;
    if pre == [] {
      NothingBefore(lines);
    } else {
      var n := |pre| - 1;
      FlatSplits(pre[..n], [pre[n]] + lines);
      assert pre + lines == pre[..n] + ([pre[n]] + lines);
      FlatFirst(pre[n], lines);
      RestIsFlat(lines);
      HeadLast(pre);
      Reassociate(Head(pre[..n]), pre[n].text, ['\n'], Flat(lines));
    }
  }

  lemma Reassociate(a: seq<char>, b: seq<char>, c: seq<char>, d: seq<char>)
    ensures a + (b + (c + d)) == a + b + c + d
  {}

  lemma NothingBefore(lines: seq<Line>)
    requires lines != []
    ensures Flat([] + lines) == Head([]) + Flat(lines)
  {
    assert [] + lines == lines;
  }

  lemma FlatParts(pre: seq<Line>, lines: seq<Line>, post: seq<Line>)
    requires lines != []
    ensures Flat(pre + lines + post) == Head(pre) + Flat(lines) + Rest(post)
  {
    hide Head, Rest, Flat;
    FlatSplits(pre, lines + post);
    FlatThen(lines, post);
    assert pre + (lines + post) == pre + lines + post;
    assert Head(pre) + (Flat(lines) + Rest(post)) == Head(pre) + Flat(lines) + Rest(post);
  }

  lemma FlatThen(lines: seq<Line>, post: seq<Line>)
    requires lines != []
    ensures Flat(lines + post) == Flat(lines) + Rest(post)
  {
    hide Head, Rest;
    assert (lines + post)[1..] == lines[1..] + post;
    RestConcat(lines[1..], post);
    assert lines[0].text + (Rest(lines[1..]) + Rest(post)) == lines[0].text + Rest(lines[1..]) + Rest(post);
  }

  /** A place in the document splits it. */
  lemma FlatAt(lines: seq<Line>, row: nat, k: nat)
    requires row < |lines| && k <= |lines[row].text|
    ensures Flat(lines) == UpTo(lines, row, k) + From(lines, row, k)
  {
    FlatParts(lines[..row], [lines[row]], lines[row + 1..]);
    assert lines == lines[..row] + [lines[row]] + lines[row + 1..];
    assert lines[row].text == lines[row].text[..k] + lines[row].text[k..];
    assert [lines[row]][1..] == [];
  }

  // Some lines put in place of one, between two texts.
  lemma FlatSplice(text: seq<Line>, row: nat, cnt: nat, lines: seq<Line>)
    requires row + cnt <= |text| && lines != []
    ensures Flat(Splice(text, row, cnt, lines)) == Head(text[..row]) + Flat(lines) + Rest(text[row + cnt..])
  {
    FlatParts(text[..row], lines, text[row + cnt..]);
  }

  lemma FlatOne(line: Line)
    ensures Flat([line]) == line.text
  {}

  lemma FlatTwo(a: Line, b: Line)
    ensures Flat([a, b]) == a.text + ['\n'] + b.text
  {
    assert [a, b][1..] == [b];
    RestOne(b);
  }

  lemma RestLast(lines: seq<Line>, line: Line, more: seq<char>)
    ensures Rest(lines + [Line(line.text + more, line.flowed)]) == Rest(lines + [line]) + more
  {
    hide Rest;
    var longer := Line(line.text + more, line.flowed);
    RestConcat(lines, [longer]);
    RestConcat(lines, [line]);
    RestOne(longer);
    RestOne(line);
    Reassociate(Rest(lines), ['\n'], line.text, more);
    assert ['\n'] + (line.text + more) == ['\n'] + line.text + more;
    assert Rest(lines) + (['\n'] + line.text + more) == Rest(lines) + (['\n'] + line.text) + more;
  }

  lemma RestOne(line: Line)
    ensures Rest([line]) == ['\n'] + line.text
  {
    assert Rest([line][1..]) == [];
  }

  lemma SameTextRest(a: seq<Line>, b: seq<Line>)
    requires |a| == |b| && forall i :: 0 <= i < |a| ==> a[i].text == b[i].text
    ensures Rest(a) == Rest(b)
    decreases |a|
  {
    if a != [] {
      SameTextRest(a[1..], b[1..]);
    }
  }

  lemma FlatPasted(before: seq<char>, after: seq<char>, flowed: bool, ys: seq<Line>)
    requires ys != []
    ensures Flat(Pasted(before, after, flowed, ys)) == before + Flat(ys) + after
  {
    hide Pasted, Flat, Rest, Head;
    if |ys| == 1 {
      PastedOne(before, after, flowed, ys);
      FlatOne(Line(before + ys[0].text + after, flowed));
      FlatOne(ys[0]);
      assert ys == [ys[0]];
    } else {
      PastedMany(before, after, flowed, ys);
      FlatPastedRest(ys, after, flowed);
      var first, rest := Line(before + ys[0].text, ys[0].flowed), PastedRest(ys, after, flowed);
      assert Pasted(before, after, flowed, ys) == [first] + rest;
      FlatFirst(first, rest);
      FlatFirst(ys[0], ys[1..]);
      assert ys == [ys[0]] + ys[1..];
      Reassociate(before, ys[0].text, Rest(ys[1..]), after);
      assert before + (ys[0].text + (Rest(ys[1..]) + after)) == before + ys[0].text + (Rest(ys[1..]) + after);
      assert before + ys[0].text + Rest(ys[1..]) + after == before + (ys[0].text + Rest(ys[1..])) + after;
    }
  }

  // The pasted lines after the first.
  function PastedRest(ys: seq<Line>, after: seq<char>, flowed: bool): seq<Line>
    requires |ys| > 1
  {
    var n := |ys| - 1;
    ys[1..n] + [Line(ys[n].text + after, flowed)]
  }

  lemma FlatPastedRest(ys: seq<Line>, after: seq<char>, flowed: bool)
    requires |ys| > 1
    ensures Rest(PastedRest(ys, after, flowed)) == Rest(ys[1..]) + after
  {
    hide Rest;
    var n := |ys| - 1;
    var last := ys[n];
    SameTextRest(PastedRest(ys, after, flowed), ys[1..n] + [Line(last.text + after, last.flowed)]);
    RestLast(ys[1..n], last, after);
    assert ys[1..] == ys[1..n] + [last];
  }

  /** ENTER puts a line feed at the cursor. */
  lemma EnterInserts(f: Font, s: State)
    requires s.Valid()
    ensures var i, r := s.Index(f), PressEnter(f, s);
      Flat(s.text) == UpTo(s.text, s.row, i) + From(s.text, s.row, i) &&
      Flat(r.text) == UpTo(s.text, s.row, i) + ['\n'] + From(s.text, s.row, i)
  {
    hide PressEnter, Flat, Head, Rest;
    AfterEnter(f, s);
    FlatAt(s.text, s.row, s.Index(f));
    var halves := [Line(s.Before(f), false), Line(s.After(f), s.Here().flowed)];
    FlatSplice(s.text, s.row, 1, halves);
    FlatTwo(halves[0], halves[1]);
  }

  /** Pasting puts the text of the cut buffer at the cursor. */
  lemma PasteInserts(f: Font, s: State)
    requires s.Valid() && s.cut != []
    ensures var i, r := s.Index(f), PressPaste(f, s);
      Flat(s.text) == UpTo(s.text, s.row, i) + From(s.text, s.row, i) &&
      Flat(r.text) == UpTo(s.text, s.row, i) + Flat(s.cut) + From(s.text, s.row, i)
  {
    hide PressPaste, Flat, Head, Rest, Pasted;
    AfterPaste(f, s);
    FlatAt(s.text, s.row, s.Index(f));
    var ys := Pasted(s.Before(f), s.After(f), s.Here().flowed, s.cut);
    FlatSplice(s.text, s.row, 1, ys);
    FlatPasted(s.Before(f), s.After(f), s.Here().flowed, s.cut);
  }

  lemma FlatExcerpt(text: seq<Line>, g: Region)
    requires g.In(text)
    ensures Flat(text) == UpTo(text, g.row1, g.pos1) + Flat(Excerpt(text, g)) + From(text, g.row2, g.pos2)
  {
    hide Excerpt, Pasted, Flat, Head, Rest;
    var p, q := text[g.row1].text[..g.pos1], text[g.row2].text[g.pos2..];
    PastedExcerpt(text, g);
    ExcerptParts(text, g);
    FlatPasted(p, q, text[g.row2].flowed, Excerpt(text, g));
    var lines := text[g.row1..g.row2 + 1];
    FlatParts(text[..g.row1], lines, text[g.row2 + 1..]);
    assert text == text[..g.row1] + lines + text[g.row2 + 1..];
  }

  /** Cutting takes the region out of the document, and its text into the cut buffer. */
  lemma CutTakesOut(f: Font, s: State)
    requires s.Valid() && s.marked && !Marked(f, s).0.Empty()
    ensures var g, r := Marked(f, s).0, PressCut(f, s);
      Flat(s.text) == UpTo(s.text, g.row1, g.pos1) + Flat(r.cut) + From(s.text, g.row2, g.pos2) &&
      Flat(r.text) == UpTo(s.text, g.row1, g.pos1) + From(s.text, g.row2, g.pos2)
  {
    hide PressCut, Marked, Flat, Head, Rest, Excerpt;
    var g := Marked(f, s).0;
    AfterCut(f, s);
    FlatExcerpt(s.text, g);
    FlatSplice(s.text, g.row1, g.row2 + 1 - g.row1, [Remainder(s.text, g)]);
    FlatOne(Remainder(s.text, g));
  }

  /** DELETE at the end of a line takes out its line feed. */
  lemma DeleteJoins(f: Font, s: State)
    requires s.Valid() && !s.marked && s.After(f) == [] && s.row + 1 < |s.text|
    ensures var i, r := |s.Here().text|, PressDel(f, s);
      Flat(s.text) == UpTo(s.text, s.row, i) + ['\n'] + From(s.text, s.row + 1, 0) &&
      Flat(r.text) == UpTo(s.text, s.row, i) + From(s.text, s.row + 1, 0)
  {
    hide PressDel, Flat, Head, Rest;
    var here, next := s.Here(), s.text[s.row + 1];
    AfterDelete(f, s);
    FlatParts(s.text[..s.row], [here, next], s.text[s.row + 2..]);
    assert s.text == s.text[..s.row] + [here, next] + s.text[s.row + 2..];
    FlatTwo(here, next);
    FlatSplice(s.text, s.row, 2, [Line(here.text + next.text, next.flowed)]);
    FlatOne(Line(here.text + next.text, next.flowed));
    assert here.text[..|here.text|] == here.text && next.text[0..] == next.text;
  }
}
