/** Automatic wrapping while typing, against the paragraphs that flowed lines make
    up. */
module Paragraphs {
  import opened Columns
  import opened WordWrap
  import opened EditorState
  import opened FlowedText
  import LB = LineBreaks
  import E = Editor
  import W = Wrapping

  // The paragraphs of a document: a flowed line continues on the next one.
  function Join(lines: seq<Line>): (r: seq<seq<char>>)
    ensures lines != [] ==> r != []
  {
    if lines == [] then [] else
      var rest := Join(lines[1..]);
      if lines[0].flowed && rest != [] then [lines[0].text + rest[0]] + rest[1..] else [lines[0].text] + rest
  }

  // The paragraph that row belongs to, and the offset in it of index k of the row.
  function ParagraphOf(lines: seq<Line>, row: nat): nat
    requires row <= |lines|
  {
    if row == 0 then 0 else ParagraphOf(lines, row - 1) + if lines[row - 1].flowed then 0 else 1
  }

  function OffsetOf(lines: seq<Line>, row: nat, k: nat): nat
    requires row <= |lines|
  {
    if row > 0 && lines[row - 1].flowed then OffsetOf(lines, row - 1, |lines[row - 1].text| + k) else k
  }

  lemma {:induction false} PlacesDependOnPrefix(a: seq<Line>, b: seq<Line>, row: nat, k: nat)
    requires row <= |a| && row <= |b| && a[..row] == b[..row]
    ensures ParagraphOf(a, row) == ParagraphOf(b, row) && OffsetOf(a, row, k) == OffsetOf(b, row, k)
  {
    if row > 0 {
      assert a[row - 1] == a[..row][row - 1] && b[row - 1] == b[..row][row - 1];
      assert a[..row - 1] == a[..row][..row - 1] && b[..row - 1] == b[..row][..row - 1];
      PlacesDependOnPrefix(a, b, row - 1, |a[row - 1].text| + k);
    }
  }

  // Cutting a line in two, the first half flowing into the second.
  lemma {:induction false} SplitLine(pre: seq<Line>, a: seq<char>, b: seq<char>, flowed: bool, post: seq<Line>)
    ensures Join(pre + [Line(a, true), Line(b, flowed)] + post) == Join(pre + [Line(a + b, flowed)] + post)
  {
    var two, one := pre + [Line(a, true), Line(b, flowed)] + post, pre + [Line(a + b, flowed)] + post;
    if pre == [] {
      assert two[1..] == [Line(b, flowed)] + post && two[1..][1..] == post && one[1..] == post;
      var rest := Join(post);
      assert rest != [] ==> a + (b + rest[0]) == (a + b) + rest[0];
    } else {
      assert two[1..] == pre[1..] + [Line(a, true), Line(b, flowed)] + post;
      assert one[1..] == pre[1..] + [Line(a + b, flowed)] + post;
      SplitLine(pre[1..], a, b, flowed, post);
    }
  }

  lemma SplitLinePlace(pre: seq<Line>, a: seq<char>, b: seq<char>, flowed: bool, post: seq<Line>, k: nat)
    ensures var two, one, n := pre + [Line(a, true), Line(b, flowed)] + post, pre + [Line(a + b, flowed)] + post, |pre|;
      ParagraphOf(two, n + 1) == ParagraphOf(one, n) && OffsetOf(two, n + 1, k) == OffsetOf(one, n, |a| + k)
  {
    var two, one, n := pre + [Line(a, true), Line(b, flowed)] + post, pre + [Line(a + b, flowed)] + post, |pre|;
    assert two[..n] == pre && one[..n] == pre;
    PlacesDependOnPrefix(two, one, n, |a| + k);
  }

  // A line replaced by flowing pieces of it, the last one with the rest of the line.
  function Wrapped(pre: seq<Line>, pieces: seq<seq<char>>, rest: seq<char>, flowed: bool, post: seq<Line>): seq<Line>
    requires pieces != []
  {
    var n := |pieces| - 1;
    pre + Flow(pieces[..n]) + [Line(pieces[n] + rest, flowed)] + post
  }

  lemma WrappedUnfold(pre: seq<Line>, pieces: seq<seq<char>>, rest: seq<char>, flowed: bool, post: seq<Line>)
    requires |pieces| > 1
    ensures var n := |pieces| - 1;
      var a, b, before := pieces[n - 1], pieces[n] + rest, pre + Flow(pieces[..n - 1]);
      Wrapped(pre, pieces, rest, flowed, post) == before + [Line(a, true), Line(b, flowed)] + post &&
      Wrapped(pre, pieces[..n], b, flowed, post) == before + [Line(a + b, flowed)] + post
  {
    var n := |pieces| - 1;
    var init := pieces[..n];
    assert init[..n - 1] == pieces[..n - 1];
    assert Flow(init) == Flow(pieces[..n - 1]) + [Line(pieces[n - 1], true)];
  }

  lemma {:induction false} WrappedKeepsParagraphs(pre: seq<Line>, pieces: seq<seq<char>>, rest: seq<char>, flowed: bool,
                                                  post: seq<Line>, k: nat)
    requires pieces != []
    ensures var n, whole := |pieces| - 1, pre + [Line(Flatten(pieces) + rest, flowed)] + post;
      var lines := Wrapped(pre, pieces, rest, flowed, post);
      Join(lines) == Join(whole) &&
      ParagraphOf(lines, |pre| + n) == ParagraphOf(whole, |pre|) &&
      OffsetOf(lines, |pre| + n, k) == OffsetOf(whole, |pre|, |Flatten(pieces[..n])| + k)
  {
    hide Wrapped, Join, ParagraphOf, OffsetOf;
    var n := |pieces| - 1;
    if n == 0 {
      WrappedOne(pre, pieces, rest, flowed, post);
      assert pieces[..n] == [];
    } else {
      var init := pieces[..n];
      var a, b, before := pieces[n - 1], pieces[n] + rest, pre + Flow(pieces[..n - 1]);
      WrappedUnfold(pre, pieces, rest, flowed, post);
      SplitLine(before, a, b, flowed, post);
      SplitLinePlace(before, a, b, flowed, post, k);
      WrappedKeepsParagraphs(pre, init, b, flowed, post, |a| + k);
      assert Flatten(init) + b == Flatten(pieces) + rest;
      assert init[..n - 1] == pieces[..n - 1];
      assert |Flatten(init)| == |Flatten(init[..n - 1])| + |a|;
    }
  }

  lemma WrappedOne(pre: seq<Line>, pieces: seq<seq<char>>, rest: seq<char>, flowed: bool, post: seq<Line>)
    requires |pieces| == 1
    ensures Flatten(pieces) == pieces[0]
    ensures Wrapped(pre, pieces, rest, flowed, post) == pre + [Line(pieces[0] + rest, flowed)] + post
  {}

  function TextLength(lines: seq<Line>): nat {
    if lines == [] then 0 else |lines[0].text| + TextLength(lines[1..])
  }

  function TotalLength(texts: seq<seq<char>>): nat {
    if texts == [] then 0 else |texts[0]| + TotalLength(texts[1..])
  }

  lemma {:induction false} JoinKeepsLength(lines: seq<Line>)
    ensures TotalLength(Join(lines)) == TextLength(lines)
  {
    if lines != [] {
      JoinKeepsLength(lines[1..]);
      var rest := Join(lines[1..]);
      if lines[0].flowed && rest != [] {
        assert Join(lines)[1..] == rest[1..];
      } else {
        assert Join(lines)[1..] == rest;
      }
    }
  }

  lemma {:induction false} LineLength(pre: seq<Line>, line: Line, post: seq<Line>)
    ensures TextLength(pre + [line] + post) == TextLength(pre) + |line.text| + TextLength(post)
  {
    if pre == [] {
      assert ([line] + post)[1..] == post && [] + [line] + post == [line] + post;
    } else {
      assert (pre + [line] + post)[1..] == pre[1..] + [line] + post;
      LineLength(pre[1..], line, post);
    }
  }

  // Losing part of a line shows in the paragraphs.
  lemma LossShows(pre: seq<Line>, a: seq<char>, b: seq<char>, flowed: bool, post: seq<Line>)
    ensures Join(pre + [Line(a, flowed)] + post) == Join(pre + [Line(b, flowed)] + post) ==> |a| == |b|
  {
    var x, y := pre + [Line(a, flowed)] + post, pre + [Line(b, flowed)] + post;
    JoinKeepsLength(x);
    JoinKeepsLength(y);
    LineLength(pre, Line(a, flowed), post);
    LineLength(pre, Line(b, flowed), post);
  }

  lemma WrappedVersusLine(pre: seq<Line>, pieces: seq<seq<char>>, text: seq<char>, rest: seq<char>, flowed: bool,
                          post: seq<Line>)
    requires pieces != [] && Flatten(pieces) <= text
    ensures var n, whole := |pieces| - 1, pre + [Line(text + rest, flowed)] + post;
      var lines := Wrapped(pre, pieces, rest, flowed, post);
      (Join(lines) == Join(whole) <==> Flatten(pieces) == text) &&
      (Flatten(pieces) == text ==>
        ParagraphOf(lines, |pre| + n) == ParagraphOf(whole, |pre|) &&
        OffsetOf(lines, |pre| + n, |pieces[n]|) == OffsetOf(whole, |pre|, |text|))
  {
    WrappedKeepsParagraphs(pre, pieces, rest, flowed, post, |pieces[|pieces| - 1]|);
    LossShows(pre, Flatten(pieces) + rest, text + rest, flowed, post);
  }

  // The same for any wrapping that loses at most the end of the text.
  lemma AutowrapKeeps(e: Env, s: State)
    requires s.Valid() && !s.marked
    requires var pieces := e.wrap(s.Before(e.font)); NonEmptyPieces(pieces) && Flatten(pieces) <= s.Before(e.font)
    ensures var r, pieces := Autowrap(e, s), e.wrap(s.Before(e.font));
      (Join(r.text) == Join(s.text) <==> |pieces| <= 1 || Flatten(pieces) == s.Before(e.font)) &&
      (Join(r.text) == Join(s.text) ==>
        ParagraphOf(r.text, r.row) == ParagraphOf(s.text, s.row) &&
        OffsetOf(r.text, r.row, r.Index(e.font)) == OffsetOf(s.text, s.row, s.Index(e.font)))
  {
    var f, before := e.font, s.Before(e.font);
    var pieces := e.wrap(before);
    if |pieces| > 1 {
      AfterAutowrap(e, s);
      assert s.Here() == Line(before + s.After(f), s.Here().flowed);
      assert s.text == s.text[..s.row] + [Line(before + s.After(f), s.Here().flowed)] + s.text[s.row + 1..];
      WrappedVersusLine(s.text[..s.row], pieces, before, s.After(f), s.Here().flowed, s.text[s.row + 1..]);
      if Flatten(pieces) == before {
        CursorAfterAutowrap(f, s, pieces);
      }
    }
  }

  // Wrapping that changes the length of the text shows in the paragraphs.
  lemma AutowrapLoses(e: Env, s: State)
    requires s.Valid() && !s.marked && |e.wrap(s.Before(e.font))| > 1
    requires |Flatten(e.wrap(s.Before(e.font)))| != |s.Before(e.font)|
    ensures Join(Autowrap(e, s).text) != Join(s.text)
  {
    var f, before, line := e.font, s.Before(e.font), s.Here();
    var pieces, pre, post := e.wrap(before), s.text[..s.row], s.text[s.row + 1..];
    AfterAutowrap(e, s);
    assert line == Line(before + s.After(f), line.flowed);
    assert s.text == pre + [Line(before + s.After(f), line.flowed)] + post;
    WrappedKeepsParagraphs(pre, pieces, s.After(f), line.flowed, post, 0);
    LossShows(pre, Flatten(pieces) + s.After(f), before + s.After(f), line.flowed, post);
  }

  /** After automatic wrapping the document has the same paragraphs exactly when
      either nothing was wrapped, or the text before the cursor has no line breaks in it and
      does not end in a symbol and an opening punctuation. The cursor then keeps its offset
      in its paragraph. */
  lemma AutowrapConserves(l: Locale, s: State)
    requires s.Valid() && !s.marked
    ensures var r, before := Autowrap(E.EnvOf(l), s), s.Before(l.font);
      (Join(r.text) == Join(s.text) <==>
        |Wrap(l, before, {}, LINEW)| <= 1 || (Plain(before) && !LB.EndsOpened(l.Classes(before)))) &&
      (Join(r.text) == Join(s.text) ==>
        ParagraphOf(r.text, r.row) == ParagraphOf(s.text, s.row) &&
        OffsetOf(r.text, r.row, r.Index(l.font)) == OffsetOf(s.text, s.row, s.Index(l.font)))
  {
    hide Wrap, Held, Join, TakenAll, Flatten, Plain, ParagraphOf, OffsetOf;
    var before := s.Before(l.font);
    WrapConserves(l, before, LINEW);
    if Plain(before) {
      WrapKeepsAll(l, before, LINEW);
      PlainIsTaken(before);
      AutowrapKeeps(E.EnvOf(l), s);
    } else if |Wrap(l, before, {}, LINEW)| > 1 {
      TakenShorter(before, Held(l, before));
      AutowrapLoses(E.EnvOf(l), s);
    }
  }

  lemma AfterAutowrap(e: Env, s: State)
    requires s.Valid() && !s.marked && |e.wrap(s.Before(e.font))| > 1
    ensures var f, pieces, r := e.font, e.wrap(s.Before(e.font)), Autowrap(e, s);
      var n := |pieces| - 1;
      r.text == Wrapped(s.text[..s.row], pieces, s.After(f), s.Here().flowed, s.text[s.row + 1..]) &&
      r.row == s.row + n && r.col == Width(f, pieces[n]) && r.Here().text == pieces[n] + s.After(f)
  {}

  lemma CursorAfterAutowrap(f: Font, s: State, pieces: seq<seq<char>>)
    requires s.Valid() && pieces != [] && NonEmptyPieces(pieces) && Flatten(pieces) == s.Before(f)
    ensures var last := pieces[|pieces| - 1];
      IndexOfCol(f, last + s.After(f), Width(f, last)) == |last|
  {
    var before, after, last := s.Before(f), s.After(f), pieces[|pieces| - 1];
    IndexOfColIsLast(f, s.Here().text, s.col);
    assert before + after == s.Here().text;
    assert before[|before| - 1] == last[|last| - 1];
    JoinsMeans(f, before, after);
    JoinsMeans(f, last, after);
    JoinColumn(f, last, after);
  }

  /** The lines that a line is wrapped into are cut well: the text before the cursor is broken
      where a line may end, each line fits, as the wrapper counts it, unless it cannot be made
      shorter, and is as full as it can be. */
  lemma AutowrapFits(l: Locale, s: State)
    requires s.Valid() && !s.marked && Plain(s.Before(l.font))
    ensures var before, pieces := s.Before(l.font), Wrap(l, s.Before(l.font), {}, LINEW);
      |Verdicts(l, before)| <= |before| && W.WellCut(l.font, LINEW, before, Verdicts(l, before), pieces) &&
      (|pieces| > 1 ==>
        Autowrap(E.EnvOf(l), s).text ==
        Wrapped(s.text[..s.row], pieces, s.After(l.font), s.Here().flowed, s.text[s.row + 1..]))
  {
    hide W.WellCut;
    W.WrapWell(l, s.Before(l.font), LINEW);
    if |Wrap(l, s.Before(l.font), {}, LINEW)| > 1 {
      AfterAutowrap(E.EnvOf(l), s);
    }
  }
}
