/** CursesMessage::newmsgformatter: the text of a reply or forward, written as
    format=flowed text. */
module MessageFormatter {
  import opened WordWrap
  import opened FlowedText
  import LB = LineBreaks
  import C = Columns
  import W = Wrapping

  // One line that the formatter is given: its quote level and its text.
  datatype Input = Input(level: nat, text: seq<char>)

  // A piece as it is written, with quote marks and a stuffed space.
  function Marked(level: nat, piece: seq<char>): seq<char> {
    Repeat('>', level) +
    (if level > 0 || (piece != [] && (piece[0] == ' ' || piece[0] == '>')) then [' '] else []) +
    piece
  }

  // The physical lines for the pieces of one line: all but the last end in a space.
  function Physicals(level: nat, pieces: seq<seq<char>>): seq<seq<char>> {
    if pieces == [] then []
    else if |pieces| == 1 then [Marked(level, pieces[0])]
    else [Marked(level, pieces[0]) + [' ']] + Physicals(level, pieces[1..])
  }

  function Pieces(l: Locale, text: seq<char>): seq<seq<char>> {
    var pieces := Wrap(l, TrimEnd(text), {}, LINEW);
    if pieces == [] then [[]] else pieces
  }

  function FormatLine(l: Locale, level: nat, text: seq<char>): seq<seq<char>> {
    Physicals(level, Pieces(l, text))
  }

  function FormatLines(l: Locale, adjust: nat, ins: seq<Input>): seq<seq<char>> {
    if ins == [] then [] else
      FormatLine(l, ins[0].level + adjust, ins[0].text) + FormatLines(l, adjust, ins[1..])
  }

  class Formatter {
    const locale: Locale
    const quoteLevelAdjustment: nat
    var out: seq<char>
    var quoteLevel: nat
    var line: seq<char>
    var written: bool

    constructor (locale: Locale, adjust: nat)
      ensures this.locale == locale && quoteLevelAdjustment == adjust && out == []
    {
      this.locale, quoteLevelAdjustment := locale, adjust;
      out, quoteLevel, line, written := [], 0, [], false;
    }

    method LineBegin(level: nat)
      modifies this`quoteLevel, this`line
      ensures quoteLevel == level + quoteLevelAdjustment && line == []
    {
      quoteLevel := level + quoteLevelAdjustment;
      line := [];
    }

    method LineContents(s: seq<char>)
      modifies this`line
      ensures line == old(line) + s
    {
      line := line + s;
    }

    // The output iterator: one piece, after ending the piece before it.
    method Write(piece: seq<char>)
      modifies this`out, this`written
      ensures written
      ensures out == old(out) + (if old(written) then [' ', '\n'] else []) + Marked(quoteLevel, piece)
    {
      if written {
        out := out + [' ', '\n'];
      } else {
        written := true;
      }
      var i := 0;
      ghost var before := out;
      while i < quoteLevel
        invariant i <= quoteLevel && written && out == before + Repeat('>', i)
      {
        RepeatGrows('>', i);
        out := out + ['>'];
        i := i + 1;
      }
      if quoteLevel > 0 || (piece != [] && (piece[0] == ' ' || piece[0] == '>')) {
        out := out + [' '];
      }
      out := out + piece;
    }

    method LineEnd()
      modifies this`out, this`written
      ensures out == old(out) + WriteLines(FormatLine(locale, quoteLevel, line))
    {
      hide Wrap, Physicals, Marked;
      assert line[..|line|] == line;
      written := false;
      var e := |line|;
      while e > 0 && line[e - 1] == ' '
        invariant 0 <= e <= |line| && TrimEnd(line[..e]) == TrimEnd(line)
      {
        assert line[..e][..e - 1] == line[..e - 1];
        e := e - 1;
      }
      var pieces := Wrap(locale, line[..e], {}, LINEW);
      var i := 0;
      while i < |pieces|
        invariant i <= |pieces| && written == (i > 0)
        invariant out == old(out) + Unfinished(quoteLevel, pieces[..i])
      {
        assert pieces[..i + 1] == pieces[..i] + [pieces[i]];
        UnfinishedGrows(quoteLevel, pieces[..i], pieces[i]);
        Write(pieces[i]);
        i := i + 1;
      }
      assert pieces[..|pieces|] == pieces;
      if !written {
        Write([]);
        pieces := [[]];
      }
      UnfinishedWritten(quoteLevel, pieces);
      out := out + ['\n'];
    }

    // The calls that the parser of the quoted message makes.
    method Format(ins: seq<Input>)
      modifies this
      ensures out == old(out) + WriteLines(FormatLines(locale, quoteLevelAdjustment, ins))
    {
      hide FormatLine, FormatLines, WriteLines;
      assert ins[0..] == ins;
      var i := 0;
      while i < |ins|
        invariant i <= |ins|
        invariant out + WriteLines(FormatLines(locale, quoteLevelAdjustment, ins[i..])) ==
          old(out) + WriteLines(FormatLines(locale, quoteLevelAdjustment, ins))
      {
        LineBegin(ins[i].level);
        LineContents(ins[i].text);
        assert [] + ins[i].text == ins[i].text;
        FormatStep(locale, quoteLevelAdjustment, ins, i);
        LineEnd();
        i := i + 1;
      }
      assert ins[|ins|..] == [];
      NothingToWrite(locale, quoteLevelAdjustment);
    }
  }

  lemma FormatStep(l: Locale, adjust: nat, ins: seq<Input>, i: nat)
    requires i < |ins|
    ensures WriteLines(FormatLines(l, adjust, ins[i..])) ==
      WriteLines(FormatLine(l, ins[i].level + adjust, ins[i].text)) + WriteLines(FormatLines(l, adjust, ins[i + 1..]))
  {
    hide FormatLine, WriteLines;
    assert ins[i..][0] == ins[i] && ins[i..][1..] == ins[i + 1..];
    WriteConcat(FormatLine(l, ins[i].level + adjust, ins[i].text), FormatLines(l, adjust, ins[i + 1..]));
  }

  lemma NothingToWrite(l: Locale, adjust: nat)
    ensures WriteLines(FormatLines(l, adjust, [])) == []
  {}

  // What has been written of a line so far.
  function Unfinished(level: nat, pieces: seq<seq<char>>): seq<char> {
    if pieces == [] then []
    else if |pieces| == 1 then Marked(level, pieces[0])
    else Marked(level, pieces[0]) + [' ', '\n'] + Unfinished(level, pieces[1..])
  }

  lemma RepeatGrows(c: char, n: nat)
    ensures Repeat(c, n) + [c] == Repeat(c, n + 1)
  {}

  lemma {:induction false} UnfinishedGrows(level: nat, pieces: seq<seq<char>>, p: seq<char>)
    ensures Unfinished(level, pieces + [p]) ==
      Unfinished(level, pieces) + (if pieces != [] then [' ', '\n'] else []) + Marked(level, p)
  {
    if |pieces| > 1 {
      assert (pieces + [p])[1..] == pieces[1..] + [p];
      UnfinishedGrows(level, pieces[1..], p);
    } else if |pieces| == 1 {
      assert (pieces + [p])[1..] == [p];
    }
  }

  lemma {:induction false} UnfinishedWritten(level: nat, pieces: seq<seq<char>>)
    requires pieces != []
    ensures Unfinished(level, pieces) + ['\n'] == WriteLines(Physicals(level, pieces))
  {
    if |pieces| > 1 {
      UnfinishedWritten(level, pieces[1..]);
      var first := Marked(level, pieces[0]);
      assert Physicals(level, pieces)[1..] == Physicals(level, pieces[1..]);
      assert first + [' ', '\n'] == first + [' '] + ['\n'];
    } else {
      assert Physicals(level, pieces)[1..] == [];
    }
  }

  // --- Decoding the output -------------------------------------------------------------

  lemma InterpretPiece(level: nat, piece: seq<char>, tail: seq<char>)
    requires piece != [] || level > 0 || tail == []
    ensures Interpret(Marked(level, piece) + tail) == Physical(level, piece + tail)
  {
    var stuffed := level > 0 || (piece != [] && (piece[0] == ' ' || piece[0] == '>'));
    var rest := (if stuffed then [' '] else []) + (piece + tail);
    assert Marked(level, piece) + tail == Repeat('>', level) + rest;
    hide Marked, Interpret;
    InterpretMarked(level, rest);
  }

  ghost predicate Separated(pieces: seq<seq<char>>) {
    exists i :: 0 <= i < |pieces| - 1 && pieces[i] == "--"
  }

  function Joined(pieces: seq<seq<char>>): seq<char> {
    if pieces == [] then [] else pieces[0] + Joined(pieces[1..])
  }

  // The paragraphs that the pieces of one line decode to.
  lemma {:induction false} DecodePieces(level: nat, pieces: seq<seq<char>>, strict: bool)
    requires pieces != [] && (|pieces| > 1 ==> NonEmptyPieces(pieces))
    requires var last := pieces[|pieces| - 1]; last != [] ==> last[|last| - 1] != ' '
    ensures var r := Decode(Physicals(level, pieces), strict);
      r != [] &&
      (r == [Paragraph(level, Joined(pieces))] <==> !Separated(pieces)) &&
      (Separated(pieces) ==> |r| > 1)
    ensures !Interpret(Physicals(level, pieces)[|Physicals(level, pieces)| - 1]).Flowed()
  {
    hide Interpret, Marked, Separated;
    var lines := Physicals(level, pieces);
    if |pieces| == 1 {
      InterpretPiece(level, pieces[0], []);
      NotSeparated(pieces);
      assert Marked(level, pieces[0]) + [] == Marked(level, pieces[0]) && pieces[0] + [] == pieces[0];
      assert lines[1..] == [];
    } else {
      var more := pieces[1..];
      assert more[|more| - 1] == pieces[|pieces| - 1];
      assert NonEmptyPieces(more) by { forall i | 0 <= i < |more| ensures more[i] != [] { assert more[i] == pieces[i + 1]; } }
      DecodePieces(level, more, strict);
      assert lines[1..] == Physicals(level, more);
      PieceContinues(level, pieces);
      SeparatedTail(pieces);
      DecodeFirst(lines, strict);
    }
  }

  lemma NotSeparated(pieces: seq<seq<char>>)
    requires |pieces| == 1
    ensures !Separated(pieces)
  {}

  // How the first of several physical lines joins what the others decode to.
  lemma DecodeFirst(lines: seq<seq<char>>, strict: bool)
    requires |lines| > 1
    ensures var p, rest := Interpret(lines[0]), Decode(lines[1..], strict);
      Decode(lines, strict) == Prepend(p, p.Continues(Interpret(lines[1]), strict), rest)
  {}

  lemma PieceContinues(level: nat, pieces: seq<seq<char>>)
    requires |pieces| > 1 && NonEmptyPieces(pieces)
    ensures var lines := Physicals(level, pieces);
      |lines| == |pieces| &&
      var here, next := Interpret(lines[0]), Interpret(lines[1]);
      here.depth == level && (here.Signature() <==> pieces[0] == "--") &&
      (pieces[0] != "--" ==> here.Flowed() && here.Text() == pieces[0]) &&
      next.depth == level && next.content != [] &&
      (next.Signature() ==> (|pieces| > 2 && pieces[1] == "--") || (|pieces| == 2 && pieces[1] == "-- "))
  {
    hide Interpret, Marked;
    var p, q := pieces[0], pieces[1];
    assert pieces[1..][0] == q;
    InterpretPiece(level, p, [' ']);
    assert p + [' '] == "-- " ==> p == (p + [' '])[..2];
    assert p == "--" ==> p + [' '] == "-- ";
    assert (p + [' '])[..|p|] == p;
    if |pieces| == 2 {
      InterpretPiece(level, q, []);
      assert Marked(level, q) + [] == Marked(level, q) && q + [] == q;
    } else {
      InterpretPiece(level, q, [' ']);
      assert q + [' '] == "-- " ==> q == (q + [' '])[..2];
    }
  }

  lemma SeparatedTail(pieces: seq<seq<char>>)
    requires |pieces| > 1
    ensures Separated(pieces) <==> pieces[0] == "--" || Separated(pieces[1..])
  {
    var more := pieces[1..];
    if Separated(pieces) && pieces[0] != "--" {
      var i :| 0 <= i < |pieces| - 1 && pieces[i] == "--";
      assert more[i - 1] == "--";
    }
    if Separated(more) {
      var i :| 0 <= i < |more| - 1 && more[i] == "--";
      assert pieces[i + 1] == "--";
    }
  }

  // --- The whole output ------------------------------------------------------------------

  lemma {:induction false} JoinedIsFlatten(pieces: seq<seq<char>>)
    ensures Joined(pieces) == Flatten(pieces)
  {
    if |pieces| > 1 {
      var init, last := pieces[..|pieces| - 1], pieces[|pieces| - 1];
      JoinedIsFlatten(init);
      JoinedPush(init, last);
      assert init + [last] == pieces;
    } else if |pieces| == 1 {
      assert pieces[1..] == [] && pieces[..0] == [];
    }
  }

  lemma {:induction false} JoinedPush(pieces: seq<seq<char>>, p: seq<char>)
    ensures Joined(pieces + [p]) == Joined(pieces) + p
  {
    if pieces == [] {
      assert [] + [p] == [p] && [p][1..] == [];
    } else {
      assert (pieces + [p])[1..] == pieces[1..] + [p];
      JoinedPush(pieces[1..], p);
    }
  }

  lemma TrimPlain(text: seq<char>)
    requires Plain(text)
    ensures Plain(TrimEnd(text))
  {
    forall c | c in TrimEnd(text) ensures c in text {
      TrimKeeps(text, c);
    }
  }

  // What is kept of a trimmed text does not end in a space.
  lemma KeptEnd(l: Locale, t: seq<char>)
    requires t != [] && t[|t| - 1] != ' '
    ensures Held(l, t) < |t| && t[|t| - Held(l, t) - 1] != ' '
  {
    if LB.EndsOpened(l.Classes(t)) {
      LB.BeforeHeldTail(l.Classes(t));
    }
  }

  // The pieces of a line keep the trimmed text but for a tail that is held back.
  lemma PiecesOf(l: Locale, text: seq<char>)
    requires Plain(text)
    ensures var t, pieces := TrimEnd(text), Pieces(l, text);
      Held(l, t) <= |t| && pieces != [] && Joined(pieces) == t[..|t| - Held(l, t)] &&
      (|pieces| > 1 ==> NonEmptyPieces(pieces)) &&
      var last := pieces[|pieces| - 1]; last != [] ==> last[|last| - 1] != ' '
  {
    hide Pieces, Held, Joined, TrimEnd, Flatten;
    var t, pieces := TrimEnd(text), Pieces(l, text);
    TrimPlain(text);
    PiecesWrapped(l, text);
    JoinedIsFlatten(pieces);
    if t != [] {
      KeptEnd(l, t);
      FlattenEnd(pieces);
    }
  }

  lemma PiecesWrapped(l: Locale, text: seq<char>)
    requires Plain(TrimEnd(text))
    ensures var t, pieces := TrimEnd(text), Pieces(l, text);
      Held(l, t) <= |t| && pieces != [] && Flatten(pieces) == t[..|t| - Held(l, t)] &&
      if t == [] then pieces == [[]] else NonEmptyPieces(pieces)
  {
    hide Wrap, Held, TrimEnd, Flatten;
    WrapConserves(l, TrimEnd(text), LINEW);
    FlattenOne([]);
  }

  lemma FlattenOne(p: seq<char>)
    ensures Flatten([p]) == p
  {
    assert [p][..0] == [];
  }

  lemma FlattenEnd(pieces: seq<seq<char>>)
    requires pieces != [] && pieces[|pieces| - 1] != []
    ensures var s, last := Flatten(pieces), pieces[|pieces| - 1]; s != [] && s[|s| - 1] == last[|last| - 1]
  {}

  lemma {:induction false} TrimKeeps(text: seq<char>, c: char)
    requires c in TrimEnd(text)
    ensures c in text
  {}

  // The line can be read back: nothing of it is held back, and no piece of it other
  // than the last looks like a signature separator once a space is added.
  ghost predicate Survives(l: Locale, text: seq<char>) {
    !LB.EndsOpened(l.Classes(TrimEnd(text))) && !Separated(Pieces(l, text))
  }

  function Expected(adjust: nat, ins: seq<Input>): seq<Paragraph> {
    if ins == [] then [] else
      [Paragraph(ins[0].level + adjust, TrimEnd(ins[0].text))] + Expected(adjust, ins[1..])
  }

  lemma DecodeLine(l: Locale, level: nat, text: seq<char>, strict: bool)
    requires Plain(text)
    ensures var lines := FormatLine(l, level, text);
      var r := Decode(lines, strict);
      lines != [] && !Interpret(lines[|lines| - 1]).Flowed() && r != [] &&
      (r == [Paragraph(level, TrimEnd(text))] <==> Survives(l, text))
  {
    hide Interpret, Decode, Separated, Wrap;
    var pieces := Pieces(l, text);
    PiecesOf(l, text);
    DecodePieces(level, pieces, strict);
    var t := TrimEnd(text);
    assert t[..|t|] == t;
    assert Joined(pieces) == t <==> Held(l, t) == 0;
    if !Separated(pieces) {
      assert Decode(FormatLine(l, level, text), strict)[0].text == Joined(pieces);
    }
  }

  ghost predicate AllSurvive(l: Locale, ins: seq<Input>) {
    ins == [] || (Survives(l, ins[0].text) && AllSurvive(l, ins[1..]))
  }

  lemma {:induction false} AllSurviveMeans(l: Locale, ins: seq<Input>)
    ensures AllSurvive(l, ins) <==> forall i :: 0 <= i < |ins| ==> Survives(l, ins[i].text)
  {
    hide Survives;
    if ins != [] {
      AllSurviveMeans(l, ins[1..]);
      if AllSurvive(l, ins) {
        forall i | 0 <= i < |ins| ensures Survives(l, ins[i].text) {
          assert i > 0 ==> ins[i] == ins[1..][i - 1];
        }
      }
    }
  }

  lemma {:induction false} DecodeAll(l: Locale, adjust: nat, ins: seq<Input>, strict: bool)
    requires forall i :: 0 <= i < |ins| ==> Plain(ins[i].text)
    ensures var r := Decode(FormatLines(l, adjust, ins), strict);
      |r| >= |ins| && (r == Expected(adjust, ins) <==> AllSurvive(l, ins))
  {
    hide Interpret, Decode, Survives, FormatLine, Expected, Plain;
    if ins == [] {
      DecodeNothing(l, adjust, strict);
    } else {
      var first, rest := FormatLine(l, ins[0].level + adjust, ins[0].text), FormatLines(l, adjust, ins[1..]);
      DecodeLine(l, ins[0].level + adjust, ins[0].text, strict);
      DecodeAll(l, adjust, ins[1..], strict);
      DecodeConcat(first, rest, strict);
      ExpectedSplits(adjust, ins, Decode(first, strict), Decode(rest, strict));
    }
  }

  lemma DecodeNothing(l: Locale, adjust: nat, strict: bool)
    ensures Decode([], strict) == [] == Expected(adjust, [])
  {}

  lemma ExpectedSplits(adjust: nat, ins: seq<Input>, first: seq<Paragraph>, rest: seq<Paragraph>)
    requires ins != [] && first != [] && |rest| >= |ins| - 1
    ensures first + rest == Expected(adjust, ins) <==>
      first == [Paragraph(ins[0].level + adjust, TrimEnd(ins[0].text))] && rest == Expected(adjust, ins[1..])
  {
    ExpectedLength(adjust, ins);
    ExpectedLength(adjust, ins[1..]);
    if first + rest == Expected(adjust, ins) {
      assert |first| == 1;
      assert (first + rest)[0] == first[0] && (first + rest)[1..] == rest;
    }
  }

  lemma {:induction false} ExpectedLength(adjust: nat, ins: seq<Input>)
    ensures |Expected(adjust, ins)| == |ins|
  {
    if ins != [] {
      ExpectedLength(adjust, ins[1..]);
    }
  }

  /** The pieces of a line are cut well: broken where a line may end, each fits into the width,
      as the wrapper counts it, unless it cannot be made shorter, and is as full as it can be. */
  lemma PiecesFit(l: Locale, text: seq<char>)
    requires Plain(text) && TrimEnd(text) != []
    ensures var t := TrimEnd(text);
      |Verdicts(l, t)| <= |t| && W.WellCut(l.font, LINEW, t, Verdicts(l, t), Pieces(l, text))
  {
    hide Wrap, W.WellCut, Verdicts;
    var t := TrimEnd(text);
    TrimPlain(text);
    WrapConserves(l, t, LINEW);
    W.WrapWell(l, t, LINEW);
  }

  // --- Texts with line breaks in them ------------------------------------------------------

  // The wrapper drops the line breaks of a text, so what is written has none but its own.
  ghost predicate AllPlain(lines: seq<seq<char>>) { forall i :: 0 <= i < |lines| ==> Plain(lines[i]) }

  lemma {:induction false} PiecesPlain(pieces: seq<seq<char>>)
    requires Plain(Flatten(pieces))
    ensures AllPlain(pieces)
  {
    if pieces != [] {
      var init := pieces[..|pieces| - 1];
      assert Flatten(pieces) == Flatten(init) + pieces[|pieces| - 1];
      PiecesPlain(init);
      forall i | 0 <= i < |pieces| ensures Plain(pieces[i]) {
        assert i < |init| ==> pieces[i] == init[i];
      }
    }
  }

  lemma {:induction false} PhysicalsPlain(level: nat, pieces: seq<seq<char>>)
    requires AllPlain(pieces)
    ensures AllPlain(Physicals(level, pieces))
  {
    if pieces != [] {
      assert AllPlain(pieces[1..]);
      PhysicalsPlain(level, pieces[1..]);
      assert Plain(pieces[0]) && Plain(Marked(level, pieces[0]));
    }
  }

  lemma FormatLinePlain(l: Locale, level: nat, text: seq<char>)
    ensures AllPlain(FormatLine(l, level, text))
  {
    hide Wrap, Physicals, TakenAll, Held, TrimEnd;
    var t := TrimEnd(text);
    WrapConserves(l, t, LINEW);
    TakenIsPlain(t[..|t| - Held(l, t)]);
    PiecesPlain(Wrap(l, t, {}, LINEW));
    PhysicalsPlain(level, Pieces(l, text));
  }

  lemma {:induction false} FormatLinesPlain(l: Locale, adjust: nat, ins: seq<Input>)
    ensures AllPlain(FormatLines(l, adjust, ins))
  {
    hide FormatLine, Plain;
    if ins != [] {
      FormatLinePlain(l, ins[0].level + adjust, ins[0].text);
      FormatLinesPlain(l, adjust, ins[1..]);
    }
  }

  lemma InterpretPlain(line: seq<char>)
    requires Plain(line)
    ensures Plain(Interpret(line).Text())
  {}

  lemma {:induction false} DecodePlain(lines: seq<seq<char>>, strict: bool)
    requires AllPlain(lines)
    ensures forall i :: 0 <= i < |Decode(lines, strict)| ==> Plain(Decode(lines, strict)[i].text)
  {
    hide Interpret;
    if lines != [] {
      InterpretPlain(lines[0]);
      assert AllPlain(lines[1..]);
      DecodePlain(lines[1..], strict);
    }
  }

  lemma {:induction false} TrimKeepsBreaks(text: seq<char>)
    requires Plain(TrimEnd(text))
    ensures Plain(text)
  {
    if text != [] && text[|text| - 1] == ' ' {
      TrimKeepsBreaks(text[..|text| - 1]);
      assert text == text[..|text| - 1] + [' '];
    }
  }

  lemma {:induction false} ExpectedAt(adjust: nat, ins: seq<Input>, i: nat)
    requires i < |ins|
    ensures i < |Expected(adjust, ins)| && Expected(adjust, ins)[i].text == TrimEnd(ins[i].text)
  {
    if i > 0 {
      ExpectedAt(adjust, ins[1..], i - 1);
    }
  }

  // If a text has a line break in it, the output does not say so.
  lemma BreaksAreLost(l: Locale, adjust: nat, ins: seq<Input>, strict: bool, i: nat)
    requires i < |ins| && !Plain(ins[i].text)
    ensures Decode(FormatLines(l, adjust, ins), strict) != Expected(adjust, ins)
  {
    hide Decode, FormatLines, Expected, Plain, TrimEnd;
    FormatLinesPlain(l, adjust, ins);
    DecodePlain(FormatLines(l, adjust, ins), strict);
    ExpectedAt(adjust, ins, i);
    if Plain(TrimEnd(ins[i].text)) {
      TrimKeepsBreaks(ins[i].text);
    }
  }

  /** The formatter's output, read as format=flowed text with DelSp=yes, gives back the
      quote levels and the texts without their trailing spaces exactly when no text has a
      line break in it, such as a carriage return on its own, and every text survives; readers
      that end a paragraph before an empty line agree. */
  lemma FormattedTextDecodes(l: Locale, adjust: nat, ins: seq<Input>, strict: bool)
    ensures Decode(FileLines(WriteLines(FormatLines(l, adjust, ins))), strict) == Expected(adjust, ins) <==>
      (forall i :: 0 <= i < |ins| ==> Plain(ins[i].text) && Survives(l, ins[i].text))
  {
    hide Decode, Survives, Plain, Expected;
    FormatLinesPlain(l, adjust, ins);
    PlainLines(FormatLines(l, adjust, ins));
    WrittenLinesRead(FormatLines(l, adjust, ins));
    if i :| 0 <= i < |ins| && !Plain(ins[i].text) {
      BreaksAreLost(l, adjust, ins, strict, i);
    } else {
      AllSurviveMeans(l, ins);
      DecodeAll(l, adjust, ins, strict);
    }
  }

  lemma PlainLines(lines: seq<seq<char>>)
    requires AllPlain(lines)
    ensures NoNewlines(lines)
  {
    forall i | 0 <= i < |lines| ensures '\n' !in lines[i] {
      assert Plain(lines[i]);
    }
  }

  lemma ReturnIsDropped()
    ensures TakenAll(['a', '\r', 'b']) == "ab"
  {
    var text := ['a', '\r', 'b'];
    assert text[..2] == ['a', '\r'] && text[..2][..1] == ['a'] && ['a'][..0] == [];
    assert TakenAll(['a']) == ['a'] && TakenAll(['a', '\r']) == ['a'];
  }

  /** A text that is lost: the words on the two sides of a carriage return run together. */
  lemma ReturnDoesNotSurvive(l: Locale, strict: bool)
    requires l.Class('b').AL?
    ensures var ins := [Input(0, ['a', '\r', 'b'])];
      Flatten(Pieces(l, ins[0].text)) == "ab" &&
      Decode(FileLines(WriteLines(FormatLines(l, 0, ins))), strict) != Expected(0, ins)
  {
    hide Wrap, TakenAll, Flatten, Decode, FormatLines, Expected, FileLines, WriteLines;
    var text := ['a', '\r', 'b'];
    WrapConserves(l, text, LINEW);
    assert l.Classes(text)[2].AL? && Held(l, text) == 0 && text[..3] == text && TrimEnd(text) == text;
    ReturnIsDropped();
    FlattenNothing([]);
    FormattedTextDecodes(l, 0, [Input(0, text)], strict);
    assert !Plain([Input(0, text)][0].text);
  }

  // --- A line that does not survive --------------------------------------------------------

  lemma DashSteps()
    ensures LB.Next(LB.Initial, LB.HY) == (LB.Engine(LB.HY, LB.HY, LB.Default), [LB.Prohibited])
    ensures LB.Next(LB.Engine(LB.HY, LB.HY, LB.Default), LB.HY) == (LB.Engine(LB.HY, LB.HY, LB.Default), [LB.Prohibited])
    ensures LB.Next(LB.Engine(LB.HY, LB.HY, LB.Default), LB.AL) == (LB.Engine(LB.AL, LB.AL, LB.Default), [LB.Allowed])
  {}

  lemma FeedThree()
    ensures LB.Feed([LB.HY, LB.HY, LB.AL]) ==
      (LB.Engine(LB.AL, LB.AL, LB.Default), [LB.Prohibited, LB.Prohibited, LB.Allowed])
  {
    hide LB.Next, LB.Feed;
    var none: seq<LB.Class>, hy: seq<LB.Class>, p: seq<LB.Verdict> := [], [LB.HY], [LB.Prohibited];
    DashSteps();
    FeedNothing();
    LB.FeedPush(none, LB.HY);
    LB.FeedPush(hy, LB.HY);
    LB.FeedPush(hy + hy, LB.AL);
    assert none + [LB.HY] == hy && [] + p == p;
    assert LB.Feed(hy) == (LB.Engine(LB.HY, LB.HY, LB.Default), p);
    assert hy + hy + [LB.AL] == [LB.HY, LB.HY, LB.AL] && p + p + [LB.Allowed] == [LB.Prohibited, LB.Prohibited, LB.Allowed];
  }

  lemma FeedNothing()
    ensures LB.Feed([]) == (LB.Initial, [])
  {}

  lemma {:induction false} FeedDashes(n: nat)
    ensures LB.Feed([LB.HY, LB.HY, LB.AL] + seq(n, _ => LB.AL)) ==
      (LB.Engine(LB.AL, LB.AL, LB.Default), [LB.Prohibited, LB.Prohibited, LB.Allowed] + seq(n, _ => LB.Prohibited))
  {
    hide LB.Feed;
    var cs, vs := [LB.HY, LB.HY, LB.AL], [LB.Prohibited, LB.Prohibited, LB.Allowed];
    if n == 0 {
      FeedThree();
      assert cs + seq(n, _ => LB.AL) == cs && vs + seq(n, _ => LB.Prohibited) == vs;
    } else {
      FeedDashes(n - 1);
      LB.FeedPush(cs + seq(n - 1, _ => LB.AL), LB.AL);
      assert cs + seq(n - 1, _ => LB.AL) + [LB.AL] == cs + seq(n, _ => LB.AL);
      assert vs + seq(n - 1, _ => LB.Prohibited) + [LB.Prohibited] == vs + seq(n, _ => LB.Prohibited);
    }
  }

  predicate LettersAndDashes(l: Locale) {
    l.Class('a').AL? && l.Class('-').HY? && C.Ordinary(l.font, 'a') && C.Ordinary(l.font, '-')
  }

  lemma DashesVerdicts(l: Locale)
    requires LettersAndDashes(l)
    ensures Verdicts(l, "--" + C.Letters(LINEW)) ==
      [LB.Prohibited, LB.Prohibited, LB.Allowed] + seq(LINEW - 1, _ => LB.Prohibited)
  {
    hide LB.Feed;
    assert l.Classes("--" + C.Letters(LINEW)) == [LB.HY, LB.HY, LB.AL] + seq(LINEW - 1, _ => LB.AL);
    FeedDashes(LINEW - 1);
  }

  lemma AcceptInside(w: Wrapper, f: C.Font, ch: char)
    requires ch != '\r' && ch != '\n'
    ensures w.Accept(f, LINEW, {}, LB.Prohibited, ch) == w.(cnt := w.cnt + 1, segment := w.segment + [ch])
  {}

  lemma AcceptAfterDashes(f: C.Font, ch: char)
    requires C.Ordinary(f, '-') && ch != '\r' && ch != '\n'
    ensures Wrapper("--", 2, [], 0, []).Accept(f, LINEW, {}, LB.Allowed, ch) == Wrapper([ch], 3, "--", 2, [])
  {
    assert "--"[1..] == "-" && "-"[1..] == [] && C.EndCol(f, "-", 1) == 2;
    assert [] + "--" == "--" && [] + [ch] == [ch];
  }

  lemma CollectTwoDashes(l: Locale, text: seq<char>, vs: seq<LB.Verdict>)
    requires |text| > 2 && |vs| > 2 && text[0] == '-' && text[1] == '-' && text[2] == 'a'
    requires vs[0].Prohibited? && vs[1].Prohibited? && vs[2].Allowed?
    requires LettersAndDashes(l)
    ensures Collect(l, LINEW, {}, text, vs, 3) == Wrapper("a", 3, "--", 2, [])
  {
    hide Wrapper.Accept;
    AcceptInside(Wrapper([], 0, [], 0, []), l.font, '-');
    AcceptInside(Wrapper("-", 1, [], 0, []), l.font, '-');
    AcceptAfterDashes(l.font, 'a');
    assert [] + ['-'] == "-" && "-" + ['-'] == "--";
    assert Collect(l, LINEW, {}, text, vs, 1) == Wrapper("-", 1, [], 0, []);
    assert Collect(l, LINEW, {}, text, vs, 2) == Wrapper("--", 2, [], 0, []);
  }

  lemma {:induction false} CollectDashes(l: Locale, text: seq<char>, vs: seq<LB.Verdict>, n: nat)
    requires LettersAndDashes(l) && 0 < n <= LINEW && text == "--" + C.Letters(LINEW)
    requires vs == [LB.Prohibited, LB.Prohibited, LB.Allowed] + seq(LINEW - 1, _ => LB.Prohibited)
    ensures Collect(l, LINEW, {}, text, vs, n + 2) == Wrapper(C.Letters(n), n + 2, "--", 2, [])
  {
    hide Wrapper.Accept;
    if n == 1 {
      CollectTwoDashes(l, text, vs);
      assert C.Letters(1) == "a";
    } else {
      CollectDashes(l, text, vs, n - 1);
      assert vs[n + 1].Prohibited? && text[n + 1] == 'a';
      AcceptInside(Collect(l, LINEW, {}, text, vs, n + 1), l.font, 'a');
      assert C.Letters(n) == C.Letters(n - 1) + ['a'];
    }
  }

  lemma DashesWrapped(l: Locale)
    requires LettersAndDashes(l)
    ensures Wrap(l, "--" + C.Letters(LINEW), {}, LINEW) == ["--", C.Letters(LINEW)]
  {
    hide C.Letters, Verdicts, Collect, C.EndCol;
    var text := "--" + C.Letters(LINEW);
    DashesVerdicts(l);
    CollectDashes(l, text, Verdicts(l, text), LINEW);
    C.LettersWidth(l.font, LINEW, 0);
    C.LettersWidth(l.font, LINEW, 2);
    assert [] + C.Letters(LINEW) == C.Letters(LINEW);
    var w := Wrapper(C.Letters(LINEW), LINEW + 2, "--", 2, []).AddSegment(l.font, LINEW);
    assert w.line == C.Letters(LINEW) && w.out == ["--"];
  }

  /** Two dashes and letters that do not fit behind them: the dashes are written on a line of
      their own, with a space, and are taken for a signature separator. */
  lemma DashesDoNotSurvive(l: Locale, strict: bool)
    requires LettersAndDashes(l)
    ensures var text := "--" + C.Letters(LINEW);
      FormatLine(l, 0, text) == ["-- ", C.Letters(LINEW)] &&
      Decode(FileLines(WriteLines(FormatLines(l, 0, [Input(0, text)]))), strict) != Expected(0, [Input(0, text)])
  {
    hide Decode, Wrap, C.Letters, Expected, FormatLine, FormatLines, FileLines, WriteLines;
    var text := "--" + C.Letters(LINEW);
    assert text[|text| - 1] == 'a' && TrimEnd(text) == text;
    DashesWrapped(l);
    DashesWritten(l, text);
    var ins := [Input(0, text)];
    FormattedTextDecodes(l, 0, ins, strict);
    assert Pieces(l, text)[0] == "--";
    assert !Survives(l, ins[0].text);
  }

  lemma DashesWritten(l: Locale, text: seq<char>)
    requires Pieces(l, text) == ["--", C.Letters(LINEW)]
    ensures FormatLine(l, 0, text) == ["-- ", C.Letters(LINEW)]
  {
    hide Pieces, C.Letters;
    var letters := C.Letters(LINEW);
    var first: seq<char> := "--" + [' '];
    assert ["--", letters][1..] == [letters];
    assert Marked(0, "--") == "--" && Marked(0, letters) == letters;
    assert Physicals(0, [letters]) == [letters];
    assert Physicals(0, ["--", letters]) == [first] + [letters];
    assert first == "-- ";
  }
}
