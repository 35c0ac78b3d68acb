/** Loading the text of a message into the editor, and saving it, as plain or as
    format=flowed text. */
module DraftFiles {
  import opened EditorState
  import opened FlowedText

  // --- One line ------------------------------------------------------------------------

  predicate Control(c: char) { c < ' ' && c != '\t' }

  function Clean(s: seq<char>): seq<char> {
    if s == [] then [] else (if Control(s[0]) then [] else [s[0]]) + Clean(s[1..])
  }

  // How much of a line is quote marks and one space after them.
  function PrefixLength(s: seq<char>): (n: nat)
    ensures n <= |s|
  {
    var n := QuoteDepth(s);
    if n < |s| && s[n] == ' ' then n + 1 else n
  }

  predicate LooksFlowed(s: seq<char>) { PrefixLength(s) < |s| && s[|s| - 1] == ' ' }

  function ReadLine(s: seq<char>, isflowed: bool, delsp: bool): Line {
    var flowed := isflowed && LooksFlowed(s);
    Line(Clean(if flowed && delsp then s[..|s| - 1] else s), flowed)
  }

  // getUTF8Text
  function LineText(l: Line, isflowed: bool): seq<char> {
    if !isflowed then l.text else if l.flowed then l.text + [' '] else TrimEnd(l.text)
  }

  function ReadLines(lines: seq<seq<char>>, isflowed: bool, delsp: bool): (r: seq<Line>)
    ensures |r| == |lines|
  {
    if lines == [] then [] else [ReadLine(lines[0], isflowed, delsp)] + ReadLines(lines[1..], isflowed, delsp)
  }

  function LineTexts(doc: seq<Line>, isflowed: bool): (r: seq<seq<char>>)
    ensures |r| == |doc|
  {
    if doc == [] then [] else [LineText(doc[0], isflowed)] + LineTexts(doc[1..], isflowed)
  }

  // A file whose first line holds a null character is taken for a binary file.
  predicate Binary(lines: seq<seq<char>>) { lines != [] && '\0' in lines[0] }

  function Load(file: seq<char>, isflowed: bool, delsp: bool): (r: seq<Line>)
    ensures r != []
  {
    var lines := FileLines(file);
    AtLeastOne(ReadLines(if Binary(lines) then [] else lines, isflowed, delsp))
  }

  function Save(doc: seq<Line>, isflowed: bool): seq<char> { WriteLines(LineTexts(doc, isflowed)) }

  lemma SaveFirst(doc: seq<Line>, isflowed: bool)
    requires doc != []
    ensures Save(doc, isflowed) == LineText(doc[0], isflowed) + ['\n'] + Save(doc[1..], isflowed)
  {
    assert LineTexts(doc, isflowed)[1..] == LineTexts(doc[1..], isflowed);
  }

  // --- Reading a file ------------------------------------------------------------------

  /** get_file_helper: an iterator over the lines of a file. */
  class LineReader {
    const isflowed: bool
    const delsp: bool
    var rest: seq<char>
    var open: bool
    var line: Line

    // The line under the iterator and those after it.
    function Pending(): seq<Line>
      reads this
    {
      if open then [line] + ReadLines(FileLines(rest), isflowed, delsp) else []
    }

    constructor (file: seq<char>, isflowed: bool, delsp: bool)
      ensures Pending() == ReadLines(if Binary(FileLines(file)) then [] else FileLines(file), isflowed, delsp)
      ensures this.isflowed == isflowed && this.delsp == delsp
    {
      this.isflowed, this.delsp := isflowed, delsp;
      rest, open, line := file, true, Line([], false);
      new;
      NextLine(true);
    }

    // getline() on a stream: up to the next newline, or to the end of the file.
    method GetLine() returns (s: seq<char>, eof: bool)
      modifies this`rest
      ensures eof && s == [] ==> FileLines(old(rest)) == []
      ensures !(eof && s == []) ==> FileLines(old(rest)) == [s] + FileLines(rest)
    {
      var n := 0;
      while n < |rest| && rest[n] != '\n'
        invariant n <= |rest| && '\n' !in rest[..n]
      {
        n := n + 1;
      }
      s := rest[..n];
      eof := n == |rest|;
      if eof {
        if s != [] {
          assert rest == s;
          LastLine(s);
        }
        rest := [];
      } else {
        assert rest == s + ['\n'] + rest[n + 1..];
        FirstLine(s, rest[n + 1..]);
        rest := rest[n + 1..];
      }
    }

    method NextLine(first: bool)
      requires open
      modifies this`rest, this`open, this`line
      ensures var lines := FileLines(old(rest));
        Pending() == ReadLines(if first && Binary(lines) then [] else lines, isflowed, delsp)
    {
      var s, eof := GetLine();
      if eof && s == [] {
        open := false;
        return;
      }
      if first && '\0' in s {
        open := false;
        return;
      }
      var u := s;
      var flowed := false;
      if isflowed {
        flowed := Flows(u);
        if flowed && delsp {
          u := u[..|u| - 1];
        }
      }
      u := EditOutControls(u);
      line := Line(u, flowed);
      assert ([s] + FileLines(rest))[1..] == FileLines(rest);
    }

    method Next()
      requires open
      modifies this`rest, this`open, this`line
      ensures Pending() == old(Pending())[1..]
    {
      NextLine(false);
    }
  }

  // Whether a line flows: past the quote marks and one space, it ends in a space.
  method Flows(u: seq<char>) returns (flowed: bool)
    ensures flowed == LooksFlowed(u)
  {
    var b := 0;
    while b < |u| && u[b] == '>'
      invariant b <= |u| && QuoteDepth(u) == b + QuoteDepth(u[b..])
    {
      assert u[b..][1..] == u[b + 1..];
      b := b + 1;
    }
    if b < |u| && u[b] == ' ' {
      b := b + 1;
    }
    flowed := b < |u| && u[|u| - 1] == ' ';
  }

  method ReadAll(file: seq<char>, isflowed: bool, delsp: bool) returns (lines: seq<Line>)
    ensures AtLeastOne(lines) == Load(file, isflowed, delsp)
  {
    hide ReadLines, FileLines, Binary;
    var reader := new LineReader(file, isflowed, delsp);
    ghost var all := reader.Pending();
    lines := [];
    while reader.open
      invariant fresh(reader) && lines + reader.Pending() == all
      decreases |reader.Pending()|
    {
      ghost var pending := reader.Pending();
      assert pending != [] && pending[0] == reader.line;
      MoveOver(lines, pending);
      lines := lines + [reader.line];
      reader.Next();
    }
    assert lines == all;
  }

  lemma MoveOver(a: seq<Line>, b: seq<Line>)
    requires b != []
    ensures (a + [b[0]]) + b[1..] == a + b
  {}

  // Move the other characters down over the control characters.
  method EditOutControls(s: seq<char>) returns (u: seq<char>)
    ensures u == Clean(s)
  {
    u := s;
    var b, c := 0, 0;
    while b < |u|
      invariant c <= b <= |u| == |s|
      invariant u[..c] == Clean(s[..b]) && u[b..] == s[b..]
    {
      CleanPush(s[..b], s[b]);
      assert s[..b + 1] == s[..b] + [s[b]] && u[b] == u[b..][0];
      assert u[b..][1..] == u[b + 1..] && s[b..][1..] == s[b + 1..];
      if !Control(u[b]) {
        u := u[c := u[b]];
        c := c + 1;
      }
      b := b + 1;
    }
    assert s[..b] == s;
    u := u[..c];
  }

  lemma {:induction false} CleanPush(s: seq<char>, c: char)
    ensures Clean(s + [c]) == Clean(s) + if Control(c) then [] else [c]
  {
    hide Control;
    if s == [] {
      assert [] + [c] == [c] && [c][1..] == [];
    } else {
      CleanPush(s[1..], c);
      assert (s + [c])[1..] == s[1..] + [c] && (s + [c])[0] == s[0];
      assert Clean(s + [c]) == (if Control(s[0]) then [] else [s[0]]) + Clean(s[1..] + [c]);
    }
  }

  // --- Laws ------------------------------------------------------------------------------

  predicate HasControl(s: seq<char>) { exists i :: 0 <= i < |s| && Control(s[i]) }

  predicate OnlyQuoteMarks(s: seq<char>) { forall i :: 0 <= i < |s| ==> s[i] == '>' }

  // A line that comes back from a file as it was: no line of a plain file flows.
  predicate Storable(l: Line, isflowed: bool) {
    !HasControl(l.text) &&
    if !isflowed then !l.flowed
    else if l.flowed then !OnlyQuoteMarks(l.text)
    else l.text == [] || l.text[|l.text| - 1] != ' '
  }

  lemma {:induction false} CleanMeans(s: seq<char>)
    ensures !HasControl(Clean(s)) && (Clean(s) == s <==> !HasControl(s)) && |Clean(s)| <= |s|
  {
    if s != [] {
      CleanMeans(s[1..]);
      if HasControl(s) && !Control(s[0]) {
        var i :| 0 <= i < |s| && Control(s[i]);
        assert s[1..][i - 1] == s[i];
        assert Clean(s)[1..] == Clean(s[1..]);
      }
      if HasControl(s[1..]) {
        var i :| 0 <= i < |s[1..]| && Control(s[1..][i]);
        assert Control(s[i + 1]);
      }
    }
  }

  lemma {:induction false} DepthOnlyQuotes(s: seq<char>)
    ensures QuoteDepth(s) == |s| <==> OnlyQuoteMarks(s)
    ensures QuoteDepth(s) < |s| ==> s[QuoteDepth(s)] != '>'
    ensures forall i :: 0 <= i < QuoteDepth(s) ==> s[i] == '>'
  {
    if s != [] && s[0] == '>' {
      DepthOnlyQuotes(s[1..]);
      if OnlyQuoteMarks(s[1..]) {
        forall i | 0 <= i < |s| ensures s[i] == '>' {
          assert i > 0 ==> s[i] == s[1..][i - 1];
        }
      }
      forall i | 0 <= i < QuoteDepth(s) ensures s[i] == '>' {
        assert i > 0 ==> s[i] == s[1..][i - 1];
      }
    }
  }

  lemma {:induction false} DepthOfPrefix(s: seq<char>, t: seq<char>)
    requires QuoteDepth(s) < |s| || t == [] || t[0] != '>'
    ensures QuoteDepth(s + t) == QuoteDepth(s)
  {
    if s == [] {
      assert s + t == t;
    } else {
      assert (s + t)[1..] == s[1..] + t;
      if s[0] == '>' {
        DepthOfPrefix(s[1..], t);
      }
    }
  }

  lemma {:induction false} TrimEndMeans(s: seq<char>)
    ensures TrimEnd(s) == s <==> (s == [] || s[|s| - 1] != ' ')
  {}

  lemma PrefixNoControl(s: seq<char>, t: seq<char>)
    requires t <= s && !HasControl(s)
    ensures !HasControl(t)
  {
    forall i | 0 <= i < |t| ensures !Control(t[i]) {
      assert t[i] == s[i];
    }
  }

  // A single line, saved and read back.
  lemma LineRoundTrip(l: Line, isflowed: bool)
    requires !HasControl(l.text)
    ensures ReadLine(LineText(l, isflowed), isflowed, isflowed) == l <==> Storable(l, isflowed)
  {
    CleanMeans(l.text);
    DepthOnlyQuotes(l.text);
    if isflowed {
      FlowedLineRoundTrip(l);
    }
  }

  lemma FlowedLineRoundTrip(l: Line)
    requires !HasControl(l.text)
    ensures ReadLine(LineText(l, true), true, true) == l <==> Storable(l, true)
  {
    CleanMeans(l.text);
    DepthOnlyQuotes(l.text);
    if l.flowed {
      var s := l.text + [' '];
      DepthOfPrefix(l.text, [' ']);
      assert s[..|s| - 1] == l.text;
      assert LooksFlowed(s) <==> !OnlyQuoteMarks(l.text);
    } else {
      var s := TrimEnd(l.text);
      TrimEndMeans(l.text);
      assert !LooksFlowed(s);
      CleanMeans(s);
      PrefixNoControl(l.text, s);
    }
  }

  ghost predicate AllStorable(doc: seq<Line>, isflowed: bool) {
    doc == [] || (Storable(doc[0], isflowed) && AllStorable(doc[1..], isflowed))
  }

  ghost predicate NoControls(doc: seq<Line>) { doc == [] || (!HasControl(doc[0].text) && NoControls(doc[1..])) }

  lemma {:induction false} ReadLinesAreClean(lines: seq<seq<char>>, isflowed: bool, delsp: bool)
    ensures NoControls(ReadLines(lines, isflowed, delsp))
  {
    if lines != [] {
      CleanMeans(lines[0]);
      CleanMeans(if lines[0] == [] then [] else lines[0][..|lines[0]| - 1]);
      ReadLinesAreClean(lines[1..], isflowed, delsp);
    }
  }

  lemma {:induction false} LinesRoundTrip(doc: seq<Line>, isflowed: bool)
    requires NoControls(doc)
    ensures NoNewlines(LineTexts(doc, isflowed))
    ensures ReadLines(LineTexts(doc, isflowed), isflowed, isflowed) == doc <==> AllStorable(doc, isflowed)
  {
    hide ReadLine, LineText, Storable, HasControl;
    if doc != [] {
      LinesRoundTrip(doc[1..], isflowed);
      LineRoundTrip(doc[0], isflowed);
      NoNewlineText(doc[0], isflowed);
      var texts := LineTexts(doc, isflowed);
      assert texts[0] == LineText(doc[0], isflowed) && texts[1..] == LineTexts(doc[1..], isflowed);
      var first, rest := ReadLine(texts[0], isflowed, isflowed), ReadLines(texts[1..], isflowed, isflowed);
      assert ReadLines(texts, isflowed, isflowed) == [first] + rest;
      assert doc == [doc[0]] + doc[1..];
    }
  }

  lemma NoNewlineText(l: Line, isflowed: bool)
    requires !HasControl(l.text)
    ensures '\n' !in LineText(l, isflowed) && '\0' !in LineText(l, isflowed)
  {
    forall c | c in l.text ensures !Control(c) {
      var i :| 0 <= i < |l.text| && l.text[i] == c;
      assert !Control(l.text[i]);
    }
    forall c | c in TrimEnd(l.text) ensures c in l.text {
      var i :| 0 <= i < |TrimEnd(l.text)| && TrimEnd(l.text)[i] == c;
      assert l.text[i] == c;
    }
  }

  /** Saving a document and loading it again gives the same document exactly when there are no
      control characters and, in flowed text, no flowed line consists of quote marks only and no
      other line ends in a space; in plain text, when no line flows. */
  lemma SaveThenLoad(doc: seq<Line>, isflowed: bool)
    requires doc != []
    ensures Load(Save(doc, isflowed), isflowed, isflowed) == doc <==> forall i :: 0 <= i < |doc| ==> Storable(doc[i], isflowed)
  {
    hide ReadLine, LineText, Storable, HasControl;
    AllStorableMeans(doc, isflowed);
    if NoControls(doc) {
      LinesRoundTrip(doc, isflowed);
      WrittenLinesRead(LineTexts(doc, isflowed));
      NoNewlineText(doc[0], isflowed);
    } else {
      var lines := FileLines(Save(doc, isflowed));
      var kept := if Binary(lines) then [] else lines;
      ReadLinesAreClean(kept, isflowed, isflowed);
      EmptyIsClean();
    }
  }

  lemma EmptyIsClean()
    ensures NoControls([Line([], false)])
  {
    assert [Line([], false)][1..] == [];
  }

  lemma {:induction false} AllStorableMeans(doc: seq<Line>, isflowed: bool)
    ensures AllStorable(doc, isflowed) <==> forall i :: 0 <= i < |doc| ==> Storable(doc[i], isflowed)
    ensures AllStorable(doc, isflowed) ==> NoControls(doc)
  {
    if doc != [] {
      AllStorableMeans(doc[1..], isflowed);
      if AllStorable(doc, isflowed) {
        forall i | 0 <= i < |doc| ensures Storable(doc[i], isflowed) {
          assert i > 0 ==> doc[i] == doc[1..][i - 1];
        }
      }
    }
  }

  // --- Loading and saving ------------------------------------------------------------------

  // What becomes of a line of a flowed file. Whether it flows is decided before the control
  // characters go.
  function Stored(s: seq<char>): seq<char> { if LooksFlowed(s) then Clean(s) else TrimEnd(Clean(s)) }

  lemma LineStored(s: seq<char>)
    ensures LineText(ReadLine(s, true, true), true) == Stored(s)
  {
    hide Clean, TrimEnd, PrefixLength;
    if LooksFlowed(s) {
      var t := s[..|s| - 1];
      CleanPush(t, ' ');
      assert s == t + [' '];
    }
  }

  /** What flows without its control characters ends in a space as it is: a control character
      such as a carriage return behind the space takes the flow away. */
  predicate KeepsFlow(s: seq<char>) { LooksFlowed(Clean(s)) ==> s[|s| - 1] == ' ' }

  lemma ReturnLosesFlow()
    ensures Clean(['a', ' ', '\r']) == "a " && !KeepsFlow(['a', ' ', '\r']) && Stored(['a', ' ', '\r']) == "a"
  {
    var s := ['a', ' ', '\r'];
    assert s[1..] == [' ', '\r'] && [' ', '\r'][1..] == ['\r'] && ['\r'][1..] == [];
    assert Clean(['\r']) == [] && Clean([' ', '\r']) == [' '] && Clean(s) == ['a', ' '];
    NotFlowed(s);
    assert "a "[1..] == " " && QuoteDepth("a ") == 0;
    TrimOneSpace("a");
    assert "a" + [' '] == "a ";
  }

  // The same line without the spaces at its end.
  predicate Trimmed(p: Physical, q: Physical) {
    q.depth == p.depth && q.content == TrimEnd(p.content) && p.content != [] && p.content[|p.content| - 1] == ' '
  }

  // A stored line reads like the line without its control characters exactly when it keeps
  // its flow.
  lemma StoredReads(s: seq<char>)
    ensures Clean(s) != [] ==> s != []
    ensures Interpret(Stored(s)) == Interpret(Clean(s)) <==> KeepsFlow(s)
    ensures !KeepsFlow(s) ==> Trimmed(Interpret(Clean(s)), Interpret(Stored(s)))
  {
    hide LooksFlowed, Interpret, Clean, TrimEnd;
    var c := Clean(s);
    CleanMeans(s);
    TrimEndMeans(c);
    if c != [] && c[|c| - 1] == ' ' {
      EndsInSpace(s, c[..|c| - 1]);
    } else {
      NotFlowed(c);
    }
  }

  // The same for a line that ends in a space without its control characters.
  lemma EndsInSpace(s: seq<char>, t: seq<char>)
    requires Clean(s) == t + [' '] && |Clean(s)| <= |s|
    ensures Interpret(Stored(s)) == Interpret(Clean(s)) <==> KeepsFlow(s)
    ensures !KeepsFlow(s) ==> Trimmed(Interpret(Clean(s)), Interpret(Stored(s)))
  {
    hide LooksFlowed, Interpret, Clean, TrimEnd;
    FlowedUnlessQuotes(t);
    if OnlyQuoteMarks(t) {
      TrimOneSpace(t);
    } else {
      TrimmedReads(t);
      FlowsAsItIs(s, t);
    }
  }

  // Without spaces at its end, a line that flows has the same depth, and the same content
  // without spaces at its end.
  lemma TrimmedReads(t: seq<char>)
    requires !OnlyQuoteMarks(t)
    ensures var p, q := Interpret(t + [' ']), Interpret(TrimEnd(t + [' '])); q != p && Trimmed(p, q)
  {
    hide Interpret, TrimEnd, QuoteDepth;
    var d := QuoteDepth(t);
    DepthOnlyQuotes(t);
    AfterMarks(t, d);
    TrimmedMarked(d, t[d..] + [' ']);
  }

  lemma AfterMarks(t: seq<char>, d: nat)
    requires d <= |t| && forall i :: 0 <= i < d ==> t[i] == '>'
    ensures t + [' '] == Repeat('>', d) + (t[d..] + [' '])
  {
    assert t[..d] == Repeat('>', d);
    assert t == t[..d] + t[d..];
  }

  lemma TrimmedMarked(d: nat, rest: seq<char>)
    requires |rest| > 1 && rest[|rest| - 1] == ' ' && rest[0] != '>'
    ensures var c := Repeat('>', d) + rest;
      var p, q := Interpret(c), Interpret(TrimEnd(c)); q != p && Trimmed(p, q)
  {
    hide Interpret, TrimEnd, Repeat;
    TrimAfter(Repeat('>', d), rest);
    InterpretMarked(d, rest);
    TrimUnstuffed(rest);
    InterpretMarked(d, TrimEnd(rest));
    TrimEndMeans(Unstuffed(rest));
  }

  // What follows the quote marks, without the stuffed space.
  function Unstuffed(rest: seq<char>): seq<char> { if rest != [] && rest[0] == ' ' then rest[1..] else rest }

  // It does not matter whether the spaces at the end go first.
  lemma TrimUnstuffed(rest: seq<char>)
    requires |rest| > 1 && rest[|rest| - 1] == ' ' && rest[0] != '>'
    ensures Unstuffed(TrimEnd(rest)) == TrimEnd(Unstuffed(rest))
    ensures TrimEnd(rest) == [] || TrimEnd(rest)[0] != '>'
  {
    hide TrimEnd;
    assert rest == [rest[0]] + rest[1..];
    if rest[0] == ' ' {
      StuffedTrims(rest[1..]);
    } else {
      TrimAfter([rest[0]], rest[1..]);
    }
  }

  lemma {:induction false} StuffedTrims(x: seq<char>)
    ensures TrimEnd([' '] + x) == if TrimEnd(x) == [] then [] else [' '] + TrimEnd(x)
  {
    if x == [] {
      assert [' '] + x == [' '] && [' '][..0] == [];
      assert TrimEnd([]) == [];
    } else if x[|x| - 1] == ' ' {
      assert ([' '] + x)[..|x|] == [' '] + x[..|x| - 1];
      StuffedTrims(x[..|x| - 1]);
    }
  }

  lemma {:induction false} TrimAfter(a: seq<char>, b: seq<char>)
    requires a == [] || a[|a| - 1] != ' '
    ensures TrimEnd(a + b) == a + TrimEnd(b)
  {
    if b == [] {
      assert a + b == a;
    } else if b[|b| - 1] == ' ' {
      assert (a + b)[..|a + b| - 1] == a + b[..|b| - 1];
      TrimAfter(a, b[..|b| - 1]);
    }
  }

  // A line that is not just quote marks and a space without its control characters flows
  // exactly when it ends in a space.
  lemma FlowsAsItIs(s: seq<char>, t: seq<char>)
    requires Clean(s) == t + [' '] && !OnlyQuoteMarks(t) && s != []
    ensures LooksFlowed(s) <==> s[|s| - 1] == ' '
  {
    hide LooksFlowed, Clean;
    if s[|s| - 1] == ' ' {
      var r := s[..|s| - 1];
      assert s == r + [' '];
      FlowedUnlessQuotes(r);
      CleanPush(r, ' ');
      assert t == (t + [' '])[..|t|] == Clean(r);
      if OnlyQuoteMarks(r) {
        QuotesAreClean(r);
      }
    } else {
      NotFlowed(s);
    }
  }

  lemma QuotesAreClean(r: seq<char>)
    requires OnlyQuoteMarks(r)
    ensures Clean(r) == r
  {
    CleanMeans(r);
  }

  lemma NotFlowed(s: seq<char>)
    requires s == [] || s[|s| - 1] != ' '
    ensures !LooksFlowed(s)
  {}

  lemma FlowedUnlessQuotes(t: seq<char>)
    ensures LooksFlowed(t + [' ']) <==> !OnlyQuoteMarks(t)
    ensures OnlyQuoteMarks(t) ==> Interpret(t) == Interpret(t + [' ']) && (t == [] || t[|t| - 1] != ' ')
  {
    var s := t + [' '];
    DepthOnlyQuotes(t);
    DepthOfPrefix(t, [' ']);
    if OnlyQuoteMarks(t) {
      assert s[|t|..] == [' '] && t[|t|..] == [] && [' '][1..] == [];
    }
  }

  lemma TrimOneSpace(t: seq<char>)
    requires t == [] || t[|t| - 1] != ' '
    ensures TrimEnd(t + [' ']) == t
  {
    assert (t + [' '])[..|t|] == t;
  }

  function CleanLines(lines: seq<seq<char>>): (r: seq<seq<char>>)
    ensures |r| == |lines|
  {
    if lines == [] then [] else [Clean(lines[0])] + CleanLines(lines[1..])
  }

  function StoredLines(lines: seq<seq<char>>): (r: seq<seq<char>>)
    ensures |r| == |lines|
  {
    if lines == [] then [] else [Stored(lines[0])] + StoredLines(lines[1..])
  }

  lemma {:induction false} LinesStored(lines: seq<seq<char>>)
    ensures LineTexts(ReadLines(lines, true, true), true) == StoredLines(lines)
  {
    hide Stored, ReadLine, LineText;
    if lines != [] {
      LineStored(lines[0]);
      LinesStored(lines[1..]);
      assert ReadLines(lines, true, true)[1..] == ReadLines(lines[1..], true, true);
    }
  }

  lemma {:induction false} LinesAt(lines: seq<seq<char>>, i: nat)
    requires i < |lines|
    ensures CleanLines(lines)[i] == Clean(lines[i]) && StoredLines(lines)[i] == Stored(lines[i])
  {
    hide Clean, Stored;
    if i > 0 {
      LinesAt(lines[1..], i - 1);
    }
  }

  // What a line says without its control characters.
  function Said(s: seq<char>): Physical { Interpret(Clean(s)) }

  // The text of a line that ends in a space stays the same without its flow.
  predicate OneSpaceAtEnd(t: seq<char>) { t != "-- " && (|t| < 2 || t[|t| - 2] != ' ') }

  /** The files that keep their paragraphs. A line that loses its flow ends in one space, is not
      a signature separator and does not continue on the next line; for readers that end a
      paragraph before an empty line, it is not just a space that a line before continues on. */
  ghost predicate ParagraphsKept(lines: seq<seq<char>>, strict: bool) {
    (forall i :: 0 <= i < |lines| ==> KeepsFlow(lines[i]) || OneSpaceAtEnd(Said(lines[i]).content)) &&
    (forall i :: 0 <= i < |lines| - 1 && Said(lines[i]).Continues(Said(lines[i + 1]), strict) ==>
      KeepsFlow(lines[i]) && (strict || KeepsFlow(lines[i + 1]) || Said(lines[i + 1]).content != " "))
  }

  lemma TrimmedMeans(p: Physical, q: Physical)
    requires Trimmed(p, q)
    ensures Shortened(p, q) && !q.Flowed() && !q.Signature()
    ensures q.Text() == p.Text() <==> OneSpaceAtEnd(p.content)
    ensures OneSpaceAtEnd(p.content) && q.content == [] ==> p.content == " "
    ensures p.content == " " ==> q.content == []
  {
    hide TrimEnd;
    var y := p.content[..|p.content| - 1];
    TrimStep(p.content);
    TrimEndMeans(y);
    TrimEndMeans(TrimEnd(y));
    assert y == [] ==> TrimEnd(y) == [];
    assert |TrimEnd(y)| <= |y|;
  }

  lemma TrimStep(s: seq<char>)
    requires s != [] && s[|s| - 1] == ' '
    ensures TrimEnd(s) == TrimEnd(s[..|s| - 1])
  {}

  // A line that continues, before and after it is stored.
  lemma ContinuesStored(p: Physical, q: Physical, p1: Physical, q1: Physical, keeps: bool, keeps1: bool, strict: bool)
    requires if keeps then q == p else Trimmed(p, q) && OneSpaceAtEnd(p.content)
    requires if keeps1 then q1 == p1 else Trimmed(p1, q1) && OneSpaceAtEnd(p1.content)
    ensures (p.Continues(p1, strict) <==> q.Continues(q1, strict)) <==>
      (p.Continues(p1, strict) ==> keeps && (strict || keeps1 || p1.content != " "))
  {
    hide TrimEnd, OneSpaceAtEnd, Shortened;
    if !keeps {
      TrimmedMeans(p, q);
    }
    if !keeps1 {
      TrimmedMeans(p1, q1);
      assert !p1.Signature() by {
        NoSignature(p1);
      }
    }
  }

  lemma NoSignature(p: Physical)
    requires OneSpaceAtEnd(p.content)
    ensures !p.Signature()
  {}

  /** A stored file says what it said without its control characters exactly when it is one of
      those. */
  lemma StoredDecodes(lines: seq<seq<char>>, strict: bool)
    ensures Decode(StoredLines(lines), strict) == Decode(CleanLines(lines), strict) <==> ParagraphsKept(lines, strict)
  {
    hide Interpret, Stored, Clean, KeepsFlow, Decode, Shortened, Trimmed, OneSpaceAtEnd, SameTexts, SameFlow, ParagraphsKept;
    var a, b := StoredLines(lines), CleanLines(lines);
    forall i | 0 <= i < |lines| ensures Shortened(Interpret(b[i]), Interpret(a[i])) {
      LinesAt(lines, i);
      StoredReads(lines[i]);
      if KeepsFlow(lines[i]) {
        SameIsShortened(Interpret(b[i]));
      } else {
        TrimmedMeans(Interpret(b[i]), Interpret(a[i]));
      }
    }
    DecodesSame(a, b, strict);
    StoredSame(lines, strict);
  }

  lemma SameIsShortened(p: Physical)
    ensures Shortened(p, p)
  {}

  lemma StoredText(s: seq<char>)
    ensures Interpret(Stored(s)).Text() == Said(s).Text() <==> KeepsFlow(s) || OneSpaceAtEnd(Said(s).content)
  {
    hide Interpret, Stored, Clean, KeepsFlow, Trimmed, OneSpaceAtEnd;
    StoredReads(s);
    if !KeepsFlow(s) {
      TrimmedMeans(Said(s), Interpret(Stored(s)));
    }
  }

  lemma StoredContinues(s: seq<char>, s1: seq<char>, strict: bool)
    requires KeepsFlow(s) || OneSpaceAtEnd(Said(s).content)
    requires KeepsFlow(s1) || OneSpaceAtEnd(Said(s1).content)
    ensures (Said(s).Continues(Said(s1), strict) <==> Interpret(Stored(s)).Continues(Interpret(Stored(s1)), strict)) <==>
      (Said(s).Continues(Said(s1), strict) ==> KeepsFlow(s) && (strict || KeepsFlow(s1) || Said(s1).content != " "))
  {
    hide Interpret, Stored, Clean, KeepsFlow, Trimmed, OneSpaceAtEnd;
    StoredReads(s);
    StoredReads(s1);
    ContinuesStored(Said(s), Interpret(Stored(s)), Said(s1), Interpret(Stored(s1)), KeepsFlow(s), KeepsFlow(s1), strict);
  }

  lemma StoredSame(lines: seq<seq<char>>, strict: bool)
    ensures SameTexts(StoredLines(lines), CleanLines(lines)) && SameFlow(StoredLines(lines), CleanLines(lines), strict) <==>
      ParagraphsKept(lines, strict)
  {
    hide Interpret, Stored, Clean, KeepsFlow, OneSpaceAtEnd, CleanLines, StoredLines, Physical.Continues, Physical.Text;
    var a, b := StoredLines(lines), CleanLines(lines);
    forall i | 0 <= i < |lines|
      ensures a[i] == Stored(lines[i]) && b[i] == Clean(lines[i])
      ensures Interpret(a[i]).Text() == Interpret(b[i]).Text() <==> KeepsFlow(lines[i]) || OneSpaceAtEnd(Said(lines[i]).content)
    {
      LinesAt(lines, i);
      StoredText(lines[i]);
    }
    if forall i :: 0 <= i < |lines| ==> KeepsFlow(lines[i]) || OneSpaceAtEnd(Said(lines[i]).content) {
      forall i | 0 <= i < |lines| - 1
        ensures Continues(a, i, strict) == Continues(b, i, strict) <==>
          (Said(lines[i]).Continues(Said(lines[i + 1]), strict) ==>
            KeepsFlow(lines[i]) && (strict || KeepsFlow(lines[i + 1]) || Said(lines[i + 1]).content != " "))
      {
        StoredContinues(lines[i], lines[i + 1], strict);
      }
    }
  }

  lemma {:induction false} StoredNoNewlines(lines: seq<seq<char>>)
    ensures NoNewlines(StoredLines(lines))
  {
    hide Stored;
    if lines != [] {
      StoredNoNewlines(lines[1..]);
      StoredNoNewline(lines[0]);
    }
  }

  lemma StoredNoNewline(s: seq<char>)
    ensures '\n' !in Stored(s)
  {
    hide Clean;
    NoNewlineIn(s);
  }

  /** Loading a flowed file, binary ones aside, and saving it again writes its lines without
      control characters, except that a line loses spaces at its end that do not make it flow.
      Read as format=flowed text with DelSp=yes, it says what it said without the control
      characters exactly when it is one of the files above. An empty file becomes one empty line. */
  lemma LoadThenSave(file: seq<char>, strict: bool)
    ensures var lines, out := FileLines(file), FileLines(Save(Load(file, true, true), true));
      out == (if lines == [] || Binary(lines) then [[]] else StoredLines(lines)) &&
      (!Binary(lines) && lines != [] ==>
        (Decode(out, strict) == Decode(CleanLines(lines), strict) <==> ParagraphsKept(lines, strict)))
  {
    hide Decode, ParagraphsKept, Stored, ReadLine, LineText;
    var lines := FileLines(file);
    if lines == [] || Binary(lines) {
      SaveNothing();
    } else {
      LinesStored(lines);
      StoredNoNewlines(lines);
      WrittenLinesRead(StoredLines(lines));
      StoredDecodes(lines, strict);
    }
  }

  /** Loading a plain file and saving it again removes its control characters. */
  lemma LoadThenSavePlain(file: seq<char>)
    ensures var lines := FileLines(file);
      FileLines(Save(Load(file, false, false), false)) == if lines == [] || Binary(lines) then [[]] else CleanLines(lines)
  {
    hide Clean, FileLines;
    var lines := FileLines(file);
    PlainLinesRead(lines);
    if lines == [] || Binary(lines) {
      SaveNothing();
    } else {
      WrittenLinesRead(CleanLines(lines));
    }
  }

  lemma {:induction false} PlainLinesRead(lines: seq<seq<char>>)
    ensures LineTexts(ReadLines(lines, false, false), false) == CleanLines(lines) && NoNewlines(CleanLines(lines))
  {
    hide Clean;
    if lines != [] {
      PlainLinesRead(lines[1..]);
      NoNewlineIn(lines[0]);
      assert ReadLines(lines, false, false)[1..] == ReadLines(lines[1..], false, false);
    }
  }

  lemma NoNewlineIn(s: seq<char>)
    ensures '\n' !in Clean(s)
  {
    CleanMeans(s);
    forall i | 0 <= i < |Clean(s)| ensures Clean(s)[i] != '\n' {
      assert !Control(Clean(s)[i]);
    }
  }

  /** A file that does not keep its paragraphs, as any with lines that end in a carriage return
      and a line feed: its one paragraph becomes two. */
  lemma ReturnsSplitParagraph(strict: bool)
    ensures var file := ['a', ' ', '\r', '\n', 'b'];
      Decode(CleanLines(FileLines(file)), strict) == [Paragraph(0, "ab")] &&
      Decode(FileLines(Save(Load(file, true, true), true)), strict) == [Paragraph(0, "a"), Paragraph(0, "b")]
  {
    hide Decode, CleanLines, StoredLines, Load, Save, FileLines, ParagraphsKept;
    var file := ['a', ' ', '\r', '\n', 'b'];
    var a, b := ['a', ' ', '\r'], ['b'];
    TwoLines();
    LoadThenSave(file, strict);
    ReturnLosesFlow();
    PlainLine();
    assert !Binary([a, b]);
    TwoOf(a, b);
    DecodeTwo(strict);
  }

  lemma TwoLines()
    ensures FileLines(['a', ' ', '\r', '\n', 'b']) == [['a', ' ', '\r'], ['b']]
  {
    FirstLine(['a', ' ', '\r'], ['b']);
    LastLine(['b']);
    assert ['a', ' ', '\r'] + ['\n'] + ['b'] == ['a', ' ', '\r', '\n', 'b'];
  }

  lemma PlainLine()
    ensures Clean("b") == "b" == Stored("b")
  {
    assert "b"[1..] == [];
  }

  lemma TwoOf(a: seq<char>, b: seq<char>)
    ensures CleanLines([a, b]) == [Clean(a), Clean(b)] && StoredLines([a, b]) == [Stored(a), Stored(b)]
  {
    assert [a, b][1..] == [b] && [b][1..] == [];
  }

  lemma DecodeTwo(strict: bool)
    ensures Decode(["a ", "b"], strict) == [Paragraph(0, "ab")]
    ensures Decode(["a", "b"], strict) == [Paragraph(0, "a"), Paragraph(0, "b")]
  {
    var b: seq<seq<char>> := ["b"];
    assert ["a ", "b"][1..] == b && ["a", "b"][1..] == b && b[1..] == [];
    assert Interpret("a ") == Physical(0, "a ") && Interpret("a") == Physical(0, "a") && Interpret("b") == Physical(0, "b");
    assert Decode(b, strict) == [Paragraph(0, "b")];
    assert "a "[..1] == "a" && "a" + "b" == "ab";
  }

  lemma SaveNothing()
    ensures forall isflowed :: FileLines(Save([Line([], false)], isflowed)) == [[]]
  {
    var one: seq<Line> := [Line([], false)];
    assert one[1..] == [] && TrimEnd([]) == [];
    assert forall isflowed :: Save(one, isflowed) == ['\n'];
    assert ['\n'][1..] == [];
  }
}
