/** The text/plain format=flowed format with DelSp=yes, as section 4 of RFC 3676
    defines it for a reader: physical lines and the paragraphs they stand for. */
module FlowedText {

  const LINEW := 77

  // The text without its trailing spaces.
  function TrimEnd(s: seq<char>): (r: seq<char>)
    ensures r <= s && (r != [] ==> r[|r| - 1] != ' ')
  {
    if s != [] && s[|s| - 1] == ' ' then TrimEnd(s[..|s| - 1]) else s
  }

  datatype Paragraph = Paragraph(depth: nat, text: seq<char>)

  // A physical line: the quote marks, and what follows them once the stuffed space
  // is gone.
  datatype Physical = Physical(depth: nat, content: seq<char>)
  {
    // A line that is the signature separator does not flow.
    predicate Signature() { content == "-- " }

    predicate Flowed() { content != [] && content[|content| - 1] == ' ' && !Signature() }

    function Text(): seq<char> {
      if Flowed() then content[..|content| - 1] else content
    }

    // Whether this line continues on the next one. The reader in the repository
    // also ends a paragraph before an empty line; `strict` readers do not.
    predicate Continues(next: Physical, strict: bool) {
      Flowed() && next.depth == depth && !next.Signature() && (strict || next.content != [])
    }
  }

  function QuoteDepth(line: seq<char>): (n: nat)
    ensures n <= |line|
  {
    if line != [] && line[0] == '>' then 1 + QuoteDepth(line[1..]) else 0
  }

  function Interpret(line: seq<char>): Physical {
    var depth := QuoteDepth(line);
    var rest := line[depth..];
    Physical(depth, if rest != [] && rest[0] == ' ' then rest[1..] else rest)
  }

  // A physical line put before the paragraphs that follow it.
  function Prepend(p: Physical, continues: bool, rest: seq<Paragraph>): (r: seq<Paragraph>)
    requires continues ==> rest != []
    ensures r != []
  {
    if continues then [Paragraph(p.depth, p.Text() + rest[0].text)] + rest[1..]
    else [Paragraph(p.depth, p.Text())] + rest
  }

  function Decode(lines: seq<seq<char>>, strict: bool): (r: seq<Paragraph>)
    ensures lines != [] ==> r != []
  {
    if lines == [] then [] else
      var p := Interpret(lines[0]);
      Prepend(p, |lines| > 1 && p.Continues(Interpret(lines[1]), strict), Decode(lines[1..], strict))
  }

  // The lines of a text file; a last line may lack its newline.
  function FileLines(text: seq<char>): seq<seq<char>> {
    if text == [] then [] else
      var rest := FileLines(text[1..]);
      if text[0] == '\n' then [[]] + rest
      else if rest == [] then [[text[0]]]
      else [[text[0]] + rest[0]] + rest[1..]
  }

  function WriteLines(lines: seq<seq<char>>): seq<char> {
    if lines == [] then [] else lines[0] + ['\n'] + WriteLines(lines[1..])
  }

  lemma {:induction false} WriteConcat(a: seq<seq<char>>, b: seq<seq<char>>)
    ensures WriteLines(a + b) == WriteLines(a) + WriteLines(b)
  {
    if a == [] {
      assert a + b == b;
    } else {
      assert (a + b)[1..] == a[1..] + b;
      WriteConcat(a[1..], b);
    }
  }

  ghost predicate NoNewlines(lines: seq<seq<char>>) {
    forall i :: 0 <= i < |lines| ==> '\n' !in lines[i]
  }

  lemma {:induction false} FirstLine(line: seq<char>, more: seq<char>)
    requires '\n' !in line
    ensures FileLines(line + ['\n'] + more) == [line] + FileLines(more)
  {
    var text := line + ['\n'] + more;
    if line == [] {
      assert text[1..] == more;
    } else {
      assert text[1..] == line[1..] + ['\n'] + more;
      FirstLine(line[1..], more);
      assert [line[0]] + line[1..] == line;
    }
  }

  lemma {:induction false} LastLine(line: seq<char>)
    requires '\n' !in line && line != []
    ensures FileLines(line) == [line]
  {
    assert line[0] in line;
    if |line| == 1 {
      assert line[1..] == [] && FileLines(line[1..]) == [];
      assert line == [line[0]];
    } else {
      LastLine(line[1..]);
      assert [line[0]] + line[1..] == line;
    }
  }

  /** Reading back what was written line by line. */
  lemma {:induction false} WrittenLinesRead(lines: seq<seq<char>>)
    requires NoNewlines(lines)
    ensures FileLines(WriteLines(lines)) == lines
  {
    if lines != [] {
      FirstLine(lines[0], WriteLines(lines[1..]));
      WrittenLinesRead(lines[1..]);
    }
  }

  function Repeat(c: char, n: nat): (r: seq<char>)
    ensures |r| == n && forall i :: 0 <= i < n ==> r[i] == c
  {
    if n == 0 then [] else [c] + Repeat(c, n - 1)
  }

  lemma {:induction false} DepthOfMarked(n: nat, rest: seq<char>)
    requires rest == [] || rest[0] != '>'
    ensures QuoteDepth(Repeat('>', n) + rest) == n
  {
    var s := Repeat('>', n) + rest;
    if n > 0 {
      assert s[1..] == Repeat('>', n - 1) + rest;
      DepthOfMarked(n - 1, rest);
    }
  }

  lemma InterpretMarked(n: nat, rest: seq<char>)
    requires rest == [] || rest[0] != '>'
    ensures Interpret(Repeat('>', n) + rest) ==
      Physical(n, if rest != [] && rest[0] == ' ' then rest[1..] else rest)
  {
    DepthOfMarked(n, rest);
    assert (Repeat('>', n) + rest)[n..] == rest;
  }

  lemma PrependConcat(p: Physical, continues: bool, a: seq<Paragraph>, b: seq<Paragraph>)
    requires continues ==> a != []
    ensures Prepend(p, continues, a + b) == Prepend(p, continues, a) + b
  {
    if continues {
      assert (a + b)[1..] == a[1..] + b;
    }
  }

  /** Lines that end in one that does not flow decode on their own. */
  lemma {:induction false} DecodeConcat(a: seq<seq<char>>, b: seq<seq<char>>, strict: bool)
    requires a != [] ==> !Interpret(a[|a| - 1]).Flowed()
    ensures Decode(a + b, strict) == Decode(a, strict) + Decode(b, strict)
  {
    if a == [] {
      assert a + b == b;
    } else {
      hide Interpret, Prepend;
      assert (a + b)[1..] == a[1..] + b;
      var p := Interpret(a[0]);
      if |a| == 1 {
        assert a[1..] == [] && a[1..] + b == b;
        assert !p.Flowed();
        PrependConcat(p, false, [], Decode(b, strict));
        assert [] + Decode(b, strict) == Decode(b, strict);
      } else {
        DecodeConcat(a[1..], b, strict);
        assert (a + b)[1] == a[1];
        PrependConcat(p, p.Continues(Interpret(a[1]), strict), Decode(a[1..], strict), Decode(b, strict));
      }
    }
  }

  // --- Two files, line by line ---------------------------------------------------------------

  /** Line q is line p, or p without some of its end, and then it does not flow. */
  predicate Shortened(p: Physical, q: Physical) {
    q == p || (q.depth == p.depth && q.content <= p.content && !q.Flowed() && |q.Text()| <= |p.Text()|)
  }

  ghost predicate AllShortened(b: seq<seq<char>>, a: seq<seq<char>>) {
    |a| == |b| && forall i :: 0 <= i < |a| ==> Shortened(Interpret(b[i]), Interpret(a[i]))
  }

  function Continues(lines: seq<seq<char>>, i: nat, strict: bool): bool
    requires i + 1 < |lines|
  {
    Interpret(lines[i]).Continues(Interpret(lines[i + 1]), strict)
  }

  // Every line has the same text in both, and continues in both or in neither.
  ghost predicate SameTexts(a: seq<seq<char>>, b: seq<seq<char>>)
    requires |a| == |b|
  {
    forall i :: 0 <= i < |a| ==> Interpret(a[i]).Text() == Interpret(b[i]).Text()
  }

  ghost predicate SameFlow(a: seq<seq<char>>, b: seq<seq<char>>, strict: bool)
    requires |a| == |b|
  {
    forall i :: 0 <= i < |a| - 1 ==> Continues(a, i, strict) == Continues(b, i, strict)
  }

  lemma SameTextsRest(a: seq<seq<char>>, b: seq<seq<char>>)
    requires |a| == |b| && a != []
    ensures SameTexts(a, b) <==> Interpret(a[0]).Text() == Interpret(b[0]).Text() && SameTexts(a[1..], b[1..])
  {
    hide Interpret, Physical.Text;
    if SameTexts(a[1..], b[1..]) {
      forall i | 0 < i < |a| ensures Interpret(a[i]).Text() == Interpret(a[1..][i - 1]).Text() {}
      forall i | 0 < i < |a| ensures Interpret(b[i]).Text() == Interpret(b[1..][i - 1]).Text() {}
    }
  }

  lemma ContinuesRest(lines: seq<seq<char>>, i: nat, strict: bool)
    requires i + 2 < |lines|
    ensures Continues(lines[1..], i, strict) == Continues(lines, i + 1, strict)
  {
    hide Interpret;
  }

  lemma SameFlowRest(a: seq<seq<char>>, b: seq<seq<char>>, strict: bool)
    requires |a| == |b| > 1
    ensures SameFlow(a, b, strict) <==>
      Continues(a, 0, strict) == Continues(b, 0, strict) && SameFlow(a[1..], b[1..], strict)
  {
    hide Continues;
    forall i | 0 <= i < |a| - 2
      ensures Continues(a[1..], i, strict) == Continues(a, i + 1, strict)
      ensures Continues(b[1..], i, strict) == Continues(b, i + 1, strict)
    {
      ContinuesRest(a, i, strict);
      ContinuesRest(b, i, strict);
    }
    if SameFlow(a[1..], b[1..], strict) {
      forall i | 0 < i < |a| - 1 ensures Continues(a, i, strict) == Continues(a[1..], i - 1, strict) {
        ContinuesRest(a, i - 1, strict);
      }
      forall i | 0 < i < |a| - 1 ensures Continues(b, i, strict) == Continues(b[1..], i - 1, strict) {
        ContinuesRest(b, i - 1, strict);
      }
    }
  }

  function SaidLength(ps: seq<Paragraph>): nat {
    if ps == [] then 0 else |ps[0].text| + SaidLength(ps[1..])
  }

  // How one line changes the number of paragraphs and the length of their texts.
  lemma DecodeCounts(lines: seq<seq<char>>, strict: bool)
    requires lines != []
    ensures var r, rest := Decode(lines, strict), Decode(lines[1..], strict);
      SaidLength(r) == |Interpret(lines[0]).Text()| + SaidLength(rest) &&
      |r| == |rest| + if |lines| > 1 && Continues(lines, 0, strict) then 0 else 1
  {
    hide Interpret;
    var p, rest := Interpret(lines[0]), Decode(lines[1..], strict);
    if |lines| > 1 && Continues(lines, 0, strict) {
      assert Decode(lines, strict)[1..] == rest[1..];
    } else {
      assert Decode(lines, strict)[1..] == rest;
    }
  }

  // A shortened line continues only where the line does.
  lemma ContinuesLess(p: Physical, q: Physical, p1: Physical, q1: Physical, strict: bool)
    requires Shortened(p, q) && Shortened(p1, q1) && |q1.Text()| == |p1.Text()|
    ensures q.Continues(q1, strict) ==> p.Continues(p1, strict)
  {}

  lemma SameLength(p: Physical, q: Physical)
    requires Shortened(p, q)
    ensures |q.Text()| <= |p.Text()| && (|q.Text()| == |p.Text()| ==> q.Text() == p.Text())
  {}

  lemma ShortenedLengths(a: seq<seq<char>>, b: seq<seq<char>>)
    requires AllShortened(b, a)
    ensures |a| == |b|
  {}

  lemma ShortenedRest(a: seq<seq<char>>, b: seq<seq<char>>)
    requires AllShortened(b, a) && a != []
    ensures AllShortened(b[1..], a[1..]) && Shortened(Interpret(b[0]), Interpret(a[0]))
  {
    hide Interpret, Shortened;
    forall i | 0 <= i < |a| - 1 ensures Shortened(Interpret(b[1..][i]), Interpret(a[1..][i])) {
      assert a[1..][i] == a[i + 1] && b[1..][i] == b[i + 1];
    }
  }

  lemma FirstContinuesLess(a: seq<seq<char>>, b: seq<seq<char>>, strict: bool)
    requires AllShortened(b, a) && |a| > 1 && SameTexts(a[1..], b[1..])
    ensures Continues(a, 0, strict) ==> Continues(b, 0, strict)
  {
    hide Interpret, Shortened;
    assert Interpret(a[1..][0]).Text() == Interpret(b[1..][0]).Text();
    ContinuesLess(Interpret(b[0]), Interpret(a[0]), Interpret(b[1]), Interpret(a[1]), strict);
  }

  // The file with shortened lines has no more text; if it has as much, then it has no fewer
  // paragraphs; and if it has as many, then it reads the same.
  lemma {:induction false} ShortenedCounts(a: seq<seq<char>>, b: seq<seq<char>>, strict: bool)
    requires AllShortened(b, a)
    ensures var r, s := Decode(a, strict), Decode(b, strict);
      SaidLength(r) <= SaidLength(s) &&
      (SaidLength(r) == SaidLength(s) ==> SameTexts(a, b) && |r| >= |s| && (|r| == |s| ==> SameFlow(a, b, strict)))
  {
    hide Interpret, AllShortened, SameTexts, SameFlow, Continues, SaidLength, Decode;
    ShortenedLengths(a, b);
    if a == [] {
      NothingCounts(strict);
    } else {
      ShortenedRest(a, b);
      DecodeCounts(a, strict);
      DecodeCounts(b, strict);
      ShortenedCounts(a[1..], b[1..], strict);
      SameTextsRest(a, b);
      SameLength(Interpret(b[0]), Interpret(a[0]));
      if |a| > 1 {
        SameFlowRest(a, b, strict);
        if SameTexts(a[1..], b[1..]) {
          FirstContinuesLess(a, b, strict);
        }
      } else {
        OneFlows(a, b, strict);
      }
    }
  }

  lemma OneFlows(a: seq<seq<char>>, b: seq<seq<char>>, strict: bool)
    requires |a| == |b| <= 1
    ensures SameFlow(a, b, strict)
  {}

  lemma NothingCounts(strict: bool)
    ensures Decode([], strict) == [] && SameTexts([], []) && SameFlow([], [], strict)
  {}

  /** A file with shortened lines says the same exactly when it reads the same line by line. */
  lemma DecodesSame(a: seq<seq<char>>, b: seq<seq<char>>, strict: bool)
    requires AllShortened(b, a)
    ensures Decode(a, strict) == Decode(b, strict) <==> SameTexts(a, b) && SameFlow(a, b, strict)
  {
    hide AllShortened, SaidLength, Decode, SameTexts, SameFlow;
    ShortenedLengths(a, b);
    if Decode(a, strict) == Decode(b, strict) {
      ShortenedCounts(a, b, strict);
    }
    if SameTexts(a, b) && SameFlow(a, b, strict) {
      ReadsSame(a, b, strict);
    }
  }

  lemma {:induction false} ReadsSame(a: seq<seq<char>>, b: seq<seq<char>>, strict: bool)
    requires AllShortened(b, a) && SameTexts(a, b) && SameFlow(a, b, strict)
    ensures Decode(a, strict) == Decode(b, strict)
  {
    hide Interpret, AllShortened, SameTexts, SameFlow;
    ShortenedLengths(a, b);
    if a != [] {
      ShortenedRest(a, b);
      SameTextsRest(a, b);
      if |a| > 1 {
        SameFlowRest(a, b, strict);
      } else {
        OneFlows(a[1..], b[1..], strict);
      }
      ReadsSame(a[1..], b[1..], strict);
    }
  }
}
