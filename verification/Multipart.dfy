/** Assembling a multipart message: the choice of a boundary that no part contains, and the
    body that sections 5.1.1 of RFC 2046 takes apart again. */
module Multipart {
  import opened Decimals
  import opened Texts
  import opened TransferEncoding
  import F = FlowedText

  // --- Lines -------------------------------------------------------------------------------

  // The lines of a text; the last one is what follows the last line break.
  function Lines(s: string): (ls: seq<string>)
    ensures ls != []
    decreases |s|
  {
    var n := LineEnd(s);
    if n == |s| then [s] else [s[..n]] + Lines(s[n + 1..])
  }

  lemma LinesStep(s: string)
    ensures var n := LineEnd(s); Lines(s) == if n == |s| then [s] else [s[..n]] + Lines(s[n + 1..])
  {
    hide LineEnd;
  }

  function Join(ls: seq<string>): string
    requires ls != []
  {
    if |ls| == 1 then ls[0] else ls[0] + "\n" + Join(ls[1..])
  }

  lemma FirstLine(w: string, rest: string)
    requires '\n' !in w
    ensures Lines(w + "\n" + rest) == [w] + Lines(rest) && Lines(w) == [w]
  {
    var s := w + "\n" + rest;
    LineEnds(w, rest);
    assert s[..|w|] == w && s[|w| + 1..] == rest;
  }

  // A text is one line, or a line and the rest.
  lemma TakeLine(s: string) returns (w: string, rest: string)
    ensures '\n' !in w && (s == w || (s == w + "\n" + rest && |rest| < |s|))
  {
    var n := LineEnd(s);
    LineEndMeans(s);
    w := s[..n];
    rest := if n < |s| then s[n + 1..] else "";
    assert n < |s| ==> s == w + "\n" + rest;
  }

  lemma {:induction false} LinesConcat(a: string, b: string)
    ensures Lines(a + "\n" + b) == Lines(a) + Lines(b)
    decreases |a|
  {
    hide Lines;
    var w, rest := TakeLine(a);
    if a == w {
      FirstLine(w, b);
    } else {
      FirstLine(w, rest);
      FirstLine(w, rest + "\n" + b);
      assert a + "\n" + b == w + "\n" + (rest + "\n" + b);
      LinesConcat(rest, b);
    }
  }

  lemma {:induction false} JoinLines(s: string)
    ensures Join(Lines(s)) == s
    decreases |s|
  {
    hide Lines, Join;
    var w, rest := TakeLine(s);
    FirstLine(w, rest);
    if s == w {
      JoinOne(s);
    } else {
      JoinLines(rest);
      JoinMore(w, Lines(rest));
    }
  }

  lemma JoinOne(w: string)
    ensures Join([w]) == w
  {}

  lemma JoinMore(w: string, ls: seq<string>)
    requires ls != []
    ensures Join([w] + ls) == w + "\n" + Join(ls)
  {
    assert ([w] + ls)[1..] == ls;
  }

  // Some line starts with the prefix.
  ghost predicate HasLine(s: string, prefix: string) { exists k :: 0 <= k < |Lines(s)| && Starts(Lines(s)[k], prefix) }

  // --- Taking a body apart: section 5.1.1 of RFC 2046 --------------------------------------

  function Delimiter(boundary: string): string { "--" + boundary }

  // What comes before the first delimiter is not part of the message.
  function Parts(ls: seq<string>, boundary: string): seq<string> {
    if ls == [] then []
    else if Starts(ls[0], Delimiter(boundary)) then
      if Starts(ls[0], Delimiter(boundary) + "--") then [] else Section(ls[1..], [], boundary)
    else Parts(ls[1..], boundary)
  }

  // A part goes on up to the line break before the next delimiter; nothing follows the
  // closing delimiter.
  function Section(ls: seq<string>, part: seq<string>, boundary: string): seq<string>
    decreases |ls|
  {
    if ls == [] then [if part == [] then "" else Join(part)]
    else if Starts(ls[0], Delimiter(boundary)) then
      [if part == [] then "" else Join(part)] +
      if Starts(ls[0], Delimiter(boundary) + "--") then [] else Section(ls[1..], [], boundary)
    else Section(ls[1..], part + [ls[0]], boundary)
  }

  function Split(body: string, boundary: string): seq<string> { Parts(Lines(body), boundary) }

  // --- Putting it together -----------------------------------------------------------------

  function FirstNote(): string { "This is a MIME-formatted " + "message.  If you see this" + " text it means that your" }

  function SecondNote(): string { "E-mail software does not " + "support MIME-formatted" + " messages." }

  function MimeMessage(): string { FirstNote() + "\n" + (SecondNote() + "\n" + "") }

  function Tail(parts: seq<string>, boundary: string): string {
    if parts == [] then "\n--" + boundary + "--\n" else "\n--" + boundary + "\n" + parts[0] + Tail(parts[1..], boundary)
  }

  function Body(parts: seq<string>, boundary: string): string { MimeMessage() + Tail(parts, boundary) }

  // The lines after the part before.
  function TailLines(parts: seq<string>, boundary: string): seq<string> {
    if parts == [] then ["--" + boundary + "--", ""]
    else ["--" + boundary] + Lines(parts[0]) + TailLines(parts[1..], boundary)
  }

  lemma {:induction false} TailHasLines(before: string, parts: seq<string>, boundary: string)
    requires '\n' !in boundary
    ensures Lines(before + Tail(parts, boundary)) == Lines(before) + TailLines(parts, boundary)
    decreases |parts|
  {
    hide Lines, Tail;
    TailStep(parts, boundary);
    if parts == [] {
      var d := "--" + boundary + "--";
      LinesConcat(before, d + "\n" + "");
      FirstLine(d, "");
      FirstLine("", "");
      assert before + ("\n" + (d + "\n" + "")) == before + "\n" + (d + "\n" + "");
    } else {
      var d := "--" + boundary;
      var rest := parts[0] + Tail(parts[1..], boundary);
      LinesConcat(before, d + "\n" + rest);
      FirstLine(d, rest);
      TailHasLines(parts[0], parts[1..], boundary);
      assert before + ("\n" + (d + "\n" + rest)) == before + "\n" + (d + "\n" + rest);
    }
  }

  lemma TailStep(parts: seq<string>, boundary: string)
    ensures Tail(parts, boundary) == "\n" +
      if parts == [] then "--" + boundary + "--" + "\n" + ""
      else "--" + boundary + "\n" + (parts[0] + Tail(parts[1..], boundary))
  {
  }

  lemma {:induction false} SkipPreamble(ls: seq<string>, rest: seq<string>, boundary: string)
    requires forall k :: 0 <= k < |ls| ==> !Starts(ls[k], Delimiter(boundary))
    ensures Parts(ls + rest, boundary) == Parts(rest, boundary)
  {
    if ls == [] {
      assert ls + rest == rest;
    } else {
      assert (ls + rest)[1..] == ls[1..] + rest;
      SkipPreamble(ls[1..], rest, boundary);
    }
  }

  lemma {:induction false} TakeSection(ls: seq<string>, part: seq<string>, rest: seq<string>, boundary: string)
    requires forall k :: 0 <= k < |ls| ==> !Starts(ls[k], Delimiter(boundary))
    ensures Section(ls + rest, part, boundary) == Section(rest, part + ls, boundary)
    decreases |ls|
  {
    if ls == [] {
      assert ls + rest == rest && part + ls == part;
    } else {
      assert (ls + rest)[1..] == ls[1..] + rest;
      assert part + [ls[0]] + ls[1..] == part + ls;
      TakeSection(ls[1..], part + [ls[0]], rest, boundary);
    }
  }

  ghost predicate Clean(parts: seq<string>, boundary: string) {
    forall i :: 0 <= i < |parts| ==> !HasLine(parts[i], Delimiter(boundary))
  }

  lemma DelimiterLines(boundary: string)
    ensures Starts("--" + boundary, Delimiter(boundary)) && !Starts("--" + boundary, Delimiter(boundary) + "--")
    ensures Starts("--" + boundary + "--", Delimiter(boundary)) && Starts("--" + boundary + "--", Delimiter(boundary) + "--")
  {
    assert ("--" + boundary + "--")[..|Delimiter(boundary)|] == "--" + boundary;
  }

  lemma {:induction false} SplitTail(parts: seq<string>, boundary: string)
    requires Clean(parts, boundary) && '\n' !in boundary
    ensures Parts(TailLines(parts, boundary), boundary) == parts
  {
    hide Lines, Starts;
    DelimiterLines(boundary);
    if parts != [] {
      var ls, rest := Lines(parts[0]), TailLines(parts[1..], boundary);
      assert TailLines(parts, boundary)[1..] == ls + rest;
      TakeSection(ls, [], rest, boundary);
      assert [] + ls == ls;
      JoinLines(parts[0]);
      SplitTail(parts[1..], boundary);
      EndSection(rest, ls, boundary);
    }
  }

  // At a delimiter, the part ends and the rest goes on as after the preamble.
  lemma EndSection(ls: seq<string>, part: seq<string>, boundary: string)
    requires ls != [] && part != [] && Starts(ls[0], Delimiter(boundary))
    ensures Section(ls, part, boundary) == [Join(part)] + Parts(ls, boundary)
  {
  }

  // --- When it comes apart as it was put together ---

  lemma {:induction false} JoinPrefix(ls: seq<string>, k: nat)
    requires 0 < k < |ls|
    ensures |Join(ls[..k])| < |Join(ls)|
    decreases |ls|
  {
    if k > 1 {
      assert ls[..k][1..] == ls[1..][..k - 1];
      JoinPrefix(ls[1..], k - 1);
    }
  }

  // The first line that starts with the prefix.
  lemma {:induction false} FirstWith(ls: seq<string>, prefix: string) returns (k: nat)
    requires exists j :: 0 <= j < |ls| && Starts(ls[j], prefix)
    ensures k < |ls| && Starts(ls[k], prefix) && forall j :: 0 <= j < k ==> !Starts(ls[j], prefix)
  {
    k := 0;
    while !Starts(ls[k], prefix)
      invariant k < |ls| && forall j :: 0 <= j < k ==> !Starts(ls[j], prefix)
      decreases |ls| - k
    {
      k := k + 1;
    }
  }

  // A part with such a line is cut short.
  lemma CutShort(part: string, rest: seq<string>, boundary: string)
    requires HasLine(part, Delimiter(boundary)) && rest != []
    ensures Section(Lines(part) + rest, [], boundary) != []
    ensures |Section(Lines(part) + rest, [], boundary)[0]| < |part|
  {
    var ls := Lines(part);
    var k := FirstWith(ls, Delimiter(boundary));
    assert ls + rest == ls[..k] + (ls[k..] + rest);
    TakeSection(ls[..k], [], ls[k..] + rest, boundary);
    assert [] + ls[..k] == ls[..k];
    JoinLines(part);
    if k > 0 {
      JoinPrefix(ls, k);
    } else {
      assert |ls[0]| >= 2;
      assert part == "" ==> Lines(part) == [""];
    }
  }

  lemma {:induction false} SplitTailFails(parts: seq<string>, boundary: string)
    requires !Clean(parts, boundary) && '\n' !in boundary
    ensures Parts(TailLines(parts, boundary), boundary) != parts
  {
    DelimiterLines(boundary);
    var ls, rest := Lines(parts[0]), TailLines(parts[1..], boundary);
    assert TailLines(parts, boundary)[1..] == ls + rest;
    if HasLine(parts[0], Delimiter(boundary)) {
      CutShort(parts[0], rest, boundary);
    } else {
      TakeSection(ls, [], rest, boundary);
      assert [] + ls == ls;
      EndSection(rest, ls, boundary);
      JoinLines(parts[0]);
      assert exists i :: 0 <= i < |parts[1..]| && HasLine(parts[1..][i], Delimiter(boundary)) by {
        var i :| 0 <= i < |parts| && HasLine(parts[i], Delimiter(boundary));
        assert parts[1..][i - 1] == parts[i];
      }
      SplitTailFails(parts[1..], boundary);
    }
  }

  lemma PreambleLines(boundary: string)
    ensures forall k :: 0 <= k < |Lines(MimeMessage())| ==> !Starts(Lines(MimeMessage())[k], Delimiter(boundary))
  {
    hide FirstNote, SecondNote, Lines;
    FirstNoteLine();
    SecondNoteLine();
    FirstLine(FirstNote(), SecondNote() + "\n" + "");
    FirstLine(SecondNote(), "");
    FirstLine("", "");
    assert Delimiter(boundary)[0] == '-';
  }

  lemma FirstNoteLine()
    ensures '\n' !in FirstNote() && FirstNote()[0] == 'T'
  {
  }

  lemma SecondNoteLine()
    ensures '\n' !in SecondNote() && SecondNote()[0] == 'E'
  {
  }

  /** The body gives back exactly its parts, in their order, if and only if no part has a line
      that starts with the delimiter. */
  lemma BodySplits(parts: seq<string>, boundary: string)
    requires '\n' !in boundary
    ensures Split(Body(parts, boundary), boundary) == parts <==> Clean(parts, boundary)
  {
    TailHasLines(MimeMessage(), parts, boundary);
    PreambleLines(boundary);
    SkipPreamble(Lines(MimeMessage()), TailLines(parts, boundary), boundary);
    if Clean(parts, boundary) {
      SplitTail(parts, boundary);
    } else {
      SplitTailFails(parts, boundary);
    }
  }

  // --- Searching for a boundary --------------------------------------------------------------

  const BUFFER_SIZE := 1000

  function Lower(s: string): string {
    seq(|s|, i requires 0 <= i < |s| => if 'A' <= s[i] <= 'Z' then s[i] - 'A' + 'a' else s[i])
  }

  // What one fgets reads: up to a line break, or a buffer full without the closing null.
  function ChunkEnd(s: string): (n: nat)
    requires s != ""
    ensures 0 < n <= |s| && n < BUFFER_SIZE
  {
    var n := LineEnd(s);
    var m := if n < |s| then n + 1 else n;
    if m >= BUFFER_SIZE then BUFFER_SIZE - 1 else m
  }

  function Chunks(s: string): seq<string>
    decreases |s|
  {
    if s == "" then [] else [s[..ChunkEnd(s)]] + Chunks(s[ChunkEnd(s)..])
  }

  predicate Matches(chunk: string, boundary: string) { Starts(Lower(chunk), Lower(Delimiter(boundary))) }

  ghost predicate Found(s: string, boundary: string) {
    exists k :: 0 <= k < |Chunks(s)| && Matches(Chunks(s)[k], boundary)
  }

  lemma FoundStep(s: string, boundary: string)
    requires s != ""
    ensures Found(s, boundary) <==> Matches(s[..ChunkEnd(s)], boundary) || Found(s[ChunkEnd(s)..], boundary)
  {
    var c, rest := Chunks(s), Chunks(s[ChunkEnd(s)..]);
    assert c == [s[..ChunkEnd(s)]] + rest;
    assert Matches(c[0], boundary) ==> Found(s, boundary);
    forall k | 0 <= k < |rest| && Matches(rest[k], boundary) ensures Found(s, boundary) {
      assert c[k + 1] == rest[k];
    }
  }

  method SearchBoundary(file: string, boundary: string) returns (found: bool)
    ensures found <==> Found(file, boundary)
  {
    hide Found, Chunks, Lower;
    NothingFound(boundary);
    var pos := 0;
    assert file[0..] == file;
    while pos < |file|
      invariant pos <= |file| && (Found(file, boundary) <==> Found(file[pos..], boundary))
    {
      FoundStep(file[pos..], boundary);
      var buffer := file[pos..][..ChunkEnd(file[pos..])];
      assert file[pos..][|buffer|..] == file[pos + |buffer|..];
      pos := pos + |buffer|;
      MatchesTwoDashes(buffer, boundary);
      if |buffer| >= 2 && buffer[0] == '-' && buffer[1] == '-' && Starts(Lower(buffer[2..]), Lower(boundary)) {
        return true;
      }
    }
    found := false;
  }

  lemma NothingFound(boundary: string)
    ensures !Found("", boundary)
  {
  }

  lemma MatchesTwoDashes(c: string, boundary: string)
    ensures Matches(c, boundary) <==>
      |c| >= 2 && c[0] == '-' && c[1] == '-' && Starts(Lower(c[2..]), Lower(boundary))
  {
    var d := Delimiter(boundary);
    StartsMeans(Lower(c), Lower(d));
    forall i | 0 <= i < |d| ensures Lower(d)[i] == if i < 2 then '-' else Lower(boundary)[i - 2] {
    }
    if |c| >= 2 {
      StartsMeans(Lower(c[2..]), Lower(boundary));
      forall i | 0 <= i < |c| ensures Lower(c)[i] == if i < 2 then Lower(c[..2])[i] else Lower(c[2..])[i - 2] {
      }
      assert Lower(c)[0] == '-' <==> c[0] == '-';
      assert Lower(c)[1] == '-' <==> c[1] == '-';
      if Starts(Lower(c), Lower(d)) {
        forall i | 0 <= i < |boundary| ensures Lower(c[2..])[i] == Lower(boundary)[i] {
          assert Lower(c)[i + 2] == Lower(d)[i + 2];
        }
      }
    }
  }

  // --- The search misses no line -------------------------------------------------------------

  lemma {:induction false} LineEndLater(s: string, m: nat)
    requires m <= LineEnd(s)
    ensures LineEnd(s[m..]) == LineEnd(s) - m
  {
    if m > 0 {
      LineEndLater(s[1..], m - 1);
      assert s[1..][m - 1..] == s[m..];
    }
  }

  // The lines after a chunk.
  lemma LinesAfterChunk(s: string)
    requires s != ""
    ensures var n, m := LineEnd(s), ChunkEnd(s);
      n < |s| ==>
        if m > n then Lines(s[m..]) == Lines(s)[1..]
        else |Lines(s[m..])| == |Lines(s)| && Lines(s[m..])[1..] == Lines(s)[1..]
  {
    hide Lines, LineEnd;
    var n, m := LineEnd(s), ChunkEnd(s);
    LinesStep(s);
    LinesStep(s[m..]);
    if n < |s| && m <= n {
      LineEndLater(s, m);
      assert s[m..][n - m + 1..] == s[n + 1..];
    }
  }

  lemma MatchesPrefix(c: string, line: string, boundary: string)
    requires Starts(line, Delimiter(boundary)) && |c| >= |Delimiter(boundary)|
    requires forall i :: 0 <= i < |Delimiter(boundary)| ==> c[i] == line[i]
    ensures Matches(c, boundary)
  {
    StartsMeans(line, Delimiter(boundary));
    StartsMeans(Lower(c), Lower(Delimiter(boundary)));
  }

  lemma {:induction false} FindsLine(s: string, boundary: string, k: nat)
    requires |Delimiter(boundary)| < BUFFER_SIZE && k < |Lines(s)| && Starts(Lines(s)[k], Delimiter(boundary))
    ensures Found(s, boundary)
    decreases |s|
  {
    hide Found, Chunks, Matches, Lines, LineEnd;
    LinesStep(s);
    StartsMeans(Lines(s)[k], Delimiter(boundary));
    var n := LineEnd(s);
    assert s != "";
    var m := ChunkEnd(s);
    FoundStep(s, boundary);
    if k == 0 {
      MatchesPrefix(s[..m], Lines(s)[0], boundary);
    } else {
      LinesAfterChunk(s);
      if m > n {
        FindsLine(s[m..], boundary, k - 1);
      } else {
        assert Lines(s[m..])[k] == Lines(s[m..])[1..][k - 1] && Lines(s)[k] == Lines(s)[1..][k - 1];
        FindsLine(s[m..], boundary, k);
      }
    }
  }

  lemma {:induction false} ChunksAreSmall(s: string)
    ensures forall k :: 0 <= k < |Chunks(s)| ==> |Chunks(s)[k]| < BUFFER_SIZE
    decreases |s|
  {
    if s != "" {
      ChunksAreSmall(s[ChunkEnd(s)..]);
    }
  }

  /** The search finds every line that starts with the delimiter, in every file, if and only if
      the delimiter fits into the buffer that the file is read through. */
  lemma SearchIsComplete(boundary: string)
    requires '\n' !in boundary
    ensures (forall s :: HasLine(s, Delimiter(boundary)) ==> Found(s, boundary)) <==> |boundary| + 2 < BUFFER_SIZE
  {
    if |boundary| + 2 < BUFFER_SIZE {
      forall s | HasLine(s, Delimiter(boundary)) ensures Found(s, boundary) {
        var k :| 0 <= k < |Lines(s)| && Starts(Lines(s)[k], Delimiter(boundary));
        FindsLine(s, boundary, k);
      }
    } else {
      var s := Delimiter(boundary);
      FirstLine(s, "");
      assert Starts(Lines(s)[0], s);
      assert HasLine(s, Delimiter(boundary));
      ChunksAreSmall(s);
      assert !Found(s, boundary);
    }
  }

  // --- Choosing a boundary -------------------------------------------------------------------

  datatype Attachment = Attachment(encoding: string, content: string)

  function BoundaryName(host: string, time: nat, n: nat): string {
    "=_" + host + "-" + Decimal(time) + "-" + Padded(n)
  }

  // Only what is not in base64 is searched.
  ghost predicate Rejected(text: string, attachments: seq<Attachment>, boundary: string) {
    Found(text, boundary) ||
    exists i :: 0 <= i < |attachments| && attachments[i].encoding != "BASE64" && Found(attachments[i].content, boundary)
  }

  // What the boundaries that some file rejects start with.
  ghost function TakenIn(s: string): set<string> {
    set k, n | 0 <= k < |Chunks(s)| && 0 <= n <= |Chunks(s)[k]| :: Lower(Chunks(s)[k])[..n]
  }

  ghost function Taken(text: string, attachments: seq<Attachment>): set<string> {
    TakenIn(text) + set i, x | 0 <= i < |attachments| && x in TakenIn(attachments[i].content) :: x
  }

  lemma FoundIsTaken(s: string, boundary: string)
    requires Found(s, boundary)
    ensures Lower(Delimiter(boundary)) in TakenIn(s)
  {
    var k :| 0 <= k < |Chunks(s)| && Matches(Chunks(s)[k], boundary);
    var n := |Delimiter(boundary)|;
    assert Lower(Chunks(s)[k])[..n] == Lower(Delimiter(boundary));
  }

  lemma RejectedIsTaken(text: string, attachments: seq<Attachment>, boundary: string)
    requires Rejected(text, attachments, boundary)
    ensures Lower(Delimiter(boundary)) in Taken(text, attachments)
  {
    if Found(text, boundary) {
      FoundIsTaken(text, boundary);
    } else {
      var i :| 0 <= i < |attachments| && attachments[i].encoding != "BASE64" && Found(attachments[i].content, boundary);
      FoundIsTaken(attachments[i].content, boundary);
    }
  }

  lemma LowerConcat(a: string, b: string)
    ensures Lower(a + b) == Lower(a) + Lower(b)
  {
  }

  lemma LowerDigits(s: string)
    requires AllDigits(s)
    ensures Lower(s) == s
  {
  }

  lemma NameInLower(host: string, time: nat, n: nat)
    ensures Lower(Delimiter(BoundaryName(host, time, n)))
      == Lower("--=_" + host + "-") + (Decimal(time) + ("-" + Padded(n)))
  {
    hide Lower, Decimal, Padded;
    DecimalValue(time);
    PaddedValue(n);
    var end := "-" + Padded(n);
    assert Delimiter(BoundaryName(host, time, n)) == "--=_" + host + "-" + (Decimal(time) + end);
    LowerConcat("--=_" + host + "-", Decimal(time) + end);
    LowerConcat(Decimal(time), end);
    LowerDigits(Decimal(time));
    LowerDigits(Padded(n));
    LowerConcat("-", Padded(n));
    LowerDash();
  }

  lemma LowerDash()
    ensures Lower("-") == "-"
  {
  }

  /** Two tries have different boundaries, whatever the clock says, even without regard to case. */
  lemma NamesDiffer(host: string, t: nat, u: nat, m: nat, n: nat)
    requires Lower(Delimiter(BoundaryName(host, t, m))) == Lower(Delimiter(BoundaryName(host, u, n)))
    ensures m == n
  {
    hide Lower, Delimiter, BoundaryName, Decimal, Padded, DigitRun, Value;
    NameInLower(host, t, m);
    NameInLower(host, u, n);
    var p := Lower("--=_" + host + "-");
    var a, b := Decimal(t) + ("-" + Padded(m)), Decimal(u) + ("-" + Padded(n));
    assert (p + a)[|p|..] == a && (p + b)[|p|..] == b;
    DecimalValue(t);
    DecimalValue(u);
    DigitRunEnds(Decimal(t), "-" + Padded(m));
    DigitRunEnds(Decimal(u), "-" + Padded(n));
    assert a[|Decimal(t)| + 1..] == Padded(m) && b[|Decimal(u)| + 1..] == Padded(n);
    PaddedValue(m);
    PaddedValue(n);
  }

  lemma TriesAreBounded(host: string, clock: nat -> nat, n: nat, text: string, attachments: seq<Attachment>)
    requires forall j :: 0 <= j < n ==> Rejected(text, attachments, BoundaryName(host, clock(j), j))
    ensures n <= |Taken(text, attachments)|
  {
    var f := (j: nat) => Lower(Delimiter(BoundaryName(host, clock(j), j)));
    forall j | 0 <= j < n ensures f(j) in Taken(text, attachments) {
      RejectedIsTaken(text, attachments, BoundaryName(host, clock(j), j));
    }
    forall i, j | 0 <= i < j < n ensures f(i) != f(j) {
      if f(i) == f(j) {
        NamesDiffer(host, clock(i), clock(j), i, j);
      }
    }
    Pigeonhole(f, n, Taken(text, attachments));
  }

  /** The loop ends, whatever the clock says, with the first boundary that neither the text nor
      an attachment rejects. */
  method ChooseBoundary(host: string, clock: nat -> nat, text: string, attachments: seq<Attachment>)
    returns (boundary: string, ghost tries: nat)
    ensures boundary == BoundaryName(host, clock(tries), tries) && !Rejected(text, attachments, boundary)
    ensures forall j :: 0 <= j < tries ==> Rejected(text, attachments, BoundaryName(host, clock(j), j))
    ensures tries <= |Taken(text, attachments)|
  {
    hide Found, Taken, BoundaryName;
    boundary := "";
    var cnt := 0;
    while true
      invariant forall j :: 0 <= j < cnt ==> Rejected(text, attachments, BoundaryName(host, clock(j), j))
      invariant cnt <= |Taken(text, attachments)|
      decreases |Taken(text, attachments)| - cnt
    {
      boundary := BoundaryName(host, clock(cnt), cnt);
      var rejected := Search(text, attachments, boundary);
      if !rejected {
        break;
      }
      TriesAreBounded(host, clock, cnt + 1, text, attachments);
      cnt := cnt + 1;
    }
    tries := cnt;
  }

  // One try.
  method Search(text: string, attachments: seq<Attachment>, boundary: string) returns (rejected: bool)
    ensures rejected <==> Rejected(text, attachments, boundary)
  {
    hide Found;
    var found := SearchBoundary(text, boundary);
    if found {
      return true;
    }
    var c := 0;
    while c < |attachments|
      invariant c <= |attachments|
      invariant forall i :: 0 <= i < c && attachments[i].encoding != "BASE64" ==> !Found(attachments[i].content, boundary)
    {
      if attachments[c].encoding != "BASE64" {
        found := SearchBoundary(attachments[c].content, boundary);
        if found {
          break;
        }
      }
      c := c + 1;
    }
    rejected := c < |attachments|;
  }

  // --- The text part -------------------------------------------------------------------------

  // The encoder goes by the first letter of the name.
  function EncodingNamed(name: string): Encoding {
    if name == "" then Identity
    else if name[0] == 'q' || name[0] == 'Q' then QuotedPrintable
    else if name[0] == 'b' || name[0] == 'B' then Base64
    else Identity
  }

  function ContentType(charset: string): string {
    "Content-Type: text/plain; " + "format=flowed; " + "delsp=yes; charset=\"" + charset + "\""
  }

  function TransferLine(encoding: string): string { "Content-Transfer-" + "Encoding: " + encoding }

  const DISPOSITION := "Content-" + "Disposition: inline"

  function TextHeader(charset: string, encoding: string): string {
    ContentType(charset) + "\n" + (DISPOSITION + "\n" + (TransferLine(encoding) + "\n" + ""))
  }

  function TextPart(charset: string, encoding: string, text: string): string {
    TextHeader(charset, encoding) + "\n" + Encoded(EncodingNamed(encoding), text)
  }

  // --- Reading the part: section 6 of RFC 2045 ---

  const FIELD := "Content-Transfer-" + "Encoding: "

  // What the header says the encoding is, and what comes after the empty line.
  datatype Entity = Entity(encoding: string, body: string)

  function ReadEntity(s: string, encoding: string): Entity
    decreases |s|
  {
    var n := LineEnd(s);
    if n == |s| then Entity(encoding, "")
    else if n == 0 then Entity(encoding, s[1..])
    else ReadEntity(s[n + 1..], if Starts(s[..n], FIELD) then s[|FIELD|..n] else encoding)
  }

  // Without a field that names it, the encoding is 7bit.
  function ReadPart(s: string): string { Decoded(ReadEntity(s, "7bit").encoding, ReadEntity(s, "7bit").body) }

  lemma ReadLine(w: string, rest: string, encoding: string)
    requires '\n' !in w && w != ""
    ensures ReadEntity(w + "\n" + rest, encoding) == ReadEntity(rest, if Starts(w, FIELD) then w[|FIELD|..] else encoding)
  {
    var s := w + "\n" + rest;
    LineEnds(w, rest);
    assert s[..|w|] == w && s[|w| + 1..] == rest;
    assert Starts(w, FIELD) ==> s[|FIELD|..|w|] == w[|FIELD|..];
  }

  lemma ReadEmptyLine(body: string, encoding: string)
    ensures ReadEntity("" + "\n" + body, encoding) == Entity(encoding, body)
  {
    LineEnds("", body);
    assert "" + "\n" + body == "\n" + body && ("\n" + body)[1..] == body;
  }

  lemma OtherField(charset: string)
    ensures !Starts(ContentType(charset), FIELD) && !Starts(DISPOSITION, FIELD)
  {
    StartsMeans(ContentType(charset), FIELD);
    StartsMeans(DISPOSITION, FIELD);
    assert FIELD[9] == 'r' && ContentType(charset)[9] == 'y' && DISPOSITION[8] == 'D' && FIELD[8] == 'T';
  }

  lemma NamesField(encoding: string)
    ensures Starts(TransferLine(encoding), FIELD) && TransferLine(encoding)[|FIELD|..] == encoding
  {
    assert TransferLine(encoding) == FIELD + encoding;
  }

  // The part names its encoding, and the body is what follows the header.
  lemma EntityBack(charset: string, encoding: string, body: string)
    requires '\n' !in charset && '\n' !in encoding
    ensures ReadEntity(TextHeader(charset, encoding) + "\n" + body, "7bit") == Entity(encoding, body)
  {
    hide ReadEntity, ContentType, TransferLine;
    var a, b, c := ContentType(charset), DISPOSITION, TransferLine(encoding);
    TypeLine(charset);
    RestLines(encoding);
    OtherField(charset);
    NamesField(encoding);
    var end := "" + "\n" + body;
    assert TextHeader(charset, encoding) + "\n" + body == a + "\n" + (b + "\n" + (c + "\n" + end));
    ReadLine(a, b + "\n" + (c + "\n" + end), "7bit");
    ReadLine(b, c + "\n" + end, "7bit");
    ReadLine(c, end, "7bit");
    ReadEmptyLine(body, encoding);
  }

  // What a reader gets: quoted-printable loses spaces at the very end.
  function Received(encoding: string, text: string): string {
    if encoding == "quoted-printable" then F.TrimEnd(text) else text
  }

  lemma BodyBack(encoding: string, text: string)
    requires Bytes(text) && Detected(encoding)
    ensures Decoded(encoding, Encoded(EncodingNamed(encoding), text)) == Received(encoding, text)
  {
    hide Qp, QpRead, Base64Text, Base64Read;
    QpReads(text);
    Base64Reads(text);
  }

  /** Whatever encoding is detected, a reader that goes by the header of the text part gets the
      text. */
  lemma TextPartReads(charset: string, encoding: string, text: string)
    requires '\n' !in charset && Bytes(text) && Detected(encoding)
    ensures ReadPart(TextPart(charset, encoding, text)) == Received(encoding, text)
  {
    hide ReadEntity, TextHeader, Decoded, Encoded, Received, EncodingNamed;
    NoBreakInName(encoding);
    EntityBack(charset, encoding, Encoded(EncodingNamed(encoding), text));
    BodyBack(encoding, text);
  }

  lemma NoBreakInName(encoding: string)
    requires Detected(encoding)
    ensures '\n' !in encoding
  {}

  const MARK := "--=_"

  lemma NoLineConcat(a: string, b: string, prefix: string)
    ensures HasLine(a + "\n" + b, prefix) <==> HasLine(a, prefix) || HasLine(b, prefix)
  {
    hide Lines;
    LinesConcat(a, b);
    var la, lb := Lines(a), Lines(b);
    forall k | 0 <= k < |la| && Starts(la[k], prefix) ensures HasLine(a + "\n" + b, prefix) {
      assert (la + lb)[k] == la[k];
    }
    forall k | 0 <= k < |lb| && Starts(lb[k], prefix) ensures HasLine(a + "\n" + b, prefix) {
      assert (la + lb)[|la| + k] == lb[k];
    }
    forall k | 0 <= k < |la + lb| && Starts((la + lb)[k], prefix) ensures HasLine(a, prefix) || HasLine(b, prefix) {
      assert (la + lb)[k] == if k < |la| then la[k] else lb[k - |la|];
    }
  }

  // A line that starts with some other character.
  lemma OtherLine(w: string, prefix: string)
    requires '\n' !in w && prefix != "" && (w == "" || w[0] != prefix[0])
    ensures !HasLine(w, prefix)
  {
    FirstLine(w, "");
    StartsMeans(w, prefix);
  }

  lemma HeaderHasNoLine(charset: string, encoding: string, prefix: string)
    requires '\n' !in charset && '\n' !in encoding && prefix != "" && prefix[0] == '-'
    ensures !HasLine(TextHeader(charset, encoding), prefix)
  {
    hide HasLine, ContentType, TransferLine;
    var a, b, c := ContentType(charset), DISPOSITION, TransferLine(encoding);
    TypeLine(charset);
    RestLines(encoding);
    OtherLine(a, prefix);
    OtherLine(b, prefix);
    OtherLine(c, prefix);
    OtherLine("", prefix);
    NoLineConcat(c, "", prefix);
    NoLineConcat(b, c + "\n" + "", prefix);
    NoLineConcat(a, b + "\n" + (c + "\n" + ""), prefix);
  }

  lemma TypeLine(charset: string)
    requires '\n' !in charset
    ensures '\n' !in ContentType(charset) && ContentType(charset) != "" && ContentType(charset)[0] == 'C'
  {
  }

  lemma RestLines(encoding: string)
    requires '\n' !in encoding
    ensures '\n' !in DISPOSITION && DISPOSITION[0] == 'C'
    ensures '\n' !in TransferLine(encoding) && TransferLine(encoding) != "" && TransferLine(encoding)[0] == 'C'
  {
  }

  // Lines are pieces of the text.
  lemma {:induction false} LinePlace(s: string, k: nat) returns (i: nat)
    requires k < |Lines(s)|
    ensures i + |Lines(s)[k]| <= |s| && s[i..i + |Lines(s)[k]|] == Lines(s)[k]
    decreases |s|
  {
    hide Lines, LineEnd;
    LinesStep(s);
    var n := LineEnd(s);
    if k == 0 {
      i := 0;
    } else {
      var j := LinePlace(s[n + 1..], k - 1);
      i := n + 1 + j;
      assert s[n + 1..][j..j + |Lines(s)[k]|] == s[i..i + |Lines(s)[k]|];
    }
  }

  /** Encoding makes no boundary line: one in the encoded text is one in the text. */
  lemma EncodingAddsNoLine(e: Encoding, text: string, boundary: string)
    requires Starts(Delimiter(boundary), MARK) && HasLine(Encoded(e, text), Delimiter(boundary))
    ensures e == Identity && HasLine(text, Delimiter(boundary))
  {
    hide Qp, Base64Text, Lines;
    var t := Encoded(e, text);
    var k :| 0 <= k < |Lines(t)| && Starts(Lines(t)[k], Delimiter(boundary));
    var line := Lines(t)[k];
    var i := LinePlace(t, k);
    StartsMeans(line, Delimiter(boundary));
    StartsMeans(Delimiter(boundary), MARK);
    assert line[0] == '-' && line[2] == '=' && line[3] == '_';
    assert t[i] == line[0] && t[i + 2] == line[2] && t[i + 3] == line[3];
    QpHasNoMark(text, false, 0);
    Base64HasNoDash(text);
  }

  /** An attachment in base64 needs no search, if no line of its headers starts with a dash. */
  lemma Base64PartIsClean(header: string, data: string, boundary: string)
    requires !HasLine(header, "-") && Starts(Delimiter(boundary), MARK)
    ensures !HasLine(header + "\n" + Base64Text(data), Delimiter(boundary))
  {
    hide Lines;
    NoLineConcat(header, Base64Text(data), Delimiter(boundary));
    if HasLine(Base64Text(data), Delimiter(boundary)) {
      EncodingAddsNoLine(Base64, data, boundary);
    }
    if HasLine(header, Delimiter(boundary)) {
      DashLine(header, Delimiter(boundary));
    }
  }

  lemma DashLine(s: string, prefix: string)
    requires HasLine(s, prefix) && Starts(prefix, "-")
    ensures HasLine(s, "-")
  {
    hide Lines;
    var k :| 0 <= k < |Lines(s)| && Starts(Lines(s)[k], prefix);
    StartsMeans(prefix, "-");
    StartsMeans(Lines(s)[k], prefix);
    StartsMeans(Lines(s)[k], "-");
  }

  // --- Writing it all ------------------------------------------------------------------------

  class Sink {
    var data: string

    constructor ()
      ensures data == ""
    {
      data := "";
    }

    method Write(s: string)
      modifies this
      ensures data == old(data) + s
    {
      data := data + s;
    }
  }

  /** The file is copied through a buffer, after its delimiter. */
  method CopyMultipart(f: string, sink: Sink, boundary: string, bufsiz: nat)
    requires bufsiz > 0
    modifies sink
    ensures sink.data == old(sink.data) + ("\n--" + boundary + "\n" + f)
  {
    var i, pos := 0, 0;
    var buffer := new char[bufsiz](_ => ' ');
    sink.Write("\n--" + boundary + "\n");
    ghost var start := sink.data;
    while true
      invariant i <= buffer.Length && pos <= |f| && sink.data + buffer[..i] == start + f[..pos]
      decreases |f| - pos
    {
      var eof := pos == |f|;
      if i >= buffer.Length || (i > 0 && eof) {
        sink.Write(buffer[..i]);
        i := 0;
        assert sink.data + buffer[..0] == sink.data;
      }
      if eof {
        break;
      }
      ghost var was := sink.data + buffer[..i];
      buffer[i] := f[pos];
      assert sink.data + buffer[..i + 1] == was + [f[pos]];
      assert f[..pos + 1] == f[..pos] + [f[pos]];
      i := i + 1;
      pos := pos + 1;
    }
    assert f[..pos] == f && sink.data + buffer[..0] == sink.data;
    assert start == old(sink.data) + ("\n--" + boundary + "\n");
  }

  function Contents(attachments: seq<Attachment>): seq<string> {
    seq(|attachments|, i requires 0 <= i < |attachments| => attachments[i].content)
  }

  // What the caller must see to: attachments in base64 have no line that looks like a
  // delimiter.
  ghost predicate Base64Clean(attachments: seq<Attachment>, boundary: string) {
    forall i :: 0 <= i < |attachments| && attachments[i].encoding == "BASE64" ==>
      !HasLine(attachments[i].content, Delimiter(boundary))
  }

  // No part of the message has a line that starts with the boundary chosen.
  lemma ChosenIsClean(charset: string, encoding: string, text: string, attachments: seq<Attachment>, boundary: string)
    requires '\n' !in charset && '\n' !in encoding && '\n' !in boundary && Starts(Delimiter(boundary), MARK)
    requires !Rejected(text, attachments, boundary) && Base64Clean(attachments, boundary)
    requires |boundary| + 2 < BUFFER_SIZE
    ensures Clean([TextPart(charset, encoding, text)] + Contents(attachments), boundary)
  {
    hide Encoded, TextHeader, Found, HasLine;
    SearchIsComplete(boundary);
    StartsMeans(Delimiter(boundary), MARK);
    var d, e := Delimiter(boundary), EncodingNamed(encoding);
    HeaderHasNoLine(charset, encoding, d);
    if HasLine(Encoded(e, text), d) {
      EncodingAddsNoLine(e, text, boundary);
    }
    NoLineConcat(TextHeader(charset, encoding), Encoded(e, text), d);
    var parts := [TextPart(charset, encoding, text)] + Contents(attachments);
    forall i | 0 <= i < |parts| ensures !HasLine(parts[i], d) {
      if i > 0 {
        assert parts[i] == attachments[i - 1].content;
      }
    }
  }

  lemma {:induction false} TailIsFront(parts: seq<string>, boundary: string)
    ensures Tail(parts, boundary) == Front(parts, boundary) + ("\n--" + boundary + "--\n")
    decreases |parts|
  {
    if parts != [] {
      TailIsFront(parts[1..], boundary);
    }
  }

  lemma {:induction false} FrontMore(parts: seq<string>, p: string, boundary: string)
    ensures Front(parts + [p], boundary) == Front(parts, boundary) + ("\n--" + boundary + "\n" + p)
    decreases |parts|
  {
    if parts == [] {
      assert parts + [p] == [p] && [p][1..] == [];
    } else {
      assert (parts + [p])[1..] == parts[1..] + [p];
      FrontMore(parts[1..], p, boundary);
    }
  }

  // The body up to its closing delimiter, without the note at its start.
  function Front(parts: seq<string>, boundary: string): string {
    if parts == [] then "" else "\n--" + boundary + "\n" + parts[0] + Front(parts[1..], boundary)
  }

  function MultipartHeader(boundary: string): string {
    "Content-Type: multipart/mixed; boundary=\"" + boundary + "\"\n\n"
  }

  // --- Reading the whole message ---------------------------------------------------------------

  const TYPE := "Content-Type: multipart/mixed; " + "boundary=\""

  function Until(s: string, c: char): string { if s == "" || s[0] == c then "" else [s[0]] + Until(s[1..], c) }

  /** A reader that takes the boundary from the header, and the body apart with it. */
  function ReadMessage(s: string): seq<string> {
    var n := LineEnd(s);
    if Starts(s[..n], TYPE) && n + 1 < |s| then Split(s[n + 2..], Until(s[|TYPE|..n], '"')) else [s]
  }

  lemma {:induction false} UntilQuote(b: string)
    requires '"' !in b
    ensures Until(b + "\"", '"') == b
  {
    if b == "" {
      assert b + "\"" == "\"";
    } else {
      assert (b + "\"")[1..] == b[1..] + "\"";
      UntilQuote(b[1..]);
    }
  }

  /** The message that is written reads as its parts, if no part has a line that starts with the
      boundary. */
  lemma MessageReads(parts: seq<string>, boundary: string)
    requires '\n' !in boundary && '"' !in boundary
    ensures ReadMessage(MultipartHeader(boundary) + Body(parts, boundary)) == parts <==> Clean(parts, boundary)
  {
    hide Split, Body, Clean, Until;
    var line, body := TYPE + (boundary + "\""), Body(parts, boundary);
    var s := MultipartHeader(boundary) + body;
    assert s == line + "\n" + ("\n" + body);
    TypeHasNoBreak();
    LineEnds(line, "\n" + body);
    assert s[..|line|] == line && s[|line| + 2..] == body;
    assert line[..|TYPE|] == TYPE && s[|TYPE|..|line|] == boundary + "\"";
    UntilQuote(boundary);
    BodySplits(parts, boundary);
  }

  lemma TypeHasNoBreak()
    ensures '\n' !in TYPE
  {}

  /** The MIME headers and the body of the message: with attachments, a multipart body that a
      reader takes apart into exactly the text part and the attachments, in order. */
  method Save(sink: Sink, host: string, clock: nat -> nat, charset: string, encoding: string, text: string,
              attachments: seq<Attachment>, saveAllAttachments: bool, bufsiz: nat)
    returns (boundary: string, ghost tries: nat)
    requires bufsiz > 0 && '\n' !in charset && '\n' !in encoding && '\n' !in host
    modifies sink
    ensures boundary == BoundaryName(host, clock(tries), tries) && !Rejected(text, attachments, boundary)
    ensures attachments == [] || !saveAllAttachments ==> sink.data == old(sink.data) + TextPart(charset, encoding, text)
    ensures Bytes(text) && Detected(encoding) ==> ReadPart(TextPart(charset, encoding, text)) == Received(encoding, text)
    ensures attachments != [] && saveAllAttachments ==>
      var parts := [TextPart(charset, encoding, text)] + Contents(attachments);
      sink.data == old(sink.data) + (MultipartHeader(boundary) + Body(parts, boundary)) &&
      (Base64Clean(attachments, boundary) && |boundary| + 2 < BUFFER_SIZE ==> Split(Body(parts, boundary), boundary) == parts)
  {
    hide Rejected, Taken, TextPart, Split, Body, Base64Clean, Contents, ReadPart, Received;
    if Bytes(text) && Detected(encoding) {
      TextPartReads(charset, encoding, text);
    }
    boundary, tries := ChooseBoundary(host, clock, text, attachments);
    if attachments == [] || !saveAllAttachments {
      sink.Write(TextPart(charset, encoding, text));
      return;
    }
    WriteBody(sink, boundary, TextPart(charset, encoding, text), attachments, bufsiz);
    SavedSplits(charset, encoding, text, attachments, host, clock(tries), tries);
  }

  method WriteBody(sink: Sink, boundary: string, first: string, attachments: seq<Attachment>, bufsiz: nat)
    requires bufsiz > 0
    modifies sink
    ensures sink.data == old(sink.data) + (MultipartHeader(boundary) + Body([first] + Contents(attachments), boundary))
  {
    hide MimeMessage, MultipartHeader, Contents, Front;
    sink.Write(MultipartHeader(boundary) + MimeMessage() + ("\n--" + boundary + "\n"));
    sink.Write(first);
    AppendAttachments(sink, boundary, attachments, bufsiz);
    sink.Write("\n--" + boundary + "--\n");
    BodyInPieces(first, Contents(attachments), boundary);
  }

  lemma BodyInPieces(first: string, rest: seq<string>, boundary: string)
    ensures MimeMessage() + ("\n--" + boundary + "\n") + first + Front(rest, boundary) + ("\n--" + boundary + "--\n")
         == Body([first] + rest, boundary)
  {
    hide MimeMessage;
    TailIsFront(rest, boundary);
    assert ([first] + rest)[1..] == rest;
  }

  method AppendAttachments(sink: Sink, boundary: string, attachments: seq<Attachment>, bufsiz: nat)
    requires bufsiz > 0
    modifies sink
    ensures sink.data == old(sink.data) + Front(Contents(attachments), boundary)
  {
    ghost var all := Contents(attachments);
    assert all[..0] == [];
    var c := 0;
    while c < |attachments|
      invariant c <= |attachments| && sink.data == old(sink.data) + Front(all[..c], boundary)
    {
      CopyMultipart(attachments[c].content, sink, boundary, bufsiz);
      assert all[..c + 1] == all[..c] + [attachments[c].content];
      FrontMore(all[..c], attachments[c].content, boundary);
      c := c + 1;
    }
    assert all[..c] == all;
  }

  lemma SavedSplits(charset: string, encoding: string, text: string, attachments: seq<Attachment>,
                    host: string, time: nat, n: nat)
    requires '\n' !in charset && '\n' !in encoding && '\n' !in host
    requires !Rejected(text, attachments, BoundaryName(host, time, n))
    ensures var boundary := BoundaryName(host, time, n);
      var parts := [TextPart(charset, encoding, text)] + Contents(attachments);
      Base64Clean(attachments, boundary) && |boundary| + 2 < BUFFER_SIZE ==> Split(Body(parts, boundary), boundary) == parts
  {
    hide Rejected, Base64Clean, Decimal, Padded;
    var boundary := BoundaryName(host, time, n);
    DecimalValue(time);
    PaddedValue(n);
    StartsMeans(Delimiter(boundary), MARK);
    BodySplits([TextPart(charset, encoding, text)] + Contents(attachments), boundary);
    if Base64Clean(attachments, boundary) && |boundary| + 2 < BUFFER_SIZE {
      ChosenIsClean(charset, encoding, text, attachments, boundary);
    }
  }
}
