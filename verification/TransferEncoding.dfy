/** The transfer encodings of text in a MIME part. */
module TransferEncoding {
  import opened Texts
  import opened FlowedText

  datatype Encoding = Identity | QuotedPrintable | Base64

  // --- Quoted-printable ----------------------------------------------------------------

  function HexDigit(d: nat): char
    requires d < 16
  {
    if d < 10 then ('0' as int + d) as char else ('A' as int + d - 10) as char
  }

  function HexValue(c: char): (n: nat)
    ensures n < 16
  {
    if '0' <= c <= '9' then c as int - '0' as int else if 'A' <= c <= 'F' then 10 + (c as int - 'A' as int) else 0
  }

  const LINE_LIMIT := 72

  predicate Escaped(c: char) { c < ' ' || c == '=' || c as int >= 0x7F }

  function QpChar(c: char): string {
    var b := c as int % 256;
    if c != '\n' && Escaped(c) then ['=', HexDigit(b / 16), HexDigit(b % 16)] else [c]
  }

  // A space that waited, before the next character: before a line break it is escaped.
  function Space(waited: bool, breaks: bool): string { if !waited then "" else if breaks then "=20" else " " }

  function SoftBreak(soft: bool): string { if soft then "=\n" else "" }

  // What is on the line after the character c.
  function Column(c: char, col: nat): nat {
    if c == '\n' then 0 else (if col > LINE_LIMIT then 0 else col) + |QpChar(c)|
  }

  function Qp(s: string, waited: bool, col: nat): string
    decreases |s|
  {
    if s == "" then ""
    else
      var at := if waited then col + 1 else col;
      if s[0] == ' ' then Space(waited, false) + Qp(s[1..], true, at)
      else
        Space(waited, s[0] == '\n') +
        (SoftBreak(at > LINE_LIMIT && s[0] != '\n') + (QpChar(s[0]) + Qp(s[1..], false, Column(s[0], at))))
  }

  // Section 6.7 of RFC 2045, but for rule (3).
  function QpDecode(t: string): string
    decreases |t|
  {
    if t == "" then ""
    else if t[0] != '=' then [t[0]] + QpDecode(t[1..])
    else if |t| > 1 && t[1] == '\n' then QpDecode(t[2..])
    else if |t| > 2 then [(16 * HexValue(t[1]) + HexValue(t[2])) as char] + QpDecode(t[3..])
    else ""
  }

  lemma HexBack(d: nat)
    requires d < 16
    ensures HexValue(HexDigit(d)) == d && HexDigit(d) != '\n' && HexDigit(d) != '_'
  {
  }

  lemma DecodeChar(c: char, rest: string)
    requires (c as int) < 256
    ensures QpDecode(QpChar(c) + rest) == [c] + QpDecode(rest)
  {
    hide HexDigit, HexValue;
    var t := QpChar(c) + rest;
    if c != '\n' && Escaped(c) {
      var hi, lo := c as int / 16, c as int % 16;
      HexBack(hi);
      HexBack(lo);
      assert t[0] == '=' && t[1] == HexDigit(hi) && t[2] == HexDigit(lo) && t[3..] == rest;
    } else {
      assert t[0] == c && t[1..] == rest;
    }
  }

  lemma DecodeSoft(soft: bool, rest: string)
    ensures QpDecode(SoftBreak(soft) + rest) == QpDecode(rest)
  {
    var t := SoftBreak(soft) + rest;
    if soft {
      assert t[0] == '=' && t[1] == '\n' && t[2..] == rest;
    } else {
      assert t == rest;
    }
  }

  lemma DecodeSpace(waited: bool, breaks: bool, rest: string)
    ensures QpDecode(Space(waited, breaks) + rest) == (if waited then " " else "") + QpDecode(rest)
  {
    var t := Space(waited, breaks) + rest;
    if waited && breaks {
      assert t[0] == '=' && t[1] == '2' && t[2] == '0' && t[3..] == rest;
    } else if waited {
      assert t[0] == ' ' && t[1..] == rest;
    } else {
      assert t == rest;
    }
  }

  lemma {:induction false} QpDecodes(s: string, waited: bool, col: nat)
    requires Bytes(s) && if s == "" then !waited else s[|s| - 1] != ' '
    ensures QpDecode(Qp(s, waited, col)) == (if waited then " " else "") + s
    decreases |s|
  {
    hide QpDecode, QpChar, Space, SoftBreak, Column;
    if s == "" {
      DecodeNothing();
    } else {
      var rest := s[1..];
      var at := if waited then col + 1 else col;
      assert s == [s[0]] + rest;
      if s[0] == ' ' {
        QpDecodes(rest, true, at);
        DecodeSpace(waited, false, Qp(rest, true, at));
      } else {
        var end := Qp(rest, false, Column(s[0], at));
        var soft := at > LINE_LIMIT && s[0] != '\n';
        QpDecodes(rest, false, Column(s[0], at));
        DecodeChar(s[0], end);
        DecodeSoft(soft, QpChar(s[0]) + end);
        DecodeSpace(waited, s[0] == '\n', SoftBreak(soft) + (QpChar(s[0]) + end));
        assert "" + rest == rest;
      }
    }
  }

  lemma DecodeNothing()
    ensures QpDecode("") == ""
  {}

  // --- White space at the end of a line: rule (3) of section 6.7 ---

  predicate Blank(c: char) { c == ' ' || c == '\t' }

  // Blanks at the end of a line are deleted.
  function DropTrailing(t: string): string {
    if t == "" then ""
    else
      var rest := DropTrailing(t[1..]);
      if Blank(t[0]) && (rest == "" || rest[0] == '\n') then rest else [t[0]] + rest
  }

  // Section 6.7 of RFC 2045.
  function QpRead(t: string): string { QpDecode(DropTrailing(t)) }

  // No line ends in a blank.
  ghost predicate Solid(t: string) { forall i :: 0 <= i < |t| && Blank(t[i]) ==> i + 1 < |t| && t[i + 1] != '\n' }

  lemma {:induction false} SolidStays(t: string)
    requires Solid(t)
    ensures DropTrailing(t) == t
  {
    if t != "" {
      forall i | 0 <= i < |t| - 1 && Blank(t[1..][i]) ensures i + 1 < |t| - 1 && t[1..][i + 1] != '\n' {
        assert t[1..][i] == t[i + 1];
      }
      SolidStays(t[1..]);
    }
  }

  lemma SolidConcat(a: string, b: string)
    requires Solid(b) && (forall i :: 0 <= i < |a| && Blank(a[i]) ==> i == |a| - 1 && b != "" && b[0] != '\n')
    ensures Solid(a + b)
  {
    forall i | 0 <= i < |a + b| && Blank((a + b)[i]) ensures i + 1 < |a + b| && (a + b)[i + 1] != '\n' {
      if i < |a| {
        assert Blank(a[i]) && (a + b)[i + 1] == b[0];
      } else {
        assert Blank(b[i - |a|]) && (a + b)[i + 1] == b[i - |a| + 1];
      }
    }
  }

  lemma QpCharIsSolid(c: char)
    requires c != ' '
    ensures QpChar(c) != "" && (c != '\n' ==> QpChar(c)[0] != '\n')
    ensures forall i :: 0 <= i < |QpChar(c)| ==> !Blank(QpChar(c)[i])
  {}

  // Encoded text that does not end in a space has no blank at the end of a line.
  lemma {:induction false} QpIsSolid(s: string, waited: bool, col: nat)
    requires if s == "" then !waited else s[|s| - 1] != ' '
    ensures Solid(Qp(s, waited, col))
    ensures s != "" && (waited || s[0] != '\n') ==> Qp(s, waited, col) != "" && Qp(s, waited, col)[0] != '\n'
    decreases |s|
  {
    hide QpChar, Column;
    if s != "" {
      var at := if waited then col + 1 else col;
      if s[0] == ' ' {
        QpIsSolid(s[1..], true, at);
        SolidConcat(Space(waited, false), Qp(s[1..], true, at));
      } else {
        var soft, end := SoftBreak(at > LINE_LIMIT && s[0] != '\n'), Qp(s[1..], false, Column(s[0], at));
        QpCharIsSolid(s[0]);
        QpIsSolid(s[1..], false, Column(s[0], at));
        SolidConcat(QpChar(s[0]), end);
        SolidConcat(soft, QpChar(s[0]) + end);
        SolidConcat(Space(waited, s[0] == '\n'), soft + (QpChar(s[0]) + end));
      }
    }
  }

  function Spaces(n: nat): string { seq(n, _ => ' ') }

  lemma {:induction false} QpOfSpaces(n: nat, col: nat)
    ensures Qp(Spaces(n), true, col) == Spaces(n)
  {
    if n > 0 {
      assert Spaces(n)[1..] == Spaces(n - 1) && Spaces(n) == " " + Spaces(n - 1);
      QpOfSpaces(n - 1, col + 1);
    }
  }

  // Of the spaces at the end of the text, one is not sent.
  lemma {:induction false} QpSpacesLast(s: string, n: nat, waited: bool, col: nat)
    requires n > 0 && if s == "" then !waited else s[|s| - 1] != ' '
    ensures Qp(s + Spaces(n), waited, col) == Qp(s, waited, col) + Spaces(n - 1)
    decreases |s|
  {
    hide Qp, QpHead, Column, Spaces;
    var t := s + Spaces(n);
    if s == "" {
      assert t == Spaces(n);
      QpOnlySpaces(n, col);
    } else {
      QpStep(t, waited, col);
      QpStep(s, waited, col);
      assert t[0] == s[0] && t[1..] == s[1..] + Spaces(n);
      var at := if waited then col + 1 else col;
      if s[0] == ' ' {
        QpSpacesLast(s[1..], n, true, at);
      } else {
        QpSpacesLast(s[1..], n, false, Column(s[0], at));
      }
    }
  }

  lemma QpOnlySpaces(n: nat, col: nat)
    requires n > 0
    ensures Qp(Spaces(n), false, col) == Qp("", false, col) + Spaces(n - 1)
  {
    hide Qp;
    var t := Spaces(n);
    QpStep(t, false, col);
    assert t[0] == ' ' && t[1..] == Spaces(n - 1);
    QpOfSpaces(n - 1, col);
    QpOfNothing(col);
  }

  // What comes out for the first character.
  function QpHead(c: char, waited: bool, at: nat): string {
    if c == ' ' then Space(waited, false) else Space(waited, c == '\n') + SoftBreak(at > LINE_LIMIT && c != '\n') + QpChar(c)
  }

  lemma QpStep(s: string, waited: bool, col: nat)
    requires s != ""
    ensures var at := if waited then col + 1 else col;
      Qp(s, waited, col) == QpHead(s[0], waited, at) +
        if s[0] == ' ' then Qp(s[1..], true, at) else Qp(s[1..], false, Column(s[0], at))
  {
    hide Space, SoftBreak, QpChar, Column;
  }

  lemma QpOfNothing(col: nat)
    ensures Qp("", false, col) == "" && QpHead(' ', false, col) == ""
  {}

  lemma {:induction false} DropSpaces(t: string, n: nat)
    ensures DropTrailing(t + Spaces(n)) == DropTrailing(t)
  {
    if t != "" {
      assert (t + Spaces(n))[1..] == t[1..] + Spaces(n);
      DropSpaces(t[1..], n);
    } else if n > 0 {
      assert ("" + Spaces(n))[1..] == "" + Spaces(n - 1);
      DropSpaces("", n - 1);
    }
  }

  lemma {:induction false} TrimsSpaces(s: string)
    ensures s == TrimEnd(s) + Spaces(|s| - |TrimEnd(s)|)
  {
    if s != "" && s[|s| - 1] == ' ' {
      TrimsSpaces(s[..|s| - 1]);
      assert s == s[..|s| - 1] + " ";
    }
  }

  /** Quoted-printable text decodes to itself without the spaces at its very end. */
  lemma QpReads(s: string)
    requires Bytes(s)
    ensures QpRead(Qp(s, false, 0)) == TrimEnd(s)
  {
    hide Qp, QpDecode, DropTrailing, Bytes, Spaces;
    var u := TrimEnd(s);
    var n := |s| - |u|;
    TrimsSpaces(s);
    QpIsSolid(u, false, 0);
    SolidStays(Qp(u, false, 0));
    BytesOfPrefix(s, u);
    QpDecodes(u, false, 0);
    assert "" + u == u;
    if n > 0 {
      QpSpacesLast(u, n, false, 0);
      DropSpaces(Qp(u, false, 0), n - 1);
    } else {
      assert s == u;
    }
  }

  lemma BytesOfPrefix(s: string, u: string)
    requires Bytes(s) && u <= s
    ensures Bytes(u)
  {}

  /** So it decodes to itself exactly when it does not end in a space. */
  lemma QpRoundTrip(s: string)
    requires Bytes(s)
    ensures QpRead(Qp(s, false, 0)) == s <==> s == "" || s[|s| - 1] != ' '
  {
    hide Qp, QpRead;
    QpReads(s);
  }

  predicate Printable(c: char) { c == '\n' || ' ' <= c <= '~' }

  ghost predicate AllPrintable(t: string) { forall i :: 0 <= i < |t| ==> Printable(t[i]) }

  lemma HeadPrintable(c: char, waited: bool, at: nat)
    ensures AllPrintable(QpHead(c, waited, at))
  {
    HexBack(c as int % 256 / 16);
    HexBack(c as int % 256 % 16);
  }

  /** Whatever the text, what is sent is printable ASCII and line feeds. */
  lemma {:induction false} QpIsPrintable(s: string, waited: bool, col: nat)
    ensures AllPrintable(Qp(s, waited, col))
    decreases |s|
  {
    hide Qp, QpHead, Column;
    if s == "" {
      QpOfNothingAtAll(waited, col);
    } else {
      var at := if waited then col + 1 else col;
      QpStep(s, waited, col);
      HeadPrintable(s[0], waited, at);
      QpIsPrintable(s[1..], true, at);
      QpIsPrintable(s[1..], false, Column(s[0], at));
    }
  }

  lemma QpOfNothingAtAll(waited: bool, col: nat)
    ensures Qp("", waited, col) == ""
  {}

  // --- What its lines are like ---------------------------------------------------------

  // Where the lines of a text that goes on from column col are no longer than n.
  predicate Short(t: string, col: nat, n: nat) {
    if t == "" then col <= n
    else if t[0] == '\n' then col <= n && Short(t[1..], 0, n)
    else Short(t[1..], col + 1, n)
  }

  lemma {:induction false} ShortMore(a: string, t: string, col: nat, n: nat)
    requires '\n' !in a
    ensures Short(a + t, col, n) <==> Short(t, col + |a|, n)
  {
    if a == "" {
      assert a + t == t;
    } else {
      assert (a + t)[1..] == a[1..] + t;
      ShortMore(a[1..], t, col + 1, n);
    }
  }

  lemma ShortBreak(t: string, col: nat, n: nat)
    ensures Short("\n" + t, col, n) <==> col <= n && Short(t, 0, n)
  {
    assert ("\n" + t)[1..] == t;
  }

  // The first line, which goes on from column col.
  ghost predicate ShortStart(t: string, col: nat, n: nat) {
    forall k :: 0 <= k <= |t| && '\n' !in t[..k] ==> col + k <= n
  }

  lemma ShortTail(t: string, n: nat)
    requires t != "" && ShortLines(t, n)
    ensures ShortLines(t[1..], n)
  {
    forall i, j | 0 <= i <= j <= |t[1..]| && '\n' !in t[1..][i..j] ensures j - i <= n {
      assert t[1..][i..j] == t[i + 1..j + 1];
    }
  }

  lemma ShortRest(t: string, n: nat)
    requires t != "" && ShortLines(t[1..], n) && ShortStart(t, 0, n)
    ensures ShortLines(t, n)
  {
    forall i, j | 0 <= i <= j <= |t| && '\n' !in t[i..j] ensures j - i <= n {
      if i > 0 {
        SamePart(t, i, j);
      } else {
        assert t[0..j] == t[..j];
      }
    }
  }

  lemma SamePart(t: string, i: nat, j: nat)
    requires 0 < i <= j <= |t|
    ensures t[i..j] == t[1..][i - 1..j - 1]
  {
    var a, b := t[i..j], t[1..][i - 1..j - 1];
    forall k | 0 <= k < j - i ensures a[k] == b[k] {
      assert t[1..][i - 1 + k] == t[i + k];
    }
    assert |a| == |b|;
  }

  lemma StartBreaks(t: string, col: nat, n: nat)
    requires t != "" && t[0] == '\n'
    ensures ShortStart(t, col, n) <==> col <= n
  {
    forall k | 0 < k <= |t| ensures '\n' in t[..k] {
      assert t[..k][0] == t[0];
    }
    assert '\n' !in t[..0];
  }

  lemma StartGoesOn(t: string, col: nat, n: nat)
    requires t != "" && t[0] != '\n'
    ensures ShortStart(t, col, n) <==> ShortStart(t[1..], col + 1, n)
  {
    if ShortStart(t, col, n) {
      forall k | 0 <= k <= |t[1..]| && '\n' !in t[1..][..k] ensures col + 1 + k <= n {
        assert t[..k + 1] == [t[0]] + t[1..][..k];
      }
    }
    if ShortStart(t[1..], col + 1, n) {
      assert '\n' !in t[1..][..0];
      forall k | 0 <= k <= |t| && '\n' !in t[..k] ensures col + k <= n {
        if k > 0 {
          assert t[..k] == [t[0]] + t[1..][..k - 1];
        }
      }
    }
  }

  lemma {:induction false} ShortMeans(t: string, col: nat, n: nat)
    ensures Short(t, col, n) <==> ShortLines(t, n) && ShortStart(t, col, n)
    decreases |t|
  {
    hide ShortLines, ShortStart;
    if t == "" {
      ShortNothing(col, n);
    } else {
      var rest := t[1..];
      if t[0] == '\n' {
        ShortMeans(rest, 0, n);
        StartBreaks(t, col, n);
        StartBreaks(t, 0, n);
        if ShortLines(t, n) || ShortLines(rest, n) {
          if ShortLines(t, n) {
            ShortTail(t, n);
          }
          LinesStart(rest, n);
        }
      } else {
        ShortMeans(rest, col + 1, n);
        StartGoesOn(t, col, n);
        if ShortStart(t, col, n) {
          StartLess(t, col, n);
        }
      }
      if ShortLines(t, n) {
        ShortTail(t, n);
      }
      if ShortLines(rest, n) && ShortStart(t, 0, n) {
        ShortRest(t, n);
      }
    }
  }

  lemma ShortNothing(col: nat, n: nat)
    ensures ShortLines("", n) && (ShortStart("", col, n) <==> col <= n)
  {
    assert '\n' !in ""[..0];
  }

  lemma LinesStart(t: string, n: nat)
    requires ShortLines(t, n)
    ensures ShortStart(t, 0, n)
  {
    forall k | 0 <= k <= |t| && '\n' !in t[..k] ensures k <= n {
      assert t[0..k] == t[..k];
    }
  }

  lemma StartLess(t: string, col: nat, n: nat)
    requires ShortStart(t, col, n)
    ensures ShortStart(t, 0, n)
  {}

  /** Where spaces end, there is room on the line for what is written then: a space and a soft
      break, or an escaped space before a line break. */
  predicate Roomy(s: string, waited: bool, col: nat)
    decreases |s|
  {
    if s == "" then waited ==> col <= 76
    else
      var at := if waited then col + 1 else col;
      if s[0] == ' ' then Roomy(s[1..], true, at)
      else (waited ==> col <= if s[0] == '\n' then 73 else 74) && Roomy(s[1..], false, Column(s[0], at))
  }

  lemma {:induction false} QpShort(s: string, waited: bool, col: nat)
    requires !waited ==> col <= 75
    ensures Short(Qp(s, waited, col), col, 76) <==> Roomy(s, waited, col)
    decreases |s|
  {
    hide QpChar, Short;
    if s == "" {
      ShortEmpty(col);
    } else {
      var at := if waited then col + 1 else col;
      if s[0] == ' ' {
        QpShort(s[1..], true, at);
        ShortMore(Space(waited, false), Qp(s[1..], true, at), col, 76);
      } else {
        var end := Qp(s[1..], false, Column(s[0], at));
        CharShort(s[0], at);
        QpShort(s[1..], false, Column(s[0], at));
        if s[0] == '\n' {
          assert QpChar('\n') == "\n" by { NewlineStays(); }
          ShortMore(Space(waited, true), "\n" + end, col, 76);
          ShortBreak(end, if waited then col + 3 else col, 76);
          assert "" + ("\n" + end) == "\n" + end;
        } else {
          QpCharShort(s[0], end, waited, col);
        }
      }
    }
  }

  lemma ShortEmpty(col: nat)
    ensures Short("", col, 76) <==> col <= 76
  {}

  lemma NewlineStays()
    ensures QpChar('\n') == "\n"
  {}

  lemma CharShort(c: char, at: nat)
    ensures |QpChar(c)| <= 3 && (c != '\n' ==> '\n' !in QpChar(c)) && Column(c, at) <= 75
  {
    if c != '\n' && Escaped(c) {
      HexBack(c as int % 256 / 16);
      HexBack(c as int % 256 % 16);
    }
  }

  // A character, with the space before it and a soft break if need be.
  lemma QpCharShort(c: char, end: string, waited: bool, col: nat)
    requires c != '\n' && (!waited ==> col <= 75)
    ensures var at := if waited then col + 1 else col;
      Short(Space(waited, false) + (SoftBreak(at > LINE_LIMIT && c != '\n') + (QpChar(c) + end)), col, 76) <==>
        (waited ==> col <= 74) && Short(end, Column(c, at), 76)
  {
    hide QpChar, Short;
    var at := if waited then col + 1 else col;
    CharShort(c, at);
    var t := QpChar(c) + end;
    ShortMore(Space(waited, false), SoftBreak(at > LINE_LIMIT) + t, col, 76);
    if at > LINE_LIMIT {
      ShortMore("=", "\n" + t, at, 76);
      ShortBreak(t, at + 1, 76);
      assert "=\n" + t == "=" + ("\n" + t);
      ShortMore(QpChar(c), end, 0, 76);
    } else {
      assert "" + t == t;
      ShortMore(QpChar(c), end, at, 76);
    }
  }

  /** Rule (5) of section 6.7 of RFC 2045: lines of quoted-printable text are of 76 characters at most
      if and only if there is room where spaces end, since a line is never broken before a space
      and not always soon enough after it. */
  lemma QpLines(s: string)
    ensures ShortLines(Qp(s, false, 0), 76) <==> Roomy(s, false, 0)
  {
    hide ShortLines, Qp;
    QpShort(s, false, 0);
    ShortMeans(Qp(s, false, 0), 0, 76);
    if ShortLines(Qp(s, false, 0), 76) {
      LinesStart(Qp(s, false, 0), 76);
    }
  }

  lemma {:induction false} RoomyWithoutSpaces(s: string, col: nat)
    requires ' ' !in s
    ensures Roomy(s, false, col)
  {
    if s != "" {
      assert s[0] in s;
      RoomyWithoutSpaces(s[1..], Column(s[0], col));
    }
  }

  /** So all is well without spaces, and with enough spaces in a row a line gets as long as it likes. */
  lemma QpSpacesStay(s: string, n: nat)
    ensures ' ' !in s ==> ShortLines(Qp(s, false, 0), 76)
    ensures !ShortLines(Qp(Spaces(n + 2), false, 0), n)
  {
    if ' ' !in s {
      RoomyWithoutSpaces(s, 0);
      QpLines(s);
    }
    QpOnlySpaces(n + 2, 0);
    QpOfNothing(0);
    var t := Qp(Spaces(n + 2), false, 0);
    assert t == Spaces(n + 1) && t[0..n + 1] == t && '\n' !in t;
  }

  // --- Base64 -----------------------------------------------------------------------------

  const GROUP := 57

  function Sextet(n: int): char {
    var d := n % 64;
    if d < 26 then ('A' as int + d) as char
    else if d < 52 then ('a' as int + d - 26) as char
    else if d < 62 then ('0' as int + d - 52) as char
    else if d == 62 then '+' else '/'
  }

  function Byte(s: string, i: nat): nat { if i < |s| then s[i] as int % 256 else 0 }

  // The bits of three bytes, six at a time.
  function FirstSix(a: nat): nat { a / 4 }
  function SecondSix(a: nat, b: nat): nat { a % 4 * 16 + b / 16 }
  function ThirdSix(b: nat, c: nat): nat { b % 16 * 4 + c / 64 }
  function LastSix(c: nat): nat { c % 64 }

  // Three bytes, or what is left of them.
  function Quad(s: string): string
    requires s != ""
  {
    var a, b, c := Byte(s, 0), Byte(s, 1), Byte(s, 2);
    [Sextet(FirstSix(a)), Sextet(SecondSix(a, b)),
     if |s| > 1 then Sextet(ThirdSix(b, c)) else '=', if |s| > 2 then Sextet(LastSix(c)) else '=']
  }

  function Quads(s: string): string
    decreases |s|
  {
    if s == "" then "" else Quad(s) + Quads(if |s| > 3 then s[3..] else "")
  }

  function Base64Text(s: string): string
    decreases |s|
  {
    if s == "" then ""
    else if |s| <= GROUP then Quads(s) + "\n"
    else Quads(s[..GROUP]) + "\n" + Base64Text(s[GROUP..])
  }

  function Encoded(e: Encoding, s: string): string {
    match e
    case Identity => s
    case QuotedPrintable => Qp(s, false, 0)
    case Base64 => Base64Text(s)
  }

  // --- Reading base64: section 6.8 of RFC 2045 ---

  predicate InAlphabet(c: char) {
    'A' <= c <= 'Z' || 'a' <= c <= 'z' || '0' <= c <= '9' || c == '+' || c == '/'
  }

  function SextetValue(c: char): (n: nat)
    ensures n < 64
  {
    if 'A' <= c <= 'Z' then c as int - 'A' as int
    else if 'a' <= c <= 'z' then 26 + (c as int - 'a' as int)
    else if '0' <= c <= '9' then 52 + (c as int - '0' as int)
    else if c == '+' then 62
    else if c == '/' then 63
    else 0
  }

  // Four characters give three bytes, fewer if they are padded.
  function QuadRead(a: char, b: char, c: char, d: char): string {
    [(SextetValue(a) * 4 + SextetValue(b) / 16) as char] +
    (if c == '=' then "" else [(SextetValue(b) % 16 * 16 + SextetValue(c) / 4) as char]) +
    (if d == '=' then "" else [(SextetValue(c) % 4 * 64 + SextetValue(d)) as char])
  }

  // Characters outside the alphabet, such as line breaks, are passed over.
  function Base64Read(t: string): string
    decreases |t|
  {
    if t == "" then ""
    else if !InAlphabet(t[0]) then Base64Read(t[1..])
    else if |t| < 4 then ""
    else QuadRead(t[0], t[1], t[2], t[3]) + Base64Read(t[4..])
  }

  lemma SextetBack(n: nat)
    requires n < 64
    ensures InAlphabet(Sextet(n)) && SextetValue(Sextet(n)) == n && Sextet(n) != '='
  {}

  lemma FirstBits(a: nat, b: nat)
    requires a < 256 && b < 256
    ensures FirstSix(a) < 64 && SecondSix(a, b) < 64 && FirstSix(a) * 4 + SecondSix(a, b) / 16 == a
  {}

  lemma MiddleBits(a: nat, b: nat, c: nat)
    requires a < 256 && b < 256 && c < 256
    ensures ThirdSix(b, c) < 64 && SecondSix(a, b) % 16 * 16 + ThirdSix(b, c) / 4 == b
  {
    assert (a % 4 * 16 + b / 16) % 16 == b / 16;
  }

  lemma LastBits(b: nat, c: nat)
    requires b < 256 && c < 256
    ensures LastSix(c) < 64 && ThirdSix(b, c) % 4 * 64 + LastSix(c) == c
  {
    assert (b % 16 * 4 + c / 64) % 4 == c / 64;
  }

  lemma ByteIs(s: string, i: nat)
    requires Bytes(s)
    ensures Byte(s, i) < 256 && (i < |s| ==> s[i] == Byte(s, i) as char)
  {}

  lemma SextetsRead(w: nat, x: nat, y: nat, z: nat, n: nat)
    requires w < 64 && x < 64 && y < 64 && z < 64
    ensures InAlphabet(Sextet(w))
    ensures QuadRead(Sextet(w), Sextet(x), if n > 1 then Sextet(y) else '=', if n > 2 then Sextet(z) else '=') ==
      [(w * 4 + x / 16) as char] + (if n > 1 then [(x % 16 * 16 + y / 4) as char] else "") +
      (if n > 2 then [(y % 4 * 64 + z) as char] else "")
  {
    hide Sextet, SextetValue, InAlphabet;
    SextetBack(w);
    SextetBack(x);
    SextetBack(y);
    SextetBack(z);
  }

  lemma QuadBack(s: string)
    requires Bytes(s) && s != ""
    ensures |Quad(s)| == 4 && InAlphabet(Quad(s)[0])
    ensures var q := Quad(s); QuadRead(q[0], q[1], q[2], q[3]) == s[..if |s| < 3 then |s| else 3]
  {
    hide Sextet, InAlphabet, QuadRead, Bytes, Byte, FirstSix, SecondSix, ThirdSix, LastSix;
    var a, b, c := Byte(s, 0), Byte(s, 1), Byte(s, 2);
    ByteIs(s, 0);
    ByteIs(s, 1);
    ByteIs(s, 2);
    FirstBits(a, b);
    MiddleBits(a, b, c);
    LastBits(b, c);
    BitsBack(s, a, b, c, FirstSix(a), SecondSix(a, b), ThirdSix(b, c), LastSix(c));
  }

  lemma BitsBack(s: string, a: nat, b: nat, c: nat, w: nat, x: nat, y: nat, z: nat)
    requires a < 256 && b < 256 && c < 256 && s != "" && s[0] == a as char
    requires (|s| > 1 ==> s[1] == b as char) && (|s| > 2 ==> s[2] == c as char)
    requires w < 64 && x < 64 && y < 64 && z < 64
    requires w * 4 + x / 16 == a && x % 16 * 16 + y / 4 == b && y % 4 * 64 + z == c
    ensures InAlphabet(Sextet(w))
    ensures QuadRead(Sextet(w), Sextet(x), if |s| > 1 then Sextet(y) else '=', if |s| > 2 then Sextet(z) else '=') ==
      s[..if |s| < 3 then |s| else 3]
  {
    hide Sextet, InAlphabet, QuadRead;
    SextetsRead(w, x, y, z, |s|);
    ThreeBytes(s, a, b, c);
  }

  lemma ThreeBytes(s: string, a: nat, b: nat, c: nat)
    requires a < 256 && b < 256 && c < 256 && s != "" && s[0] == a as char
    requires (|s| > 1 ==> s[1] == b as char) && (|s| > 2 ==> s[2] == c as char)
    ensures s[..if |s| < 3 then |s| else 3] ==
      [a as char] + (if |s| > 1 then [b as char] else "") + (if |s| > 2 then [c as char] else "")
  {}

  lemma ReadQuad(q: string, rest: string)
    requires |q| == 4 && InAlphabet(q[0])
    ensures Base64Read(q + rest) == QuadRead(q[0], q[1], q[2], q[3]) + Base64Read(rest)
  {
    hide QuadRead, InAlphabet;
    assert (q + rest)[4..] == rest;
  }

  lemma QuadsStep(s: string)
    requires s != ""
    ensures Quads(s) == Quad(s) + Quads(if |s| > 3 then s[3..] else "")
    ensures s == s[..if |s| < 3 then |s| else 3] + if |s| > 3 then s[3..] else ""
  {
    hide Quad;
  }

  lemma {:induction false} QuadsBack(s: string, rest: string)
    requires Bytes(s)
    ensures Base64Read(Quads(s) + rest) == s + Base64Read(rest)
    decreases |s|
  {
    hide Quad, QuadRead, InAlphabet, Quads, Base64Read;
    if s == "" {
      NoQuads(rest);
    } else {
      var more := if |s| > 3 then s[3..] else "";
      QuadsStep(s);
      QuadBack(s);
      QuadsBack(more, rest);
      ReadQuad(Quad(s), Quads(more) + rest);
      assert Quads(s) + rest == Quad(s) + (Quads(more) + rest);
    }
  }

  lemma NoQuads(rest: string)
    ensures Quads("") + rest == rest && "" + Base64Read(rest) == Base64Read(rest)
  {}

  lemma PassedOver(rest: string)
    ensures Base64Read("\n" + rest) == Base64Read(rest)
  {
    assert ("\n" + rest)[1..] == rest;
  }

  /** Base64 text gives back every byte string. */
  lemma {:induction false} Base64Reads(s: string)
    requires Bytes(s)
    ensures Base64Read(Base64Text(s)) == s
    decreases |s|
  {
    hide Base64Read, Quads;
    if s == "" {
      NothingRead();
    } else if |s| <= GROUP {
      QuadsBack(s, "\n");
      PassedOver("");
      NothingRead();
      assert "\n" + "" == "\n";
    } else {
      QuadsBack(s[..GROUP], "\n" + Base64Text(s[GROUP..]));
      PassedOver(Base64Text(s[GROUP..]));
      Base64Reads(s[GROUP..]);
      assert Quads(s[..GROUP]) + "\n" + Base64Text(s[GROUP..]) == Quads(s[..GROUP]) + ("\n" + Base64Text(s[GROUP..]));
    }
  }

  lemma NothingRead()
    ensures Base64Read("") == ""
  {}

  lemma {:induction false} QuadsLength(s: string)
    ensures |Quads(s)| == (|s| + 2) / 3 * 4 && '\n' !in Quads(s)
    decreases |s|
  {
    hide Quad;
    if s != "" {
      var rest := if |s| > 3 then s[3..] else "";
      QuadsLength(rest);
      QuadHasNoBreak(s);
      assert |s| > 3 ==> (|rest| + 2) / 3 + 1 == (|s| + 2) / 3;
    }
  }

  lemma QuadHasNoBreak(s: string)
    requires s != ""
    ensures |Quad(s)| == 4 && '\n' !in Quad(s)
  {}

  // Where the lines of a text are no longer than n.
  ghost predicate ShortLines(t: string, n: nat) {
    forall i, j :: 0 <= i <= j <= |t| && '\n' !in t[i..j] ==> j - i <= n
  }

  /** Its lines are of 76 characters at most. */
  lemma {:induction false} Base64Lines(s: string)
    ensures ShortLines(Base64Text(s), 76)
    decreases |s|
  {
    hide Quads;
    if s != "" {
      var first := Quads(if |s| <= GROUP then s else s[..GROUP]);
      var rest := if |s| <= GROUP then "" else Base64Text(s[GROUP..]);
      QuadsLength(if |s| <= GROUP then s else s[..GROUP]);
      if |s| > GROUP {
        Base64Lines(s[GROUP..]);
      }
      assert Base64Text(s) == first + "\n" + rest;
      ShortLinesMore(first, rest, 76);
    }
  }

  lemma ShortLinesMore(first: string, rest: string, n: nat)
    requires |first| <= n && ShortLines(rest, n)
    ensures ShortLines(first + "\n" + rest, n)
  {
    var t, k := first + "\n" + rest, |first|;
    forall i, j | 0 <= i <= j <= |t| && '\n' !in t[i..j] ensures j - i <= n {
      if i > k {
        assert t[i..j] == rest[i - k - 1..j - k - 1];
      } else if j > k {
        BreakInside(t, i, j, k);
      }
    }
  }

  lemma BreakInside(t: string, i: nat, j: nat, k: nat)
    requires i <= k < j <= |t| && t[k] == '\n'
    ensures '\n' in t[i..j]
  {
    assert t[i..j][k - i] == t[k];
  }

  // --- Reading a part by its encoding: section 6 of RFC 2045 ---

  // The names that the detection of an encoding gives.
  predicate Detected(name: string) { name in {"7bit", "8bit", "quoted-printable", "base64"} }

  function Decoded(name: string, body: string): string {
    if name == "quoted-printable" then QpRead(body) else if name == "base64" then Base64Read(body) else body
  }

  // --- What the encodings leave out ---

  // After an equals sign there is never an underscore.
  ghost predicate NoMark(t: string) { forall i :: 0 <= i < |t| && t[i] == '=' ==> i + 1 < |t| && t[i + 1] != '_' }

  lemma NoMarkConcat(a: string, b: string)
    requires NoMark(a) && NoMark(b)
    ensures NoMark(a + b)
  {
    forall i | 0 <= i < |a + b| && (a + b)[i] == '=' ensures i + 1 < |a + b| && (a + b)[i + 1] != '_' {
      assert i < |a| ==> a[i] == '=';
      assert i >= |a| ==> b[i - |a|] == '=';
    }
  }

  lemma PiecesHaveNoMark(c: char, waited: bool, breaks: bool, soft: bool)
    ensures NoMark(QpChar(c)) && NoMark(Space(waited, breaks)) && NoMark(SoftBreak(soft))
  {
    var b := c as int % 256;
    HexBack(b / 16);
    HexBack(b % 16);
  }

  lemma {:induction false} QpHasNoMark(s: string, waited: bool, col: nat)
    ensures NoMark(Qp(s, waited, col))
    decreases |s|
  {
    hide QpChar, Space, SoftBreak, Column;
    if s != "" {
      var at := if waited then col + 1 else col;
      if s[0] == ' ' {
        PiecesHaveNoMark(s[0], waited, false, false);
        QpHasNoMark(s[1..], true, at);
        NoMarkConcat(Space(waited, false), Qp(s[1..], true, at));
      } else {
        var soft := at > LINE_LIMIT && s[0] != '\n';
        var end := Qp(s[1..], false, Column(s[0], at));
        PiecesHaveNoMark(s[0], waited, s[0] == '\n', soft);
        QpHasNoMark(s[1..], false, Column(s[0], at));
        NoMarkConcat(QpChar(s[0]), end);
        NoMarkConcat(SoftBreak(soft), QpChar(s[0]) + end);
        NoMarkConcat(Space(waited, s[0] == '\n'), SoftBreak(soft) + (QpChar(s[0]) + end));
      }
    }
  }

  lemma QuadHasNoDash(s: string)
    requires s != ""
    ensures '-' !in Quad(s)
  {
  }

  lemma {:induction false} QuadsHaveNoDash(s: string)
    ensures '-' !in Quads(s)
    decreases |s|
  {
    if s != "" {
      QuadHasNoDash(s);
      QuadsHaveNoDash(if |s| > 3 then s[3..] else "");
    }
  }

  lemma {:induction false} Base64HasNoDash(s: string)
    ensures '-' !in Base64Text(s)
    decreases |s|
  {
    if s == "" {
    } else if |s| <= GROUP {
      QuadsHaveNoDash(s);
    } else {
      QuadsHaveNoDash(s[..GROUP]);
      Base64HasNoDash(s[GROUP..]);
    }
  }
}
