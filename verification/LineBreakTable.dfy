/** The rules of Unicode Annex 14 as a table: which classes stay on the line of the character
    before them, and which even across spaces. The engine's verdicts are those of the table, read
    off the text. */
module LineBreakTable {
  import opened LineBreaks

  // What stays with every character before it, and what does so across spaces.
  predicate StaysAlways(after: Class) { StaysClosing(after) || after.SY? || after.QU? }

  predicate StaysClosing(after: Class) { after.CL? || after.CP? || after.EX? || after.IS? || after.WJ? }

  // What stays with almost every character before it: hyphens and the like.
  predicate Follows(after: Class) { after.GL? || after.BA? || after.HY? || after.NS? }

  // What else stays with a character.
  predicate Row(before: Class, after: Class) {
    match before
    case WJ => true
    case GL => true
    case OP => true
    case QU => true
    case BB => !after.CB?
    case CB => after.GL?
    case BA => after.BA? || after.HY? || after.NS?
    case HY => after.BA? || after.HY? || after.NS? || after.NU?
    case B2 => Follows(after) || after.B2?
    case CP => Follows(after) || after.AL? || after.NU?
    case IN => Follows(after) || after.IN?
    case IS => Follows(after) || after.AL?
    case SY => Follows(after) || after.AL? || after.ID?
    case NU => Follows(after) || after.AL? || after.IN? || after.OP?
    case PO => Follows(after) || after.AL? || after.NU?
    case PR => Follows(after) || after.AL? || after.ID? || after.NU? || after.PR? || after.H2? || after.H3? || after.JL? || after.JV? || after.JT?
    case AL => Follows(after) || after.AL? || after.IN? || after.NU? || after.OP? || after.PR?
    case ID => Follows(after) || after.IN? || after.PO? || after.PR?
    case JL => Follows(after) || after.JL? || after.JV? || after.H2? || after.H3? || after.IN? || after.PO?
    case JV => Follows(after) || after.JV? || after.JT? || after.IN? || after.PO?
    case H2 => Follows(after) || after.JV? || after.JT? || after.IN? || after.PO?
    case JT => Follows(after) || after.JT? || after.IN? || after.PO?
    case H3 => Follows(after) || after.JT? || after.IN? || after.PO?
    case _ => Follows(after)
  }

  predicate Stays(before: Class, after: Class) { StaysAlways(after) || Row(before, after) }

  predicate StaysAcross(before: Class, after: Class) {
    StaysClosing(after) ||
    match before
    case OP => !after.SY?
    case QU => after.OP?
    case CL => after.NS?
    case CP => after.NS?
    case B2 => after.B2?
    case _ => false
  }

  // The verdict on a character after p, where q is the last character before that is no space.
  function TableVerdict(p: Class, q: Class, cls: Class): Verdict {
    if p.Start? || (p.CR? && cls.LF?) then Prohibited
    else if p.BreaksAfter() then Mandatory
    else if cls.BreaksAfter() || cls.SP? || cls.ZW? then Prohibited
    else if q.ZW? then Allowed
    else if (if p.SP? then StaysAcross(q, cls) else Stays(p, cls)) then Prohibited
    else Allowed
  }

  // Where neither spaces nor line ends come before, nor after.
  predicate Inside(p: Class, cls: Class) {
    !p.NoBase() && !p.CM? && !cls.CM? && !cls.NoBase()
  }

  lemma ClosingRules(p: Class, cls: Class, skip25: bool)
    requires Inside(p, cls) && (StaysAlways(cls) || p.WJ? || p.GL? || p.OP? || p.QU?)
    ensures Rule(p, p, cls, skip25) == Report(Prohibited)
  {}

  predicate Open(p: Class, cls: Class) {
    Inside(p, cls) && !StaysAlways(cls) && !p.WJ? && !p.GL? && !p.OP? && !p.QU?
  }

  lemma FollowingRules(p: Class, cls: Class, skip25: bool)
    requires Open(p, cls) && (Follows(cls) || p.BB? || p.CB? || cls.CB?)
    ensures Rule(p, p, cls, skip25) == Report(if Row(p, cls) then Prohibited else Allowed)
  {}

  predicate Pair(p: Class, cls: Class) { Open(p, cls) && !Follows(cls) && !p.BB? && !p.CB? && !cls.CB? }

  lemma LetterRows(p: Class, cls: Class, skip25: bool)
    requires Pair(p, cls) && (p.AL? || p.ID? || p.NU? || p.SY?)
    ensures Rule(p, p, cls, skip25) == Report(if Row(p, cls) then Prohibited else Allowed)
  {}

  lemma SymbolRows(p: Class, cls: Class, skip25: bool)
    requires Pair(p, cls) && p.Affix() && (skip25 ==> cls.OP?)
    ensures Rule(p, p, cls, skip25) ==
      if cls.OP? && !skip25 then Hold else Report(if Row(p, cls) then Prohibited else Allowed)
  {}

  predicate Hangul(p: Class) { p.JL? || p.JV? || p.JT? || p.H2? || p.H3? }

  lemma HangulRows(p: Class, cls: Class, skip25: bool)
    requires Pair(p, cls) && Hangul(p)
    ensures Rule(p, p, cls, skip25) == Report(if Row(p, cls) then Prohibited else Allowed)
  {}

  lemma OtherRows(p: Class, cls: Class, skip25: bool)
    requires Pair(p, cls) && !p.Affix() && !Hangul(p) && !p.AL? && !p.ID? && !p.NU? && !p.SY?
    ensures Rule(p, p, cls, skip25) == Report(if Row(p, cls) then Prohibited else Allowed)
  {}

  lemma AcrossSpaces(q: Class, cls: Class, skip25: bool)
    requires !q.CM? && !cls.CM? && !cls.NoBase() && (q.ZW? || StaysClosing(cls) || cls.SY? || q.OP?)
    ensures Rule(SP, q, cls, skip25) == Report(if !q.ZW? && StaysAcross(q, cls) then Prohibited else Allowed)
  {}

  lemma AcrossPairs(q: Class, cls: Class, skip25: bool)
    requires !q.CM? && !cls.CM? && !cls.NoBase() && !(q.ZW? || StaysClosing(cls) || cls.SY? || q.OP?)
    ensures Rule(SP, q, cls, skip25) == Report(if StaysAcross(q, cls) then Prohibited else Allowed)
  {}

  lemma AtLineEnds(p: Class, q: Class, cls: Class, skip25: bool)
    requires !p.CM? && !cls.CM? && !cls.Start? && (p.SP? || q == p)
    requires (p.NoBase() && !p.SP?) || cls.NoBase()
    ensures Rule(p, q, cls, skip25) == Report(TableVerdict(p, q, cls))
  {}

  /** The rules, one after the other, are the table, but for an opening after a symbol. */
  lemma RulesAreTable(p: Class, q: Class, cls: Class, skip25: bool)
    requires !p.CM? && !q.CM? && !cls.CM? && !cls.Start? && (p.SP? || q == p) && (skip25 ==> cls.OP?)
    ensures Rule(p, q, cls, skip25) ==
      if p.Affix() && cls.OP? && !skip25 then Hold else Report(TableVerdict(p, q, cls))
  {
    hide Rule, Row, StaysAcross;
    if (p.NoBase() && !p.SP?) || cls.NoBase() {
      AtLineEnds(p, q, cls, skip25);
    } else if p.SP? {
      if q.ZW? || StaysClosing(cls) || cls.SY? || q.OP? {
        AcrossSpaces(q, cls, skip25);
      } else {
        AcrossPairs(q, cls, skip25);
      }
    } else {
      RowsAreRules(p, cls, skip25);
    }
  }

  lemma RowsAreRules(p: Class, cls: Class, skip25: bool)
    requires Inside(p, cls) && (skip25 ==> cls.OP?)
    ensures Rule(p, p, cls, skip25) ==
      if p.Affix() && cls.OP? && !skip25 then Hold else Report(if Stays(p, cls) then Prohibited else Allowed)
  {
    hide Rule, Row;
    if StaysAlways(cls) || p.WJ? || p.GL? || p.OP? || p.QU? {
      ClosingRules(p, cls, skip25);
      if !StaysAlways(cls) {
        GluedRows(p, cls);
      }
    } else if Follows(cls) || p.BB? || p.CB? || cls.CB? {
      FollowingRules(p, cls, skip25);
    } else if p.Affix() {
      SymbolRows(p, cls, skip25);
    } else if Hangul(p) {
      HangulRows(p, cls, skip25);
    } else if p.AL? || p.ID? || p.NU? || p.SY? {
      LetterRows(p, cls, skip25);
    } else {
      OtherRows(p, cls, skip25);
    }
  }

  lemma GluedRows(p: Class, cls: Class)
    requires p.WJ? || p.GL? || p.OP? || p.QU?
    ensures Row(p, cls)
  {}

  // --- Read off the text ---------------------------------------------------------------------

  // The class of the last character, with combining marks counted to the character they are on.
  function Last(cs: seq<Class>): Class {
    if cs == [] then Start
    else
      var c, before := cs[|cs| - 1], Last(cs[..|cs| - 1]);
      if !c.CM? then c else if before.NoBase() then AL else before
  }

  // The same for the last character that is no space.
  function LastSolid(cs: seq<Class>): Class {
    if cs == [] then Start
    else
      var c, init := cs[|cs| - 1], cs[..|cs| - 1];
      if c.SP? then LastSolid(init) else if !c.CM? then c else if Last(init).NoBase() then AL else LastSolid(init)
  }

  // Whether the text ends in a number, or in one and a closing bracket.
  datatype Numeric = NoNumber | InNumber | AfterNumber

  function Numbers(cs: seq<Class>): Numeric {
    if cs == [] then NoNumber
    else
      var c, before := cs[|cs| - 1], Numbers(cs[..|cs| - 1]);
      if c.NU? then InNumber
      else if c.CM? then before
      else if before.InNumber? && (c.SY? || c.IS?) then InNumber
      else if before.InNumber? && (c.CL? || c.CP?) then AfterNumber
      else NoNumber
  }

  // The next character from k on that is no combining mark is a digit.
  predicate DigitNext(cs: seq<Class>, k: nat)
    decreases |cs| - k
  {
    k < |cs| && if cs[k].CM? then DigitNext(cs, k + 1) else cs[k].NU?
  }

  /** The verdict on character i: inside a number nothing is broken (rule LB25), an opening bracket
      stays with the symbol before it if a digit follows (LB25), combining marks stay where they
      are (LB9), and everything else goes by the table. */
  function TextVerdict(cs: seq<Class>, i: nat): Verdict
    requires i < |cs|
  {
    var before, c := cs[..i], cs[i];
    var p, q, n := Last(before), LastSolid(before), Numbers(before);
    if n.InNumber? && (c.NU? || c.SY? || c.IS? || c.CM? || c.CL? || c.CP? || c.PR? || c.PO?) then Prohibited
    else if n.AfterNumber? && (c.CM? || c.PR? || c.PO?) then Prohibited
    else if c.OP? && p.Affix() then (if DigitNext(cs, i + 1) then Prohibited else Allowed)
    else if !c.CM? then TableVerdict(p, q, c)
    else if p.NoBase() then TableVerdict(p, q, AL)
    else Prohibited
  }

  // The engine has read cs, and holds nothing.
  ghost predicate Reads(e: Engine, cs: seq<Class>) {
    e.prev == Last(cs) && e.prevNoSpace == LastSolid(cs) &&
    match Numbers(cs)
    case NoNumber => e.handler.Default?
    case InNumber => e.handler.Number?
    case AfterNumber => e.handler.NumberClosed?
  }

  lemma {:induction false} LastMeans(cs: seq<Class>)
    requires Start !in cs
    ensures !Last(cs).CM? && !LastSolid(cs).CM? && !LastSolid(cs).SP? && (Last(cs).SP? || LastSolid(cs) == Last(cs))
    ensures Last(cs).Start? <==> cs == []
    ensures !Numbers(cs).NoNumber? ==> Last(cs).NU? || Last(cs).SY? || Last(cs).IS? || Last(cs).CL? || Last(cs).CP?
  {
    if cs != [] {
      LastMeans(cs[..|cs| - 1]);
    }
  }

  // --- The engine against the text -----------------------------------------------------------

  // The verdict where no number and no opening bracket matters.
  function PlainVerdict(p: Class, q: Class, c: Class): Verdict {
    if !c.CM? then TableVerdict(p, q, c) else if p.NoBase() then TableVerdict(p, q, AL) else Prohibited
  }

  lemma DefaultPlain(e: Engine, c: Class, skip25: bool)
    requires !e.prev.CM? && !e.prevNoSpace.CM? && (e.prev.SP? || e.prevNoSpace == e.prev) && !c.Start?
    requires e.handler.Default? && (skip25 ==> c.OP?) && (e.prev.Affix() && c.OP? ==> skip25)
    ensures var (e', v) := NextDefault(e, c, skip25);
      v == [PlainVerdict(e.prev, e.prevNoSpace, c)] && e'.handler == (if c.NU? then Number else Default) &&
      e'.prev == (if !c.CM? then c else if e.prev.NoBase() then AL else e.prev) &&
      e'.prevNoSpace == (if c.SP? then e.prevNoSpace else if !c.CM? then c else if e.prev.NoBase() then AL else e.prevNoSpace)
  {
    hide Rule, TableVerdict;
    var c' := if c.CM? && e.prev.NoBase() then AL else c;
    if c'.CM? {
      MarkStays(e.prev, e.prevNoSpace, skip25);
    } else {
      RulesAreTable(e.prev, e.prevNoSpace, c', skip25);
    }
  }

  lemma MarkStays(p: Class, q: Class, skip25: bool)
    requires !p.NoBase() && q == p
    ensures Rule(p, q, CM, skip25) == Report(Prohibited)
  {}

  lemma PrefixOf(cs: seq<Class>, c: Class)
    ensures (cs + [c])[..|cs|] == cs
  {}

  // What the text says after one more character.
  lemma LastMore(cs: seq<Class>, c: Class)
    ensures var p, q, n := Last(cs), LastSolid(cs), Numbers(cs);
      Last(cs + [c]) == (if !c.CM? then c else if p.NoBase() then AL else p) &&
      LastSolid(cs + [c]) == (if c.SP? then q else if !c.CM? then c else if p.NoBase() then AL else q)
    ensures Numbers(cs + [c]) ==
      if c.NU? then InNumber
      else if c.CM? then Numbers(cs)
      else if Numbers(cs).InNumber? && (c.SY? || c.IS?) then InNumber
      else if Numbers(cs).InNumber? && (c.CL? || c.CP?) then AfterNumber
      else NoNumber
  {
    PrefixOf(cs, c);
  }

  lemma LastVerdict(cs: seq<Class>, c: Class)
    ensures TextVerdict(cs + [c], |cs|) ==
      var p, q, n := Last(cs), LastSolid(cs), Numbers(cs);
      if n.InNumber? && (c.NU? || c.SY? || c.IS? || c.CM? || c.CL? || c.CP? || c.PR? || c.PO?) then Prohibited
      else if n.AfterNumber? && (c.CM? || c.PR? || c.PO?) then Prohibited
      else if c.OP? && p.Affix() then Allowed
      else PlainVerdict(p, q, c)
  {
    hide TableVerdict;
    PrefixOf(cs, c);
  }

  // One character, when nothing is held and it is not held either.
  lemma NextReads(e: Engine, cs: seq<Class>, c: Class)
    requires Start !in cs && !c.Start? && Reads(e, cs) && !(c.OP? && Last(cs).Affix())
    ensures var (e', v) := Next(e, c); Reads(e', cs + [c]) && v == [TextVerdict(cs + [c], |cs|)]
  {
    hide NextDefault, PlainVerdict, TextVerdict, Last, LastSolid, Numbers;
    LastMeans(cs);
    LastMore(cs, c);
    LastVerdict(cs, c);
    DefaultPlain(e.(handler := Default), c, false);
  }

  // The engine holds an opening bracket after a symbol, and the marks on it.
  ghost predicate Holds(e: Engine, cs: seq<Class>) {
    var m := TrailingMarks(cs);
    var j := |cs| - m - 1;
    j >= 0 && cs[j].OP? && e.handler == Opened(OP, m) && Last(cs[..j]).Affix() && e.prev == Last(cs[..j]) &&
    e.prevNoSpace == LastSolid(cs[..j])
  }

  lemma {:induction false} MarksMean(cs: seq<Class>)
    ensures TrailingMarks(cs) <= |cs| && forall i :: |cs| - TrailingMarks(cs) <= i < |cs| ==> cs[i].CM?
  {
    if cs != [] && cs[|cs| - 1].CM? {
      MarksMean(cs[..|cs| - 1]);
    }
  }

  lemma OpensHeld(e: Engine, cs: seq<Class>, c: Class)
    requires Start !in cs && Reads(e, cs) && c.OP? && Last(cs).Affix()
    ensures var (e', v) := Next(e, c); Holds(e', cs + [c]) && v == []
  {
    LastMeans(cs);
    PrefixOf(cs, c);
    RulesAreTable(e.prev, e.prevNoSpace, OP, false);
  }

  lemma MarkHeld(e: Engine, cs: seq<Class>, c: Class)
    requires Holds(e, cs) && c.CM?
    ensures var (e', v) := Next(e, c); Holds(e', cs + [c]) && v == []
  {
    PrefixOf(cs, c);
    MarksMean(cs);
    var j := |cs| - TrailingMarks(cs) - 1;
    assert (cs + [c])[..j] == cs[..j];
  }

  // After the bracket and some of its marks.
  lemma {:induction false} AfterBracket(cs: seq<Class>, j: nat, k: nat)
    requires j < k <= |cs| && cs[j].OP? && forall i :: j < i < k ==> cs[i].CM?
    ensures Last(cs[..k]) == OP && LastSolid(cs[..k]) == OP && Numbers(cs[..k]) == NoNumber
    decreases k
  {
    assert cs[..k][..k - 1] == cs[..k - 1];
    if k > j + 1 {
      AfterBracket(cs, j, k - 1);
    }
  }

  lemma {:induction false} DigitAfterMarks(cs: seq<Class>, k: nat, n: nat)
    requires k <= n < |cs| && !cs[n].CM? && forall i :: k <= i < n ==> cs[i].CM?
    ensures DigitNext(cs, k) <==> cs[n].NU?
    decreases n - k
  {
    if k < n {
      DigitAfterMarks(cs, k + 1, n);
    }
  }

  // The verdicts on a bracket that was held, its marks, and the character after them.
  lemma HeldVerdicts(cs: seq<Class>, j: nat, n: nat, i: nat)
    requires j < n < |cs| && cs[j].OP? && Last(cs[..j]).Affix() && !cs[n].CM? && forall k :: j < k < n ==> cs[k].CM?
    requires j <= i <= n
    ensures TextVerdict(cs, i) ==
      if i == j then (if cs[n].NU? then Prohibited else Allowed)
      else if i < n then Prohibited
      else TableVerdict(OP, OP, cs[n])
  {
    hide TableVerdict;
    if i == j {
      DigitAfterMarks(cs, j + 1, n);
    } else {
      AfterBracket(cs, j, i);
    }
  }

  lemma {:induction false} ReplayMarks(e: Engine, n: nat)
    requires e == Engine(OP, OP, Default)
    ensures Replay(e, OP, n, false) == (e, seq(n, _ => Prohibited))
  {
    hide NextDefault;
    if n > 0 {
      DefaultPlain(e, OP, false);
      assert NextDefault(e, OP, false) == (e, [Prohibited]);
      ReplayMarks(e, n - 1);
      assert [Prohibited] + seq(n - 1, _ => Prohibited) == seq(n, _ => Prohibited);
    } else {
      assert seq(n, _ => Prohibited) == [];
    }
  }

  lemma ReplayHeld(e: Engine, m: nat)
    requires e.handler.Default? && e.prev.Affix() && e.prevNoSpace == e.prev
    ensures Replay(e, OP, m + 1, true) == (Engine(OP, OP, Default), [Allowed] + seq(m, _ => Prohibited))
  {
    hide NextDefault;
    DefaultPlain(e, OP, true);
    ReplayMarks(Engine(OP, OP, Default), m);
  }

  // The held characters are reported with the next one.
  function HeldAnswer(c: Class, m: nat): (v: seq<Verdict>)
    ensures |v| == m + 2
  {
    [if c.NU? then Prohibited else Allowed] + seq(m, _ => Prohibited) + [TableVerdict(OP, OP, c)]
  }

  lemma HeldAnswers(e: Engine, c: Class, m: nat)
    requires e.handler == Opened(OP, m) && e.prev.Affix() && e.prevNoSpace == e.prev && !c.CM? && !c.Start?
    ensures Next(e, c) == (Engine(c, if c.SP? then OP else c, if c.NU? then Number else Default), HeldAnswer(c, m))
  {
    hide NextDefault, TableVerdict;
    if c.NU? {
      DigitStaysWithBracket();
      assert seq(m + 2, _ => Prohibited) == [Prohibited] + seq(m, _ => Prohibited) + [Prohibited];
    } else {
      ReplayHeld(e.(handler := Default), m);
      DefaultPlain(Engine(OP, OP, Default), c, false);
    }
  }

  lemma DigitStaysWithBracket()
    ensures TableVerdict(OP, OP, NU) == Prohibited
  {}

  lemma HeldTexts(cs: seq<Class>, c: Class)
    requires Start !in cs && !c.CM? && !c.Start?
    requires var j := |cs| - TrailingMarks(cs) - 1; j >= 0 && cs[j].OP? && Last(cs[..j]).Affix()
    ensures var j, v := |cs| - TrailingMarks(cs) - 1, HeldAnswer(c, TrailingMarks(cs));
      forall i :: 0 <= i < |v| ==> v[i] == TextVerdict(cs + [c], j + i)
  {
    hide TextVerdict, Last, LastSolid, Numbers, TableVerdict;
    var m := TrailingMarks(cs);
    var j, v := |cs| - m - 1, HeldAnswer(c, m);
    MarksMean(cs);
    assert (cs + [c])[..j] == cs[..j];
    forall i | 0 <= i < |v| ensures v[i] == TextVerdict(cs + [c], j + i) {
      HeldVerdicts(cs + [c], j, |cs|, j + i);
    }
  }

  lemma HeldReported(e: Engine, cs: seq<Class>, c: Class)
    requires Start !in cs && Holds(e, cs) && !c.CM? && !c.Start?
    ensures var (e', v) := Next(e, c);
      var j := |cs| - TrailingMarks(cs) - 1;
      Reads(e', cs + [c]) && |v| == TrailingMarks(cs) + 2 &&
      forall i :: 0 <= i < |v| ==> v[i] == TextVerdict(cs + [c], j + i)
  {
    hide Next, TextVerdict, Last, LastSolid, Numbers, HeldAnswer;
    var m := TrailingMarks(cs);
    MarksMean(cs);
    HeldEnds(cs, c, |cs| - m - 1);
    LastMore(cs, c);
    HeldAnswers(e, c, m);
    HeldTexts(cs, c);
  }

  lemma HeldEnds(cs: seq<Class>, c: Class, j: nat)
    requires Start !in cs && j < |cs| && cs[j].OP? && (forall i :: j < i < |cs| ==> cs[i].CM?) && Last(cs[..j]).Affix()
    ensures (cs + [c])[..j] == cs[..j] && Last(cs) == OP && LastSolid(cs) == OP && Numbers(cs) == NoNumber
    ensures LastSolid(cs[..j]) == Last(cs[..j])
  {
    AfterBracket(cs, j, |cs|);
    LastMeans(cs[..j]);
    assert cs[..|cs|] == cs;
  }

  // A verdict that is out does not change with what comes later.
  lemma VerdictStays(cs: seq<Class>, c: Class, i: nat)
    requires i < |cs| && (cs[i].OP? && Last(cs[..i]).Affix() ==> exists k :: i < k < |cs| && !cs[k].CM?)
    ensures TextVerdict(cs + [c], i) == TextVerdict(cs, i)
  {
    hide TableVerdict, Last, LastSolid, Numbers;
    assert (cs + [c])[..i] == cs[..i];
    if cs[i].OP? && Last(cs[..i]).Affix() {
      var k :| i < k < |cs| && !cs[k].CM?;
      DigitStays(cs, c, i + 1, k);
    }
  }

  lemma {:induction false} DigitStays(cs: seq<Class>, c: Class, i: nat, k: nat)
    requires i <= k < |cs| && !cs[k].CM?
    ensures DigitNext(cs + [c], i) == DigitNext(cs, i)
    decreases k - i
  {
    if cs[i].CM? {
      DigitStays(cs, c, i + 1, k);
    }
  }

  ghost predicate ReadsOrHolds(e: Engine, cs: seq<Class>, n: nat) {
    if e.handler.Opened? then Holds(e, cs) && n == |cs| - TrailingMarks(cs) - 1 else Reads(e, cs) && n == |cs|
  }

  /** Every verdict of the engine, for every text, is the one read off the text. */
  lemma {:induction false} VerdictsAreText(cs: seq<Class>)
    requires Start !in cs
    ensures var (e, v) := Feed(cs);
      ReadsOrHolds(e, cs, |v|) && |v| <= |cs| && forall i :: 0 <= i < |v| ==> v[i] == TextVerdict(cs, i)
  {
    hide Next, TextVerdict, Last, LastSolid, Numbers, TrailingMarks, Feed, EndsOpened, ReadsOrHolds;
    if cs == [] {
      NothingRead();
    } else {
      var init, c := cs[..|cs| - 1], cs[|cs| - 1];
      assert init + [c] == cs;
      VerdictsAreText(init);
      OpenedEnds(init);
      FeedPush(init, c);
      var (e, v) := Feed(init);
      NextVerdicts(e, init, c, |v|);
      VerdictsStay(e, init, c, |v|);
      VerdictsAppended(init, c, v, Next(e, c).1);
    }
  }

  lemma OpenedEnds(cs: seq<Class>)
    requires Start !in cs
    ensures !Feed(cs).0.handler.Opened? ==> !EndsOpened(cs)
  {
    hide Feed;
    FeedReports(cs);
  }

  lemma VerdictsAppended(cs: seq<Class>, c: Class, u: seq<Verdict>, v: seq<Verdict>)
    requires |u| <= |cs| && |u| + |v| <= |cs| + 1
    requires forall i :: 0 <= i < |u| ==> u[i] == TextVerdict(cs, i) == TextVerdict(cs + [c], i)
    requires forall i :: 0 <= i < |v| ==> v[i] == TextVerdict(cs + [c], |u| + i)
    ensures forall i :: 0 <= i < |u + v| ==> (u + v)[i] == TextVerdict(cs + [c], i)
  {
    hide TextVerdict;
    forall i | 0 <= i < |u + v| ensures (u + v)[i] == TextVerdict(cs + [c], i) {
      assert i >= |u| ==> (u + v)[i] == v[i - |u|];
    }
  }

  lemma NothingRead()
    ensures Feed([]) == (Initial, []) && ReadsOrHolds(Initial, [], 0)
  {}

  lemma VerdictsStay(e: Engine, cs: seq<Class>, c: Class, n: nat)
    requires Start !in cs && ReadsOrHolds(e, cs, n) && n <= |cs| && (!e.handler.Opened? ==> !EndsOpened(cs))
    ensures forall i :: 0 <= i < n ==> TextVerdict(cs + [c], i) == TextVerdict(cs, i)
  {
    hide TextVerdict, LastSolid, Numbers;
    MarksMean(cs);
    forall i | 0 <= i < n ensures TextVerdict(cs + [c], i) == TextVerdict(cs, i) {
      if e.handler.Opened? {
        assert !cs[n].CM?;
      } else if cs[i].OP? && Last(cs[..i]).Affix() && forall k :: i < k < |cs| ==> cs[k].CM? {
        BracketEnds(cs, i);
      }
      VerdictStays(cs, c, i);
    }
  }

  lemma {:induction false} BaseOf(cs: seq<Class>)
    ensures Last(cs).Affix() ==> LastBase(cs) == Last(cs)
  {
    if cs != [] {
      BaseOf(cs[..|cs| - 1]);
    }
  }

  lemma {:induction false} BracketEnds(cs: seq<Class>, i: nat)
    requires i < |cs| && cs[i].OP? && Last(cs[..i]).Affix() && forall k :: i < k < |cs| ==> cs[k].CM?
    ensures EndsOpened(cs)
  {
    var init := cs[..|cs| - 1];
    if i < |cs| - 1 {
      assert init[..i] == cs[..i];
      BracketEnds(init, i);
    } else {
      BaseOf(init);
    }
  }

  lemma NextVerdicts(e: Engine, cs: seq<Class>, c: Class, n: nat)
    requires Start !in cs && !c.Start? && ReadsOrHolds(e, cs, n) && n <= |cs|
    ensures var (e', v) := Next(e, c);
      ReadsOrHolds(e', cs + [c], n + |v|) && n + |v| <= |cs| + 1 &&
      forall i :: 0 <= i < |v| ==> v[i] == TextVerdict(cs + [c], n + i)
  {
    hide Next, TextVerdict, Last, LastSolid, Numbers;
    if e.handler.Opened? {
      MarksMean(cs);
      if c.CM? {
        MarkHeld(e, cs, c);
      } else {
        HeldReported(e, cs, c);
      }
    } else if c.OP? && Last(cs).Affix() {
      OpensHeld(e, cs, c);
    } else {
      NextReads(e, cs, c);
    }
  }
}
