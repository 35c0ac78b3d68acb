/** The line-breaking engine of Unicode Annex 14: a state machine that is fed the
    class of one character at a time and reports, for every character in order,
    whether a line may be broken before it. Some reports are held back. */
module LineBreaks {

  // Start is the state before the first character, never the class of one.
  datatype Class =
    | BK | CR | LF | CM | NL | SG | WJ | ZW | GL | SP | B2 | BA | BB | HY | CB | CL
    | CP | EX | IN | NS | OP | QU | IS | NU | PO | PR | SY | AI | AL | H2 | H3 | ID
    | JL | JV | JT | SA | Start
  {
    predicate Affix() { PR? || PO? }
    predicate BreaksAfter() { BK? || CR? || LF? || NL? }
    predicate NoBase() { Start? || BreaksAfter() || SP? || ZW? }
  }

  datatype Verdict = Mandatory | Prohibited | Allowed

  // What the engine does with the next character. Opened: a prefix or postfix
  // symbol was followed by an opening punctuation and by `marks` combining marks,
  // and their verdicts wait for the next character (rule LB25).
  datatype Handler = Default | Opened(saved: Class, marks: nat) | Number | NumberClosed

  datatype Engine = Engine(prev: Class, prevNoSpace: Class, handler: Handler)
  {
    function Pending(): nat { if handler.Opened? then handler.marks + 1 else 0 }
  }

  const Initial := Engine(Start, Start, Default)

  datatype Ruling = Report(verdict: Verdict) | Hold

  // The pair rules, in the order in which they are tried, once combining marks
  // that have nothing to combine with have become letters.
  function Rule(prev: Class, nsp: Class, cls: Class, skip25: bool): Ruling {
    if prev.Start? then Report(Prohibited)
    else if prev.CR? && cls.LF? then Report(Prohibited)
    else if prev.BreaksAfter() then Report(Mandatory)
    else if (cls.BreaksAfter() || cls.SP? || cls.ZW?) then Report(Prohibited)
    else if nsp.ZW? then Report(Allowed)
    else if cls.CM? then Report(Prohibited)
    else if prev.WJ? || cls.WJ? then Report(Prohibited)
    else if prev.GL? then Report(Prohibited)
    else if cls.GL? && !(prev.SP? || prev.BA? || prev.HY?) then Report(Prohibited)
    else if cls.SY? && prev.SP? then Report(Allowed)
    else if cls.SY? || cls.CL? || cls.CP? || cls.EX? || cls.IS? then Report(Prohibited)
    else if prev.SY? && (cls.EX? || cls.AL? || cls.ID?) then Report(Prohibited)
    else if nsp.OP? then Report(Prohibited)
    else if nsp.QU? && cls.OP? then Report(Prohibited)
    else if (nsp.CL? || nsp.CP?) && cls.NS? then Report(Prohibited)
    else if nsp.B2? && cls.B2? then Report(Prohibited)
    else if prev.SP? then Report(Allowed)
    else if cls.QU? || prev.QU? then Report(Prohibited)
    else if cls.CB? || prev.CB? then Report(Allowed)
    else if (cls.BA? || cls.HY? || cls.NS?) || prev.BB? then Report(Prohibited)
    else if cls.IN? && (prev.AL? || prev.ID? || prev.IN? || prev.NU?) then Report(Prohibited)
    else if (prev.ID? && cls.PO?) || (prev.AL? && cls.NU?) || (prev.NU? && cls.AL?) then
      Report(Prohibited)
    else if (prev.PR? && (cls.ID? || cls.AL?)) || (prev.PO? && cls.AL?) then Report(Prohibited)
    else if cls.PR? && (prev.PR? || prev.AL? || prev.ID?) then Report(Prohibited)
    else if !skip25 && prev.Affix() && cls.NU? then Report(Prohibited)
    else if !skip25 && prev.Affix() && (cls.OP? || cls.HY?) then Hold
    else if (prev.OP? || prev.HY?) && cls.NU? then Report(Prohibited)
    else if prev.JL? && (cls.JL? || cls.JV? || cls.H2? || cls.H3?) then Report(Prohibited)
    else if (prev.JV? || prev.H2?) && (cls.JV? || cls.JT?) then Report(Prohibited)
    else if (prev.JT? || prev.H3?) && cls.JT? then Report(Prohibited)
    else if (prev.JL? || prev.JV? || prev.JT? || prev.H2? || prev.H3?) && (cls.IN? || cls.PO?) then Report(Prohibited)
    else if (cls.JL? || cls.JV? || cls.JT? || cls.H2? || cls.H3?) && prev.PR? then Report(Prohibited)
    else if (prev.AL? || prev.IS?) && cls.AL? then Report(Prohibited)
    else if (prev.AL? || prev.NU?) && cls.OP? then Report(Prohibited)
    else if (cls.AL? || cls.NU?) && prev.CP? then Report(Prohibited)
    else Report(Allowed)
  }

  // next_def_nolb25
  function NextDefault(e: Engine, cls: Class, skip25: bool): (Engine, seq<Verdict>) {
    var c := if cls.CM? && e.prev.NoBase() then AL else cls;
    var ruling := Rule(e.prev, e.prevNoSpace, c, skip25);
    var kept := e.(handler := if cls.NU? then Number else e.handler);
    if ruling.Hold? then (e.(handler := Opened(cls, 0)), [])
    else if c.CM? then (kept, [ruling.verdict])
    else (kept.(prev := c, prevNoSpace := if c.SP? then e.prevNoSpace else c), [ruling.verdict])
  }

  // unwind_lb25_seenophy: report the held characters after all, each under the
  // class of the opening punctuation; only the first skips rule LB25.
  function Replay(e: Engine, saved: Class, n: nat, skip25: bool): (Engine, seq<Verdict>)
    decreases n
  {
    if n == 0 then (e, []) else
      var (e1, v1) := NextDefault(e, saved, skip25);
      var (e2, v2) := Replay(e1, saved, n - 1, false);
      (e2, v1 + v2)
  }

  // unicode_lb_next
  function Next(e: Engine, cls: Class): (Engine, seq<Verdict>) {
    match e.handler
    case Default => NextDefault(e, cls, false)
    case Opened(saved, marks) =>
      if cls.CM? then (e.(handler := Opened(saved, marks + 1)), [])
      else if cls.NU? then
        (Engine(NU, NU, Number), seq(marks + 2, _ => Prohibited))
      else
        var (e1, v1) := Replay(e.(handler := Default), saved, marks + 1, true);
        var (e2, v2) := NextDefault(e1, cls, false);
        (e2, v1 + v2)
    case Number =>
      if cls.NU? || cls.SY? || cls.IS? then (Engine(cls, cls, Number), [Prohibited])
      else if cls.CM? then (e, [Prohibited])
      else if cls.CL? || cls.CP? then (Engine(cls, cls, NumberClosed), [Prohibited])
      else if cls.PR? || cls.PO? then (Engine(cls, cls, Default), [Prohibited])
      else NextDefault(e.(handler := Default), cls, false)
    case NumberClosed =>
      if cls.CM? then (e, [Prohibited])
      else if cls.PR? || cls.PO? then (Engine(cls, cls, Default), [Prohibited])
      else NextDefault(e.(handler := Default), cls, false)
  }

  // The engine and everything it has reported after reading cs.
  function Feed(cs: seq<Class>): (Engine, seq<Verdict>) {
    if cs == [] then (Initial, []) else
      var (e, v) := Feed(cs[..|cs| - 1]);
      var (e', w) := Next(e, cs[|cs| - 1]);
      (e', v + w)
  }

  lemma FeedPush(cs: seq<Class>, cls: Class)
    ensures var (e, v) := Feed(cs);
      var (e', w) := Next(e, cls);
      Feed(cs + [cls]) == (e', v + w)
  {
    assert (cs + [cls])[..|cs|] == cs;
  }

  // unicode_lb_end: the reports for whatever was still held.
  function Finish(e: Engine): seq<Verdict> {
    if e.handler.Opened? then
      Replay(e.(handler := Default), e.handler.saved, e.handler.marks + 1, true).1
    else []
  }

  // --- Which texts leave a report pending --------------------------------------

  // The class of the last character that is not a combining mark.
  function LastBase(cs: seq<Class>): Class {
    if cs == [] then Start
    else if cs[|cs| - 1] == CM then LastBase(cs[..|cs| - 1])
    else cs[|cs| - 1]
  }

  /** The text ends in a prefix or postfix symbol and an opening punctuation, each
      possibly carrying combining marks: "$(" or "%(". */
  predicate EndsOpened(cs: seq<Class>) {
    cs != [] &&
    var init, last := cs[..|cs| - 1], cs[|cs| - 1];
    if last.CM? then EndsOpened(init) else last.OP? && LastBase(init).Affix()
  }

  function TrailingMarks(cs: seq<Class>): nat {
    if cs != [] && cs[|cs| - 1] == CM then TrailingMarks(cs[..|cs| - 1]) + 1 else 0
  }

  ghost predicate Tracks(e: Engine, cs: seq<Class>) {
    (e.prev != SP ==> e.prevNoSpace == e.prev) && e.prev != CM &&
    (e.prev.Start? <==> cs == []) &&
    match e.handler
    case Opened(saved, marks) =>
      saved.OP? && e.prev.Affix() && EndsOpened(cs) && marks == TrailingMarks(cs)
    case _ =>
      !EndsOpened(cs) &&
      (e.prev.Affix() <==> LastBase(cs).Affix()) &&
      (e.handler.Default? || (e.prev.NU? || e.prev.SY? || e.prev.IS? || e.prev.CL? || e.prev.CP?))
  }

  lemma {:induction false} ReplayReports(e: Engine, n: nat)
    requires e.handler.Default? && e.prev.OP? && e.prevNoSpace.OP?
    ensures var (e', v) := Replay(e, OP, n, false); e' == e && |v| == n
  {
    if n > 0 {
      ReplayReports(e, n - 1);
    }
  }

  lemma ReplayAll(e: Engine, marks: nat)
    requires e.handler.Default? && e.prev.Affix() && e.prevNoSpace == e.prev
    ensures var (e', v) := Replay(e, OP, marks + 1, true);
      e' == Engine(OP, OP, Default) && |v| == marks + 1
  {
    ReplayReports(Engine(OP, OP, Default), marks);
  }

  lemma EndsOpenedBase(cs: seq<Class>)
    requires EndsOpened(cs)
    ensures LastBase(cs) == OP
  {}

  // What one step of the default handler does, with the pair rules summed up.
  lemma DefaultStep(e: Engine, cls: Class)
    requires e.handler.Default? && !e.prev.CM? && !cls.Start?
    requires e.prev.SP? || e.prevNoSpace == e.prev
    ensures var (e', v) := NextDefault(e, cls, false);
      if e.prev.Affix() && cls.OP? then e' == e.(handler := Opened(OP, 0)) && v == []
      else
        |v| == 1 && e'.handler == (if cls.NU? then Number else Default) &&
        e'.prev == (if !cls.CM? then cls else if e.prev.NoBase() then AL else e.prev) &&
        (e'.prev.SP? || e'.prevNoSpace == e'.prev)
  {}

  lemma DefaultTracks(e: Engine, cs: seq<Class>, cls: Class)
    requires Tracks(e, cs) && !cls.Start? && e.handler.Default?
    ensures var (e', v) := NextDefault(e, cls, false);
      Tracks(e', cs + [cls]) && |v| + e'.Pending() == 1
  {
    assert (cs + [cls])[..|cs|] == cs;
    DefaultStep(e, cls);
  }

  lemma OpenedReplays(e: Engine, cls: Class)
    requires e.handler.Opened? && e.handler.saved.OP? && e.prev.Affix() && e.prevNoSpace == e.prev
    requires !cls.CM? && !cls.NU? && !cls.Start?
    ensures var (e', v) := Next(e, cls);
      |v| == e.handler.marks + 2 && e'.handler.Default? && e'.prev == cls &&
      (cls.SP? || e'.prevNoSpace == cls)
  {
    ReplayAll(e.(handler := Default), e.handler.marks);
    DefaultStep(Engine(OP, OP, Default), cls);
  }

  lemma OpenedTracks(e: Engine, cs: seq<Class>, cls: Class)
    requires Tracks(e, cs) && !cls.Start? && e.handler.Opened?
    ensures var (e', v) := Next(e, cls);
      Tracks(e', cs + [cls]) && |v| + e'.Pending() == e.Pending() + 1
  {
    assert (cs + [cls])[..|cs|] == cs;
    EndsOpenedBase(cs);
    if !cls.CM? && !cls.NU? {
      OpenedReplays(e, cls);
    }
  }

  lemma NumberTracks(e: Engine, cs: seq<Class>, cls: Class)
    requires Tracks(e, cs) && !cls.Start? && (e.handler.Number? || e.handler.NumberClosed?)
    ensures var (e', v) := Next(e, cls);
      Tracks(e', cs + [cls]) && |v| + e'.Pending() == e.Pending() + 1
  {
    assert (cs + [cls])[..|cs|] == cs;
    DefaultStep(e.(handler := Default), cls);
  }

  lemma NextTracks(e: Engine, cs: seq<Class>, cls: Class)
    requires Tracks(e, cs) && !cls.Start?
    ensures var (e', v) := Next(e, cls);
      Tracks(e', cs + [cls]) && |v| + e'.Pending() == e.Pending() + 1
  {
    match e.handler
    case Default => DefaultTracks(e, cs, cls);
    case Opened(_, _) => OpenedTracks(e, cs, cls);
    case _ => NumberTracks(e, cs, cls);
  }

  /** After reading cs the engine has reported on all characters but those of a
      held tail, and a tail is held exactly when cs ends opened. */
  lemma {:induction false} FeedReports(cs: seq<Class>)
    requires Start !in cs
    ensures var (e, v) := Feed(cs);
      Tracks(e, cs) && |v| + e.Pending() == |cs| &&
      e.Pending() == if EndsOpened(cs) then TrailingMarks(cs) + 1 else 0
  {
    hide Next;
    if cs != [] {
      var init := cs[..|cs| - 1];
      FeedReports(init);
      NextTracks(Feed(init).0, init, cs[|cs| - 1]);
      assert init + [cs[|cs| - 1]] == cs;
    }
  }

  /** The contract of the engine: by the time it is finished it has reported once
      for every character it was fed. */
  lemma EveryCharacterReported(cs: seq<Class>)
    requires Start !in cs
    ensures var (e, v) := Feed(cs); |v + Finish(e)| == |cs|
  {
    FeedReports(cs);
    var e := Feed(cs).0;
    if e.handler.Opened? {
      ReplayAll(e.(handler := Default), e.handler.marks);
    }
  }

  lemma {:induction false} FirstVerdict(cs: seq<Class>)
    requires Start !in cs && cs != []
    ensures |Feed(cs).1| > 0 && Feed(cs).1[0] == Prohibited
  {
    var init := cs[..|cs| - 1];
    if init == [] {
      assert Feed(cs).1 == Next(Initial, cs[0]).1;
    } else {
      FirstVerdict(init);
    }
  }

  // A held tail is an opening punctuation and combining marks.
  lemma {:induction false} HeldClasses(cs: seq<Class>)
    requires EndsOpened(cs)
    ensures var n := |cs| - TrailingMarks(cs) - 1;
      0 <= n && forall i :: n <= i < |cs| ==> cs[i].CM? || cs[i].OP?
  {
    if cs[|cs| - 1].CM? {
      HeldClasses(cs[..|cs| - 1]);
    }
  }

  // What is left before a held tail does not end in a space.
  lemma {:induction false} BeforeHeldTail(cs: seq<Class>)
    requires EndsOpened(cs)
    ensures var n := |cs| - TrailingMarks(cs) - 1;
      0 < n < |cs| && (cs[n - 1].CM? || cs[n - 1].Affix())
  {
    var init := cs[..|cs| - 1];
    if cs[|cs| - 1].CM? {
      BeforeHeldTail(init);
    } else {
      assert init != [];
    }
  }
}
