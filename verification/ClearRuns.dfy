/** A run of presses of the key that clears to the end of the line, and what pasting
    after it brings back. */
module ClearRuns {
  import opened Columns
  import opened EditorState

  function Presses(f: Font, s: State, n: nat): (r: State)
    requires s.Valid()
    ensures r.Valid()
  {
    if n == 0 then s else PressClearToEol(f, Presses(f, s, n - 1))
  }

  lemma PressesStep(f: Font, s: State, n: nat)
    requires s.Valid() && n > 0
    ensures Presses(f, s, n) == PressClearToEol(f, Presses(f, s, n - 1))
  {}

  lemma NoPresses(f: Font, s: State)
    requires s.Valid()
    ensures Presses(f, s, 0) == s
  {}

  // How far a run has come: lines joined to the first one, and whether what was
  // behind the cursor has been cleared since.
  datatype Progress = Progress(joined: nat, cleared: bool)

  // What the run finds behind the cursor after joining j lines.
  function Tail(s: State, k: nat, j: nat): seq<char>
    requires s.Valid() && s.row + j < |s.text| && k <= |s.Here().text|
  {
    if j == 0 then s.Here().text[k..] else s.text[s.row + j].text
  }

  function ProgressOf(s: State, k: nat, n: nat): (p: Progress)
    requires s.Valid() && k <= |s.Here().text|
    ensures s.row + p.joined < |s.text|
    ensures !p.cleared ==> Tail(s, k, p.joined) != []
  {
    if n == 0 then Progress(0, Tail(s, k, 0) == []) else
      var p := ProgressOf(s, k, n - 1);
      if !p.cleared then Progress(p.joined, true)
      else if s.row + p.joined + 1 < |s.text| then Progress(p.joined + 1, Tail(s, k, p.joined + 1) == [])
      else p
  }

  // The document during the run.
  function RunText(s: State, k: nat, p: Progress): seq<Line>
    requires s.Valid() && k <= |s.Here().text| && s.row + p.joined < |s.text|
  {
    var rest := if p.cleared then [] else Tail(s, k, p.joined);
    Splice(s.text, s.row, p.joined + 1, [Line(s.Here().text[..k] + rest, s.text[s.row + p.joined].flowed)])
  }

  // The entry of the cut buffer for a line that was joined and cleared. An empty
  // line leaves the entry made for the line break before it, with its flag.
  function Entry(s: State, k: nat, j: nat): Line
    requires s.Valid() && k <= |s.Here().text| && s.row + j < |s.text|
  {
    Line(Tail(s, k, j),
         if j > 0 && Tail(s, k, j) == [] then s.text[s.row + j - 1].flowed else s.text[s.row + j].flowed)
  }

  function Entries(s: State, k: nat, m: nat): (r: seq<Line>)
    requires s.Valid() && k <= |s.Here().text| && s.row + m <= |s.text|
    ensures |r| == m
  {
    if m == 0 then [] else Entries(s, k, m - 1) + [Entry(s, k, m - 1)]
  }

  // The cut buffer during a run that started inside a line.
  function RunBuffer(s: State, k: nat, p: Progress): seq<Line>
    requires s.Valid() && k <= |s.Here().text| && s.row + p.joined < |s.text|
  {
    if p.cleared then Entries(s, k, p.joined + 1)
    else if p.joined == 0 then []
    else Entries(s, k, p.joined) + [Line([], s.text[s.row + p.joined - 1].flowed)]
  }

  ghost predicate InRun(f: Font, s: State, k: nat, p: Progress, r: State)
    requires s.Valid() && k <= |s.Here().text| && s.row + p.joined < |s.text|
  {
    r.Valid() && !r.marked && r.row == s.row && r.col == Width(f, s.Here().text[..k]) &&
    r.text == RunText(s, k, p) &&
    if Tail(s, k, 0) != [] then r.cut == RunBuffer(s, k, p) else |r.cut| == p.joined
  }

  // The presses' own steps, away from the history.

  lemma RegionToEnd(f: Font, r: State)
    requires r.Valid()
    ensures var line := r.Here().text;
      Marked(f, ToEnd(f, SetMark(f, r))) == (Region(r.row, r.Index(f), r.row, |line|), false)
  {
    RestAtEnd(f, r.Here().text);
  }

  // A press anywhere in a line clears what is behind the cursor.
  lemma ClearAnywhere(f: Font, r: State)
    requires r.Valid() && r.lastKey.ClearToEol? && r.After(f) != []
    ensures var q := PressClearToEol(f, r);
      !q.marked && q.row == r.row && q.col == Width(f, r.Before(f)) && q.lastKey.ClearToEol? &&
      q.text == r.text[r.row := Line(r.Before(f), r.Here().flowed)] &&
      q.cut == (if r.cut == [] then [] else r.cut[..|r.cut| - 1]) + [Line(r.After(f), r.Here().flowed)]
    ensures PressClearToEol(f, r).After(f) == []
  {
    hide Marked, IndexOfCol;
    var line, k := r.Here().text, r.Index(f);
    RegionToEnd(f, BeforeKey(f, r, ClearToEol));
    RestAtEnd(f, r.Before(f));
    assert line[..|line|] == line;
    assert line[..k] + line[|line|..] == line[..k];
  }

  lemma ClearRest(f: Font, r: State, before: seq<char>, rest: seq<char>)
    requires r.Valid() && r.lastKey.ClearToEol? && !r.marked
    requires r.Here().text == before + rest && r.col == Width(f, before) && rest != [] && Joins(f, before, rest)
    ensures var q := PressClearToEol(f, r);
      !q.marked && q.row == r.row && q.col == r.col && q.lastKey.ClearToEol? &&
      q.text == r.text[r.row := Line(before, r.Here().flowed)] &&
      q.cut == (if r.cut == [] then [] else r.cut[..|r.cut| - 1]) + [Line(rest, r.Here().flowed)]
  {
    hide PressClearToEol, Joins;
    JoinColumn(f, before, rest);
    assert (before + rest)[..|before|] == before && (before + rest)[|before|..] == rest;
    ClearAnywhere(f, r);
  }

  lemma SwallowBreak(f: Font, r: State)
    requires r.Valid() && r.lastKey.ClearToEol? && !r.marked && r.Index(f) == |r.Here().text|
    ensures var q := PressClearToEol(f, r);
      !q.marked && q.row == r.row && q.lastKey.ClearToEol? &&
      q.cut == r.cut + [Line([], r.Here().flowed)] && q.col == Width(f, r.Here().text) &&
      if r.row + 1 < |r.text| then
        q.text == Splice(r.text, r.row, 2, [Line(r.Here().text + r.text[r.row + 1].text, r.text[r.row + 1].flowed)])
      else q.text == r.text
  {
    var t := r.Here().text;
    RestAtEnd(f, t);
    assert t[..|t|] == t && t[|t|..] == [];
  }

  // One press, along the history of the run.

  lemma SpliceOver(text: seq<Line>, at: nat, cnt: nat, a: Line, more: nat, lines: seq<Line>)
    requires at + cnt + more <= |text|
    ensures Splice(Splice(text, at, cnt, [a]), at, 1 + more, lines) == Splice(text, at, cnt + more, lines)
  {}

  lemma SpliceOne(text: seq<Line>, i: nat, line: Line)
    requires i < |text|
    ensures Splice(text, i, 1, [line]) == text[i := line]
  {}

  lemma RunLine(s: State, k: nat, p: Progress)
    requires s.Valid() && k <= |s.Here().text| && s.row + p.joined < |s.text|
    ensures var t := RunText(s, k, p);
      |t| == |s.text| - p.joined &&
      t[s.row].text == s.Here().text[..k] + (if p.cleared then [] else Tail(s, k, p.joined)) &&
      t[s.row].flowed == s.text[s.row + p.joined].flowed &&
      (s.row + p.joined + 1 < |s.text| ==> t[s.row + 1] == s.text[s.row + p.joined + 1])
  {}

  // The document and the cut buffer when what is behind the cursor is cleared.
  lemma ClearsTo(s: State, k: nat, p: Progress)
    requires s.Valid() && k <= |s.Here().text| && s.row + p.joined < |s.text| && !p.cleared && Tail(s, k, p.joined) != []
    ensures var t, q, c := RunText(s, k, p), p.(cleared := true), RunBuffer(s, k, p);
      s.row < |t| &&
      t[s.row := Line(s.Here().text[..k], t[s.row].flowed)] == RunText(s, k, q) &&
      (if c == [] then [] else c[..|c| - 1]) + [Line(Tail(s, k, p.joined), t[s.row].flowed)] == RunBuffer(s, k, q)
  {
    hide Splice, Tail;
    RunLine(s, k, p);
    var before, here := s.Here().text[..k], s.text[s.row + p.joined];
    assert before + [] == before;
    SpliceOne(RunText(s, k, p), s.row, Line(before, here.flowed));
    SpliceOver(s.text, s.row, p.joined + 1, Line(before + Tail(s, k, p.joined), here.flowed), 0, [Line(before, here.flowed)]);
  }

  // And when the line break behind the cursor is swallowed.
  lemma JoinsTo(s: State, k: nat, p: Progress)
    requires s.Valid() && k <= |s.Here().text| && s.row + p.joined + 1 < |s.text| && p.cleared
    ensures var m, t := p.joined + 1, RunText(s, k, p);
      var q := Progress(m, Tail(s, k, m) == []);
      s.row + 1 < |t| &&
      Splice(t, s.row, 2, [Line(s.Here().text[..k] + t[s.row + 1].text, t[s.row + 1].flowed)]) == RunText(s, k, q) &&
      RunBuffer(s, k, p) + [Line([], t[s.row].flowed)] == RunBuffer(s, k, q)
  {
    hide Splice;
    RunLine(s, k, p);
    var before, m, here := s.Here().text[..k], p.joined + 1, s.text[s.row + p.joined];
    var next := s.text[s.row + m];
    assert before + [] == before;
    SpliceOver(s.text, s.row, m, Line(before, here.flowed), 1, [Line(before + next.text, next.flowed)]);
    assert Entries(s, k, m + 1) == Entries(s, k, m) + [Entry(s, k, m)];
  }

  lemma StepClear(f: Font, s: State, k: nat, p: Progress, r: State)
    requires s.Valid() && k <= |s.Here().text| && s.row + p.joined < |s.text|
    requires InRun(f, s, k, p, r) && r.lastKey.ClearToEol? && !p.cleared && Tail(s, k, p.joined) != []
    requires Joins(f, s.Here().text[..k], Tail(s, k, p.joined))
    ensures InRun(f, s, k, p.(cleared := true), PressClearToEol(f, r))
  {
    hide PressClearToEol, Splice, Joins, RunText, RunBuffer, Tail, Width, IndexOfCol;
    RunLine(s, k, p);
    ClearsTo(s, k, p);
    ClearRest(f, r, s.Here().text[..k], Tail(s, k, p.joined));
  }

  lemma StepJoin(f: Font, s: State, k: nat, p: Progress, r: State)
    requires s.Valid() && k <= |s.Here().text| && s.row + p.joined < |s.text|
    requires InRun(f, s, k, p, r) && r.lastKey.ClearToEol? && p.cleared
    ensures var q, m := PressClearToEol(f, r), p.joined + 1;
      if s.row + m < |s.text| then InRun(f, s, k, Progress(m, Tail(s, k, m) == []), q) else q.text == r.text
  {
    hide PressClearToEol, Splice, RunText, RunBuffer, Tail, Width, IndexOfCol;
    var before, m := s.Here().text[..k], p.joined + 1;
    RunLine(s, k, p);
    assert before + [] == before;
    RestAtEnd(f, before);
    SwallowBreak(f, r);
    if s.row + m < |s.text| {
      JoinsTo(s, k, p);
    }
  }

  // The same cursor and document with an empty cut buffer, as if in a run.
  function Start(f: Font, s: State): (r: State)
    requires s.Valid()
    ensures r.Valid()
  {
    s.(col := Width(f, s.Before(f)), cut := [], lastKey := ClearToEol, marked := false)
  }

  lemma FirstPress(f: Font, s: State)
    requires s.Valid() && !s.lastKey.ClearToEol?
    ensures Start(f, s).Index(f) == s.Index(f)
    ensures PressClearToEol(f, s) == PressClearToEol(f, Start(f, s))
  {
    IndexOfColIsLast(f, s.Here().text, s.col);
    ColumnRoundTrip(f, s.Here().text, s.Index(f));
  }

  lemma {:induction false} SameRun(f: Font, s: State, n: nat)
    requires s.Valid() && !s.lastKey.ClearToEol? && n > 0
    ensures Presses(f, s, n) == Presses(f, Start(f, s), n)
  {
    FirstPress(f, s);
    if n > 1 {
      SameRun(f, s, n - 1);
    } else {
      assert Presses(f, s, 0) == s && Presses(f, Start(f, s), 0) == Start(f, s);
    }
  }

  ghost predicate JoinsUpTo(f: Font, s: State, k: nat, m: nat)
    requires s.Valid() && k <= |s.Here().text| && s.row + m < |s.text|
  {
    forall j :: 0 <= j <= m ==> Joins(f, s.Here().text[..k], Tail(s, k, j))
  }

  // Something has been joined, or the rest of the first line cleared.
  predicate Started(s: State, k: nat, p: Progress)
    requires s.Valid() && k <= |s.Here().text|
  {
    p.joined > 0 || (p.cleared && Tail(s, k, 0) != [])
  }

  lemma {:induction false} RunReaches(f: Font, s: State, k: nat, n: nat)
    requires s.Valid() && k == s.Index(f) && JoinsUpTo(f, s, k, ProgressOf(s, k, n).joined)
    requires forall i :: 0 <= i < n ==> Presses(f, Start(f, s), i + 1).text != Presses(f, Start(f, s), i).text
    ensures var r := Presses(f, Start(f, s), n);
      InRun(f, s, k, ProgressOf(s, k, n), r) && r.lastKey.ClearToEol? && (n > 0 ==> Started(s, k, ProgressOf(s, k, n)))
  {
    hide PressClearToEol, InRun, Start, Joins, Tail, Splice, IndexOfCol, Presses, ProgressOf, Started;
    if n == 0 {
      RunStarts(f, s);
      NoPresses(f, Start(f, s));
    } else {
      var r := Presses(f, Start(f, s), n - 1);
      PressesStep(f, Start(f, s), n);
      ProgressStep(s, k, n);
      RunReaches(f, s, k, n - 1);
      assert Presses(f, Start(f, s), (n - 1) + 1).text != r.text;
      RunStep(f, s, k, n, r);
    }
  }

  // One press of the run.
  lemma RunStep(f: Font, s: State, k: nat, n: nat, r: State)
    requires s.Valid() && k <= |s.Here().text| && n > 0 && r.Valid() && r.lastKey.ClearToEol?
    requires InRun(f, s, k, ProgressOf(s, k, n - 1), r) && PressClearToEol(f, r).text != r.text
    requires JoinsUpTo(f, s, k, ProgressOf(s, k, n).joined)
    ensures var q := PressClearToEol(f, r);
      InRun(f, s, k, ProgressOf(s, k, n), q) && q.lastKey.ClearToEol? && Started(s, k, ProgressOf(s, k, n))
  {
    hide PressClearToEol, InRun, Joins, Splice, IndexOfCol;
    var p := ProgressOf(s, k, n - 1);
    if p.cleared {
      StepJoin(f, s, k, p, r);
    } else {
      StepClear(f, s, k, p, r);
    }
    KeepsKey(f, r);
  }

  lemma ProgressStep(s: State, k: nat, n: nat)
    requires s.Valid() && k <= |s.Here().text| && n > 0
    ensures ProgressOf(s, k, n - 1).joined <= ProgressOf(s, k, n).joined
  {}

  lemma RunStarts(f: Font, s: State)
    requires s.Valid()
    ensures var k := s.Index(f);
      InRun(f, s, k, ProgressOf(s, k, 0), Start(f, s)) && Start(f, s).lastKey.ClearToEol?
  {
    var k := s.Index(f);
    assert s.Here().text[..k] + s.Here().text[k..] == s.Here().text;
    assert Tail(s, k, 0) == [] ==> s.Here().text[..k] + [] == s.Here().text;
  }

  lemma KeepsKey(f: Font, r: State)
    requires r.Valid()
    ensures PressClearToEol(f, r).lastKey.ClearToEol?
  {}

  // --- Pasting -------------------------------------------------------------------------

  predicate SameTexts(a: seq<Line>, b: seq<Line>) {
    |a| == |b| && forall i :: 0 <= i < |a| ==> a[i].text == b[i].text
  }

  // What pasting puts in place of the first line and the m lines joined to it.
  function Restored(s: State, k: nat, m: nat): (r: seq<Line>)
    requires s.Valid() && k <= |s.Here().text| && s.row + m < |s.text|
    ensures |r| == m + 1
  {
    Pasted(s.Here().text[..k], [], s.text[s.row + m].flowed, Entries(s, k, m + 1))
  }

  lemma {:induction false} EntryAt(s: State, k: nat, m: nat, j: nat)
    requires s.Valid() && k <= |s.Here().text| && s.row + m <= |s.text| && j < m
    ensures Entries(s, k, m)[j] == Entry(s, k, j)
  {
    if j < m - 1 {
      EntryAt(s, k, m - 1, j);
    }
  }

  lemma RestoredAt(s: State, k: nat, m: nat, j: nat)
    requires s.Valid() && k <= |s.Here().text| && s.row + m < |s.text| && j <= m
    ensures var l := Restored(s, k, m)[j];
      l.text == s.text[s.row + j].text &&
      l.flowed == if j == m then s.text[s.row + m].flowed else Entry(s, k, j).flowed
  {
    hide Entries, Pasted;
    var ys, here := Entries(s, k, m + 1), s.Here().text;
    EntryAt(s, k, m + 1, j);
    PastedAt(here[..k], s.text[s.row + m].flowed, ys, j);
    assert here[..k] + here[k..] == here;
  }

  lemma PastedAt(before: seq<char>, flowed: bool, ys: seq<Line>, j: nat)
    requires j < |ys|
    ensures Pasted(before, [], flowed, ys)[j] ==
      Line((if j == 0 then before else []) + ys[j].text, if j == |ys| - 1 then flowed else ys[j].flowed)
  {
    assert ys[j].text + [] == ys[j].text && [] + ys[j].text == ys[j].text;
    assert before + ys[0].text + [] == before + ys[0].text;
  }

  lemma RestoredLine(s: State, k: nat, m: nat, i: nat)
    requires s.Valid() && k <= |s.Here().text| && s.row + m < |s.text| && i < |s.text|
    ensures var l := Splice(s.text, s.row, m + 1, Restored(s, k, m))[i];
      l.text == s.text[i].text &&
      l.flowed == if s.row < i < s.row + m then FlagBack(s.text, i) else s.text[i].flowed
  {
    hide Restored;
    var x := Restored(s, k, m);
    if s.row <= i <= s.row + m {
      RestoredAt(s, k, m, i - s.row);
      if i == s.row && m > 0 {
        assert Entry(s, k, 0).flowed == s.Here().flowed;
      }
    }
    assert Splice(s.text, s.row, m + 1, x)[i] == if s.row <= i <= s.row + m then x[i - s.row] else s.text[i];
  }

  // The flag that comes back for line i: an empty line gets that of the line above.
  function FlagBack(text: seq<Line>, i: nat): bool
    requires 0 < i < |text|
  {
    if text[i].text == [] then text[i - 1].flowed else text[i].flowed
  }

  predicate FlagsKept(s: State, m: nat)
    requires s.row + m < |s.text|
  {
    forall i {:trigger FlagBack(s.text, i)} :: s.row < i < s.row + m ==> FlagBack(s.text, i) == s.text[i].flowed
  }

  lemma RestoredCompares(s: State, k: nat, m: nat)
    requires s.Valid() && k <= |s.Here().text| && s.row + m < |s.text|
    ensures var t := Splice(s.text, s.row, m + 1, Restored(s, k, m));
      SameTexts(t, s.text) && (t == s.text <==> FlagsKept(s, m))
  {
    var t := Splice(s.text, s.row, m + 1, Restored(s, k, m));
    assert |t| == |s.text|;
    forall i | 0 <= i < |t|
      ensures t[i].text == s.text[i].text
      ensures t[i].flowed == if s.row < i < s.row + m then FlagBack(s.text, i) else s.text[i].flowed
    {
      RestoredLine(s, k, m, i);
    }
    FlagsCompare(s, m, t);
  }

  lemma FlagsCompare(s: State, m: nat, t: seq<Line>)
    requires s.row + m < |s.text| && |t| == |s.text|
    requires forall i {:trigger t[i]} :: 0 <= i < |t| ==> t[i].text == s.text[i].text
    requires forall i {:trigger t[i]} :: 0 <= i < |t| ==>
      t[i].flowed == if s.row < i < s.row + m then FlagBack(s.text, i) else s.text[i].flowed
    ensures t == s.text <==> FlagsKept(s, m)
  {
    hide FlagBack;
    if t == s.text {
      forall i {:trigger FlagBack(s.text, i)} | s.row < i < s.row + m ensures FlagBack(s.text, i) == s.text[i].flowed {
        assert t[i] == s.text[i];
      }
    } else if FlagsKept(s, m) {
      forall i | 0 <= i < |t| ensures t[i] == s.text[i] {
        if s.row < i < s.row + m {
          assert FlagBack(s.text, i) == s.text[i].flowed;
        }
      }
    }
  }

  lemma AfterPaste(f: Font, r: State)
    requires r.Valid() && r.cut != []
    ensures var t := PressPaste(f, r).text;
      t == Splice(r.text, r.row, 1, Pasted(r.Before(f), r.After(f), r.Here().flowed, r.cut)) &&
      |t| == |r.text| + |r.cut| - 1
  {}

  lemma PastedIsRestored(s: State, k: nat, p: Progress)
    requires s.Valid() && k <= |s.Here().text| && s.row + p.joined < |s.text| && (p.joined == 0 ==> p.cleared)
    ensures var rest := if p.cleared then [] else Tail(s, k, p.joined);
      RunBuffer(s, k, p) != [] &&
      Pasted(s.Here().text[..k], rest, s.text[s.row + p.joined].flowed, RunBuffer(s, k, p)) == Restored(s, k, p.joined)
  {
    var m := p.joined;
    assert Entries(s, k, m + 1) == Entries(s, k, m) + [Entry(s, k, m)];
    if !p.cleared {
      assert [] + Tail(s, k, m) == Tail(s, k, m) + [];
    }
  }

  lemma PasteAfterRun(f: Font, s: State, k: nat, p: Progress, r: State)
    requires s.Valid() && k <= |s.Here().text| && s.row + p.joined < |s.text|
    requires InRun(f, s, k, p, r) && Tail(s, k, 0) != [] && (p.joined == 0 ==> p.cleared)
    requires !p.cleared ==> Joins(f, s.Here().text[..k], Tail(s, k, p.joined))
    ensures PressPaste(f, r).text == Splice(s.text, s.row, p.joined + 1, Restored(s, k, p.joined))
  {
    var before, m := s.Here().text[..k], p.joined;
    var rest := if p.cleared then [] else Tail(s, k, m);
    hide PressPaste, Restored, RunBuffer, Pasted;
    RunLine(s, k, p);
    PastedIsRestored(s, k, p);
    AfterPaste(f, r);
    JoinColumn(f, before, rest);
    assert before + [] == before;
    RestAtEnd(f, before);
    assert (before + rest)[..|before|] == before && (before + rest)[|before|..] == rest;
    assert r.Before(f) == before && r.After(f) == rest;
    SpliceOver(s.text, s.row, m + 1, r.Here(), 0, Restored(s, k, m));
  }

  lemma SameChanges(f: Font, s: State, n: nat)
    requires s.Valid() && !s.lastKey.ClearToEol? && n > 0
    requires forall i :: 0 <= i < n ==> Presses(f, s, i + 1).text != Presses(f, s, i).text
    ensures forall i :: 0 <= i < n ==> Presses(f, Start(f, s), i + 1).text != Presses(f, Start(f, s), i).text
  {
    hide PressClearToEol;
    forall i | 0 <= i < n ensures Presses(f, Start(f, s), i + 1).text != Presses(f, Start(f, s), i).text {
      SameRun(f, s, i + 1);
      if i > 0 {
        SameRun(f, s, i);
      }
      assert Presses(f, s, i + 1).text != Presses(f, s, i).text;
    }
  }

  lemma JoinsHere(f: Font, s: State)
    requires s.Valid()
    ensures Joins(f, s.Before(f), Tail(s, s.Index(f), 0))
  {
    IndexOfColIsLast(f, s.Here().text, s.col);
    assert s.Before(f) + s.After(f) == s.Here().text;
  }

  lemma RunEnds(f: Font, s: State, n: nat)
    requires s.Valid() && !s.lastKey.ClearToEol? && n > 0
    requires forall i :: 0 <= i < n ==> Presses(f, s, i + 1).text != Presses(f, s, i).text
    requires AllJoin(f, s, ProgressOf(s, s.Index(f), n).joined)
    ensures JoinsUpTo(f, s, s.Index(f), ProgressOf(s, s.Index(f), n).joined)
    ensures InRun(f, s, s.Index(f), ProgressOf(s, s.Index(f), n), Presses(f, s, n))
    ensures Started(s, s.Index(f), ProgressOf(s, s.Index(f), n))
  {
    hide PressClearToEol, InRun, Joins, Started, Presses;
    var k := s.Index(f);
    JoinsHere(f, s);
    SameChanges(f, s, n);
    RunReaches(f, s, k, n);
    SameRun(f, s, n);
  }

  // --- A line that runs into what is before the cursor -----------------------------------

  // None of the m lines below the first one runs into the character before the cursor.
  ghost predicate AllJoin(f: Font, s: State, m: nat)
    requires s.Valid() && s.row + m < |s.text|
  {
    forall i :: s.row < i <= s.row + m ==> Joins(f, s.Before(f), s.text[i].text)
  }

  // Entry j of the cut buffer is not line j of the document, and pasting adds nothing to it.
  ghost predicate Astray(f: Font, s: State, j: nat, r: State)
    requires s.row + j < |s.text|
  {
    r.Valid() && r.lastKey.ClearToEol? && !r.marked && r.row == s.row && j < |r.cut| &&
    |r.cut[j].text| != |s.text[s.row + j].text| && (|r.cut| == j + 1 ==> r.After(f) == [])
  }

  lemma StaysAstray(f: Font, s: State, j: nat, r: State)
    requires s.row + j < |s.text| && Astray(f, s, j, r)
    ensures Astray(f, s, j, PressClearToEol(f, r))
  {
    hide PressClearToEol;
    if r.After(f) != [] {
      ClearAnywhere(f, r);
    } else {
      SwallowBreak(f, r);
    }
    KeepsKey(f, r);
  }

  lemma AstrayPasted(f: Font, s: State, j: nat, r: State)
    requires 0 < j && s.row + j < |s.text| && Astray(f, s, j, r)
    ensures !SameTexts(PressPaste(f, r).text, s.text)
  {
    hide PressPaste;
    var ys := Pasted(r.Before(f), r.After(f), r.Here().flowed, r.cut);
    var t := PressPaste(f, r).text;
    AfterPaste(f, r);
    SpliceAt(r.text, r.row, 1, ys);
    assert t[s.row + j] == ys[j] && |ys[j].text| == |r.cut[j].text|;
  }

  // The press that swallows such a line, and the next one.
  lemma SwallowsAstray(f: Font, s: State, k: nat, j: nat, r: State)
    requires s.Valid() && k <= |s.Here().text| && 0 < j && s.row + j < |s.text| && Tail(s, k, 0) != []
    requires !Joins(f, s.Here().text[..k], s.text[s.row + j].text)
    requires InRun(f, s, k, Progress(j, false), r) && r.lastKey.ClearToEol?
    ensures !SameTexts(PressPaste(f, r).text, s.text)
    ensures Astray(f, s, j, PressClearToEol(f, r))
  {
    hide PressClearToEol, PressPaste, Joins;
    var p, before, next := Progress(j, false), s.Here().text[..k], s.text[s.row + j].text;
    RunLine(s, k, p);
    JoinColumn(f, before, next);
    JoinsMeans(f, before, next);
    EntryAt(s, k, j, 0);
    assert r.Here().text == before + next && r.Index(f) != |before|;
    AfterPaste(f, r);
    var ys := Pasted(r.Before(f), r.After(f), r.Here().flowed, r.cut);
    SpliceAt(r.text, r.row, 1, ys);
    assert PressPaste(f, r).text[s.row + 0] == ys[0] && |ys[0].text| == r.Index(f) + |s.Here().text| - k;
    if next == [] {
      EmptyJoins(f, before);
    }
    if r.After(f) != [] {
      ClearAnywhere(f, r);
    } else {
      SwallowBreak(f, r);
    }
    KeepsKey(f, r);
  }

  lemma EmptyJoins(f: Font, a: seq<char>)
    ensures Joins(f, a, [])
  {
    assert a + [] == a;
  }

  lemma ProgressGrows(s: State, k: nat, n: nat, j: nat)
    requires s.Valid() && k <= |s.Here().text| && n > 0 && ProgressOf(s, k, n - 1).joined < j <= ProgressOf(s, k, n).joined
    ensures ProgressOf(s, k, n - 1) == Progress(j - 1, true) && s.row + j < |s.text|
    ensures ProgressOf(s, k, n) == Progress(j, s.text[s.row + j].text == [])
  {}

  // The press that swallows line j, the first that runs into the character before the cursor.
  lemma RunSwallows(f: Font, s: State, k: nat, n: nat, j: nat)
    requires s.Valid() && k == s.Index(f) && n > 0 && ProgressOf(s, k, n - 1).joined < j <= ProgressOf(s, k, n).joined
    requires JoinsUpTo(f, s, k, j - 1) && !Joins(f, s.Here().text[..k], s.text[s.row + j].text)
    requires forall i :: 0 <= i < n ==> Presses(f, Start(f, s), i + 1).text != Presses(f, Start(f, s), i).text
    ensures ProgressOf(s, k, n) == Progress(j, false)
    ensures var r := Presses(f, Start(f, s), n); InRun(f, s, k, Progress(j, false), r) && r.lastKey.ClearToEol?
  {
    hide PressClearToEol, InRun, Start, Joins, Splice, IndexOfCol, Presses, ProgressOf;
    var p, r := ProgressOf(s, k, n - 1), Presses(f, Start(f, s), n - 1);
    ProgressGrows(s, k, n, j);
    PressesStep(f, Start(f, s), n);
    RunReaches(f, s, k, n - 1);
    StepJoin(f, s, k, p, r);
    KeepsKey(f, r);
    if s.text[s.row + j].text == [] {
      EmptyJoins(f, s.Here().text[..k]);
    }
  }

  // What follows after that.
  lemma {:induction false} RunGoesAstray(f: Font, s: State, k: nat, n: nat, j: nat)
    requires s.Valid() && k == s.Index(f) && 0 < j <= ProgressOf(s, k, n).joined && Tail(s, k, 0) != []
    requires JoinsUpTo(f, s, k, j - 1) && !Joins(f, s.Here().text[..k], s.text[s.row + j].text)
    requires forall i :: 0 <= i < n ==> Presses(f, Start(f, s), i + 1).text != Presses(f, Start(f, s), i).text
    ensures var r := Presses(f, Start(f, s), n);
      if ProgressOf(s, k, n) == Progress(j, false) then InRun(f, s, k, Progress(j, false), r) && r.lastKey.ClearToEol?
      else Astray(f, s, j, r)
  {
    hide PressClearToEol, InRun, Astray, Start, Joins, JoinsUpTo, Tail, Splice, Presses;
    var p, r := ProgressOf(s, k, n - 1), Presses(f, Start(f, s), n - 1);
    PressesStep(f, Start(f, s), n);
    if p.joined < j {
      RunSwallows(f, s, k, n, j);
    } else {
      RunGoesAstray(f, s, k, n - 1, j);
      if p == Progress(j, false) {
        SwallowsAstray(f, s, k, j, r);
      } else {
        StaysAstray(f, s, j, r);
      }
    }
  }

  lemma RunPastedAstray(f: Font, s: State, k: nat, n: nat, j: nat)
    requires s.Valid() && k == s.Index(f) && 0 < j <= ProgressOf(s, k, n).joined && Tail(s, k, 0) != []
    requires JoinsUpTo(f, s, k, j - 1) && !Joins(f, s.Here().text[..k], s.text[s.row + j].text)
    requires forall i :: 0 <= i < n ==> Presses(f, Start(f, s), i + 1).text != Presses(f, Start(f, s), i).text
    ensures !SameTexts(PressPaste(f, Presses(f, Start(f, s), n)).text, s.text)
  {
    hide PressClearToEol, PressPaste, InRun, Astray, Start, Joins, JoinsUpTo, SameTexts, Presses;
    RunGoesAstray(f, s, k, n, j);
    if ProgressOf(s, k, n) == Progress(j, false) {
      SwallowsAstray(f, s, k, j, Presses(f, Start(f, s), n));
    } else {
      AstrayPasted(f, s, j, Presses(f, Start(f, s), n));
    }
  }

  lemma {:induction false} FirstAstray(f: Font, s: State, m: nat) returns (j: nat)
    requires s.Valid() && s.row + m < |s.text| && !AllJoin(f, s, m)
    ensures 0 < j <= m && JoinsUpTo(f, s, s.Index(f), j - 1)
    ensures !Joins(f, s.Before(f), s.text[s.row + j].text)
  {
    hide Joins;
    if AllJoin(f, s, m - 1) {
      j := m;
      JoinsHere(f, s);
      forall i | 0 <= i <= m - 1 ensures Joins(f, s.Before(f), Tail(s, s.Index(f), i)) {
        assert i > 0 ==> Joins(f, s.Before(f), s.text[s.row + i].text);
      }
    } else {
      j := FirstAstray(f, s, m - 1);
    }
  }

  // The presses of a run that change nothing: those at the end of the document.
  function Idle(f: Font, s: State, n: nat): nat
    requires s.Valid()
  {
    if n == 0 then 0 else
      Idle(f, s, n - 1) + if Presses(f, s, n).text == Presses(f, s, n - 1).text then 1 else 0
  }

  lemma {:induction false} NeverIdle(f: Font, s: State, n: nat)
    requires s.Valid() && Idle(f, s, n) == 0
    ensures forall i :: 0 <= i < n ==> Presses(f, s, i + 1).text != Presses(f, s, i).text
  {
    hide Presses;
    if n > 0 {
      NeverIdle(f, s, n - 1);
      assert Presses(f, s, (n - 1) + 1).text != Presses(f, s, n - 1).text;
    }
  }

  lemma {:induction false} SameIdle(f: Font, s: State, n: nat)
    requires s.Valid() && !s.lastKey.ClearToEol?
    ensures Idle(f, s, n) == Idle(f, Start(f, s), n)
  {
    hide Presses;
    if n > 0 {
      SameIdle(f, s, n - 1);
      SameRun(f, s, n);
      if n > 1 {
        SameRun(f, s, n - 1);
      } else {
        NoPresses(f, s);
        NoPresses(f, Start(f, s));
      }
    }
  }

  // Lines of the document and entries of the cut buffer: one press makes one more of them
  // together if it starts the cut buffer inside a line, or changes nothing.
  lemma PressCounts(f: Font, r: State)
    requires r.Valid() && r.lastKey.ClearToEol? && !r.marked
    ensures var q := PressClearToEol(f, r);
      !q.marked && q.lastKey.ClearToEol? && q.cut != [] &&
      |q.text| + |q.cut| == |r.text| + |r.cut| + (if q.text == r.text then 1 else 0) + (if r.After(f) != [] && r.cut == [] then 1 else 0)
  {
    hide PressClearToEol;
    if r.After(f) != [] {
      ClearAnywhere(f, r);
      assert r.text[r.row := Line(r.Before(f), r.Here().flowed)][r.row] != r.text[r.row];
    } else {
      SwallowBreak(f, r);
    }
  }

  lemma {:induction false} RunCounts(f: Font, s: State, n: nat)
    requires s.Valid()
    ensures var r := Presses(f, Start(f, s), n);
      |r.text| + |r.cut| == |s.text| + Idle(f, Start(f, s), n) + (if n > 0 && s.After(f) != [] then 1 else 0) &&
      (n > 0 ==> r.cut != []) && !r.marked && r.lastKey.ClearToEol?
  {
    hide PressClearToEol, Presses;
    if n == 0 {
      NoPresses(f, Start(f, s));
    } else {
      PressesStep(f, Start(f, s), n);
      RunCounts(f, s, n - 1);
      StartsThere(f, s);
      PressCounts(f, Presses(f, Start(f, s), n - 1));
    }
  }

  lemma StartsThere(f: Font, s: State)
    requires s.Valid()
    ensures Presses(f, Start(f, s), 0) == Start(f, s) && Start(f, s).After(f) == s.After(f)
  {
    IndexOfColIsLast(f, s.Here().text, s.col);
    ColumnRoundTrip(f, s.Here().text, s.Index(f));
  }

  lemma RunLength(f: Font, s: State, n: nat)
    requires s.Valid() && !s.lastKey.ClearToEol? && n > 0
    ensures |PressPaste(f, Presses(f, s, n)).text| == |s.text| + Idle(f, s, n) - (if s.After(f) == [] then 1 else 0)
  {
    hide PressPaste, PressClearToEol, Presses, Idle;
    SameRun(f, s, n);
    SameIdle(f, s, n);
    RunCounts(f, s, n);
    AfterPaste(f, Presses(f, s, n));
  }

  // --- A run from the end of a line ------------------------------------------------------

  ghost predicate AllEmpty(s: State, m: nat)
    requires s.row + m < |s.text|
  {
    forall i :: s.row < i <= s.row + m ==> s.text[i].text == []
  }

  // The document after m lines were swallowed.
  ghost predicate EndText(s: State, m: nat, r: State)
    requires s.row + m < |s.text| && r.row < |r.text|
  {
    r.row == s.row && |r.text| == |s.text| - m &&
    r.text[..s.row] == s.text[..s.row] && r.text[s.row + 1..] == s.text[s.row + m + 1..] &&
    r.Here().flowed == s.text[s.row + m].flowed && (AllEmpty(s, m) ==> r.Here().text == s.text[s.row].text)
  }

  // The cut buffer, with `idle` presses that changed nothing: entry i stands for line i + 1.
  ghost predicate EndBuffer(s: State, m: nat, idle: nat, cut: seq<Line>)
    requires s.row + m < |s.text|
  {
    |cut| == m + idle &&
    (forall i :: 0 <= i < m && s.text[s.row + i + 1].text == [] ==> cut[i].text == []) &&
    (forall i :: m <= i < |cut| ==> cut[i] == Line([], s.text[s.row + m].flowed)) &&
    (AllEmpty(s, m) ==> forall i :: 0 <= i < m ==> cut[i] == Line([], s.text[s.row + i].flowed))
  }

  /** Such a run. There is text behind the cursor only if the last line swallowed was not empty. */
  ghost predicate FromEnd(f: Font, s: State, m: nat, idle: nat, r: State)
    requires s.row + m < |s.text|
  {
    r.Valid() && !r.marked && r.lastKey.ClearToEol? && (idle > 0 ==> s.row + m == |s.text| - 1) &&
    (r.After(f) != [] ==> idle == 0 && m > 0 && s.text[s.row + m].text != []) &&
    EndText(s, m, r) && EndBuffer(s, m, idle, r.cut)
  }

  lemma EndStarts(f: Font, s: State)
    requires s.Valid() && s.After(f) == []
    ensures FromEnd(f, s, 0, 0, Start(f, s))
  {
    StartsThere(f, s);
  }

  lemma EndClears(f: Font, s: State, m: nat, idle: nat, r: State)
    requires s.row + m < |s.text| && FromEnd(f, s, m, idle, r) && r.After(f) != []
    ensures PressClearToEol(f, r).text != r.text && FromEnd(f, s, m, idle, PressClearToEol(f, r))
  {
    hide PressClearToEol, Width, IndexOfCol;
    ClearAnywhere(f, r);
    KeepsKey(f, r);
    assert r.text[r.row := Line(r.Before(f), r.Here().flowed)][r.row] != r.text[r.row];
  }

  lemma EndIdles(f: Font, s: State, m: nat, idle: nat, r: State)
    requires s.row + m < |s.text| && FromEnd(f, s, m, idle, r) && r.After(f) == [] && r.row + 1 == |r.text|
    ensures PressClearToEol(f, r).text == r.text && FromEnd(f, s, m, idle + 1, PressClearToEol(f, r))
  {
    hide PressClearToEol, Width, IndexOfCol;
    SwallowBreak(f, r);
    KeepsKey(f, r);
    RestAtEnd(f, r.Here().text);
  }

  lemma SwallowParts(f: Font, r: State)
    requires r.Valid() && r.lastKey.ClearToEol? && !r.marked && r.After(f) == [] && r.row + 1 < |r.text|
    ensures var q, next := PressClearToEol(f, r), r.text[r.row + 1];
      !q.marked && q.row == r.row && q.lastKey.ClearToEol? && |q.text| == |r.text| - 1 &&
      q.cut == r.cut + [Line([], r.Here().flowed)] && q.Here() == Line(r.Here().text + next.text, next.flowed) &&
      q.text[..q.row] == r.text[..r.row] && q.text[q.row + 1..] == r.text[r.row + 2..] &&
      (next.text == [] ==> q.After(f) == [])
  {
    hide PressClearToEol, Width, IndexOfCol;
    SwallowBreak(f, r);
    var next := r.text[r.row + 1];
    RestAtEnd(f, r.Here().text);
    assert r.Here().text + [] == r.Here().text;
    SpliceAt(r.text, r.row, 2, [Line(r.Here().text + next.text, next.flowed)]);
  }

  lemma EndSwallows(f: Font, s: State, m: nat, idle: nat, r: State)
    requires s.row + m < |s.text| && FromEnd(f, s, m, idle, r) && r.After(f) == [] && r.row + 1 < |r.text|
    ensures s.row + m + 1 < |s.text| && PressClearToEol(f, r).text != r.text
    ensures FromEnd(f, s, m + 1, idle, PressClearToEol(f, r))
  {
    hide PressClearToEol, Width, IndexOfCol;
    hide EndText, EndBuffer;
    SwallowParts(f, r);
    KeepsKey(f, r);
    EndTextNext(s, m, r, PressClearToEol(f, r));
    EndBufferNext(s, m, idle, r.cut, r.Here().flowed);
  }

  lemma EndTextNext(s: State, m: nat, r: State, q: State)
    requires s.row + m < |s.text| && r.row + 1 < |r.text| && EndText(s, m, r)
    requires |q.text| == |r.text| - 1 && q.row == r.row && q.text[..q.row] == r.text[..r.row]
    requires q.Here() == Line(r.Here().text + r.text[r.row + 1].text, r.text[r.row + 1].flowed)
    requires q.text[q.row + 1..] == r.text[r.row + 2..]
    ensures s.row + m + 1 < |s.text| && EndText(s, m + 1, q)
    ensures r.text[r.row + 1] == s.text[s.row + m + 1] && r.Here().flowed == s.text[s.row + m].flowed
  {
    hide AllEmpty;
    assert r.text[s.row + 1..][0] == s.text[s.row + m + 1..][0];
    assert q.text[s.row + 1..] == r.text[s.row + 1..][1..] == s.text[s.row + m + 2..];
    EmptyNext(s, m);
  }

  lemma EndBufferNext(s: State, m: nat, idle: nat, cut: seq<Line>, flowed: bool)
    requires s.row + m + 1 < |s.text| && EndBuffer(s, m, idle, cut) && idle == 0 && flowed == s.text[s.row + m].flowed
    ensures EndBuffer(s, m + 1, idle, cut + [Line([], flowed)])
  {
    hide AllEmpty;
    EmptyNext(s, m);
  }

  lemma EmptyNext(s: State, m: nat)
    requires s.row + m + 1 < |s.text|
    ensures AllEmpty(s, m + 1) ==> AllEmpty(s, m) && s.text[s.row + m + 1].text == []
  {}

  // The lines swallowed so far.
  lemma {:induction false} EndRuns(f: Font, s: State, n: nat) returns (m: nat)
    requires s.Valid() && s.After(f) == []
    ensures s.row + m < |s.text| && FromEnd(f, s, m, Idle(f, Start(f, s), n), Presses(f, Start(f, s), n))
  {
    hide PressClearToEol, FromEnd, Presses, Start;
    if n == 0 {
      m := 0;
      EndStarts(f, s);
      NoPresses(f, Start(f, s));
    } else {
      m := EndRuns(f, s, n - 1);
      var r := Presses(f, Start(f, s), n - 1);
      PressesStep(f, Start(f, s), n);
      EndValid(f, s, m, Idle(f, Start(f, s), n - 1), r);
      if r.After(f) != [] {
        EndClears(f, s, m, Idle(f, Start(f, s), n - 1), r);
      } else if r.row + 1 < |r.text| {
        EndSwallows(f, s, m, Idle(f, Start(f, s), n - 1), r);
        m := m + 1;
      } else {
        EndIdles(f, s, m, Idle(f, Start(f, s), n - 1), r);
      }
    }
  }

  lemma EndValid(f: Font, s: State, m: nat, idle: nat, r: State)
    requires s.row + m < |s.text| && FromEnd(f, s, m, idle, r)
    ensures r.Valid() && r.row < |r.text|
  {}

  // At the end of the document, after one press that changed nothing, pasting brings back empty
  // lines, and they must have been so one after the other, from the last one up.
  lemma {:induction false} EmptyUpwards(f: Font, s: State, m: nat, r: State, i: nat)
    requires s.row + m < |s.text| && FromEnd(f, s, m, 1, r) && 0 < i <= m
    requires forall j :: 0 < j <= m ==> r.cut[j].text == s.text[s.row + j].text
    ensures s.text[s.row + i].text == []
    decreases m - i
  {
    hide Start;
    assert r.cut[i].text == s.text[s.row + i].text;
    if i < m {
      EmptyUpwards(f, s, m, r, i + 1);
    }
  }

  // What pasting gives then.
  ghost predicate PastedText(s: State, m: nat, r: State, t: seq<Line>)
    requires s.row + m < |s.text| && r.row < |r.text|
  {
    |t| == |s.text| && t[..s.row] == s.text[..s.row] && |r.cut| == m + 1 &&
    forall j :: 0 <= j <= m ==>
      t[s.row + j].text == (if j == 0 then r.Here().text + r.cut[0].text else r.cut[j].text) &&
      t[s.row + j].flowed == if j == m then r.Here().flowed else r.cut[j].flowed
  }

  lemma PasteAtEnd(f: Font, r: State)
    requires r.Valid() && r.cut != [] && r.After(f) == []
    ensures var t, here := PressPaste(f, r).text, r.Here();
      |t| == |r.text| + |r.cut| - 1 && t[..r.row] == r.text[..r.row] &&
      forall j :: 0 <= j < |r.cut| ==>
        t[r.row + j].text == (if j == 0 then here.text + r.cut[0].text else r.cut[j].text) &&
        t[r.row + j].flowed == if j == |r.cut| - 1 then here.flowed else r.cut[j].flowed
  {
    hide PressPaste, Pasted, IndexOfCol;
    var here, t := r.Here(), PressPaste(f, r).text;
    var ys := Pasted(here.text, [], here.flowed, r.cut);
    AfterPaste(f, r);
    assert r.Before(f) == here.text;
    SpliceAt(r.text, r.row, 1, ys);
    forall j | 0 <= j < |r.cut|
      ensures t[r.row + j].text == (if j == 0 then here.text + r.cut[0].text else r.cut[j].text)
      ensures t[r.row + j].flowed == if j == |r.cut| - 1 then here.flowed else r.cut[j].flowed
    {
      PastedAt(here.text, here.flowed, r.cut, j);
      assert t[r.row + j] == ys[j] && [] + r.cut[j].text == r.cut[j].text;
    }
  }

  lemma EndFacts(f: Font, s: State, m: nat, r: State)
    requires s.Valid() && s.row + m < |s.text| && FromEnd(f, s, m, 1, r)
    ensures r.Valid() && r.After(f) == [] && r.row == s.row && |r.text| == |s.text| - m && |r.cut| == m + 1
    ensures r.text[..s.row] == s.text[..s.row] && s.row + m == |s.text| - 1
    ensures r.Here().flowed == s.text[s.row + m].flowed
  {
    hide AllEmpty, IndexOfCol;
  }

  lemma EndPastes(f: Font, s: State, m: nat, r: State)
    requires s.Valid() && s.row + m < |s.text| && FromEnd(f, s, m, 1, r)
    ensures PastedText(s, m, r, PressPaste(f, r).text)
  {
    hide PressPaste, FromEnd, AllEmpty, IndexOfCol;
    EndFacts(f, s, m, r);
    PasteAtEnd(f, r);
  }

  lemma EndNotEmpty(f: Font, s: State, m: nat, r: State, t: seq<Line>)
    requires s.Valid() && s.row + m < |s.text| && FromEnd(f, s, m, 1, r) && PastedText(s, m, r, t) && SameTexts(t, s.text)
    ensures AllEmpty(s, m)
  {
    hide FromEnd;
    forall j | 0 < j <= m ensures r.cut[j].text == s.text[s.row + j].text {
      assert t[s.row + j].text == s.text[s.row + j].text;
    }
    forall i | s.row < i <= s.row + m ensures s.text[i].text == [] {
      EmptyUpwards(f, s, m, r, i - s.row);
    }
  }

  lemma EndRestored(f: Font, s: State, m: nat, r: State, t: seq<Line>)
    requires s.Valid() && s.row + m < |s.text| && FromEnd(f, s, m, 1, r) && PastedText(s, m, r, t) && AllEmpty(s, m)
    ensures t == s.text
  {
    hide IndexOfCol;
    EndFacts(f, s, m, r);
    assert r.cut[m] == Line([], s.text[s.row + m].flowed) && r.Here().text + [] == r.Here().text;
    forall i | 0 <= i < |t| ensures t[i] == s.text[i] {
      if i < s.row {
        assert t[i] == t[..s.row][i] == s.text[..s.row][i];
      } else {
        assert t[s.row + (i - s.row)] == t[i] && r.cut[i - s.row].text == [];
      }
    }
  }

  lemma EndPasted(f: Font, s: State, m: nat, r: State)
    requires s.Valid() && s.row + m < |s.text| && FromEnd(f, s, m, 1, r)
    ensures var t := PressPaste(f, r).text;
      (SameTexts(t, s.text) <==> AllEmpty(s, m)) && (SameTexts(t, s.text) ==> t == s.text)
  {
    hide PressPaste, FromEnd, PastedText, AllEmpty;
    EndValid(f, s, m, 1, r);
    var t := PressPaste(f, r).text;
    EndPastes(f, s, m, r);
    if SameTexts(t, s.text) {
      EndNotEmpty(f, s, m, r, t);
    }
    if AllEmpty(s, m) {
      EndRestored(f, s, m, r, t);
    }
  }

  /** A run of n presses and then pasting. From inside a line, the text of every line comes
      back exactly when every press changed the document and no line swallowed runs into the
      character before the cursor; the flags come back too exactly when every empty line that
      was swallowed, and continued past, has the flag of the line before it. From the end of a
      line, everything comes back exactly when all lines below are empty and one press, at the
      end of the document, changed nothing; otherwise some text does not. */
  lemma ClearRunThenPaste(f: Font, s: State, n: nat)
    requires s.Valid() && !s.lastKey.ClearToEol? && n > 0
    ensures var m, r := ProgressOf(s, s.Index(f), n).joined, PressPaste(f, Presses(f, s, n));
      if s.After(f) != [] then
        (SameTexts(r.text, s.text) <==> Idle(f, s, n) == 0 && AllJoin(f, s, m)) &&
        (SameTexts(r.text, s.text) ==> (r.text == s.text <==> FlagsKept(s, m)))
      else
        (SameTexts(r.text, s.text) <==>
          Idle(f, s, n) == 1 && forall i :: s.row < i < |s.text| ==> s.text[i].text == []) &&
        (SameTexts(r.text, s.text) ==> r.text == s.text)
  {
    hide PressPaste, Presses, AllJoin, Idle, SameTexts, FlagsKept;
    if s.After(f) == [] {
      EndThenPaste(f, s, n);
    } else {
      InsideThenPaste(f, s, n);
    }
  }

  lemma InsideThenPaste(f: Font, s: State, n: nat)
    requires s.Valid() && !s.lastKey.ClearToEol? && n > 0 && s.After(f) != []
    ensures var m, r := ProgressOf(s, s.Index(f), n).joined, PressPaste(f, Presses(f, s, n));
      (SameTexts(r.text, s.text) <==> Idle(f, s, n) == 0 && AllJoin(f, s, m)) &&
      (SameTexts(r.text, s.text) ==> (r.text == s.text <==> FlagsKept(s, m)))
  {
    hide PressPaste, PressClearToEol, Restored, Joins, Presses, AllJoin, Idle;
    var k := s.Index(f);
    var p, r := ProgressOf(s, k, n), Presses(f, s, n);
    RunLength(f, s, n);
    if Idle(f, s, n) == 0 {
      NeverIdle(f, s, n);
      if AllJoin(f, s, p.joined) {
        RunEnds(f, s, n);
        PasteAfterRun(f, s, k, p, r);
        RestoredCompares(s, k, p.joined);
      } else {
        SameRun(f, s, n);
        SameChanges(f, s, n);
        var j := FirstAstray(f, s, p.joined);
        RunPastedAstray(f, s, k, n, j);
      }
    }
  }

  lemma EndThenPaste(f: Font, s: State, n: nat)
    requires s.Valid() && !s.lastKey.ClearToEol? && n > 0 && s.After(f) == []
    ensures var t := PressPaste(f, Presses(f, s, n)).text;
      (SameTexts(t, s.text) <==> Idle(f, s, n) == 1 && forall i :: s.row < i < |s.text| ==> s.text[i].text == []) &&
      (SameTexts(t, s.text) ==> t == s.text)
  {
    hide PressPaste, PressClearToEol, Presses, Idle, FromEnd, Start;
    RunLength(f, s, n);
    if Idle(f, s, n) == 1 {
      SameRun(f, s, n);
      SameIdle(f, s, n);
      var m := EndRuns(f, s, n);
      EndFacts(f, s, m, Presses(f, s, n));
      EndPasted(f, s, m, Presses(f, s, n));
    }
  }

  // --- A run that does not come back ----------------------------------------------------

  // The columns of "ab", and of a mark between two ordinary characters.
  lemma MarkColumns(f: Font, mark: char)
    requires Ordinary(f, 'a') && Ordinary(f, 'b') && Ordinary(f, 'x') && Combining(f, mark)
    ensures IndexOfCol(f, "ab", 1) == 1 && Width(f, "a") == 1 && IndexOfCol(f, ['a', mark, 'x'], 1) == 2
  {
    hide IndexOfCol;
    var line := ['a', mark, 'x'];
    assert "a"[..1] == "a" && "ab"[..1] == "a" && line[..1] == "a";
    assert "ab"[1..2][0] == 'b' && line[2..3][0] == 'x';
    ColumnAfter(f, "a", 0);
    ColumnRoundTrip(f, "ab", 1);
    ColumnAfter(f, line, 1);
    ColumnRoundTrip(f, line, 2);
  }

  lemma FirstOfTwo(f: Font, s: State, next: Line)
    requires s.text == [Line("ab", false), next] && s.row == 0 && s.col == 1 && !s.marked && s.lastKey.NoKey?
    requires IndexOfCol(f, "ab", 1) == 1
    ensures var t := Presses(f, s, 1);
      t.text == [Line("a", false), next] && t.row == 0 && !t.marked && t.lastKey.ClearToEol? &&
      t.After(f) == [] && t.cut == [Line("b", false)]
  {
    hide PressClearToEol, IndexOfCol;
    PressesStep(f, s, 1);
    NoPresses(f, s);
    FirstPress(f, s);
    StartsThere(f, s);
    assert s.Before(f) == "a" && s.After(f) == "b";
    ClearAnywhere(f, Start(f, s));
  }

  lemma SecondOfTwo(f: Font, t: State, mark: char)
    requires t.Valid() && t.text == [Line("a", false), Line([mark, 'x'], false)] && t.row == 0 && !t.marked
    requires t.lastKey.ClearToEol? && t.After(f) == [] && t.cut == [Line("b", false)]
    requires Width(f, "a") == 1 && IndexOfCol(f, ['a', mark, 'x'], 1) == 2
    ensures var u := PressClearToEol(f, t);
      u.text == [Line(['a', mark, 'x'], false)] && u.row == 0 && u.Index(f) == 2 &&
      u.cut == [Line("b", false), Line([], false)]
  {
    hide PressClearToEol, IndexOfCol;
    SwallowBreak(f, t);
    assert "a" + [mark, 'x'] == ['a', mark, 'x'];
  }

  /** A run that does not come back: with the cursor on the b of "ab" and a line below that starts
      with a combining mark, two presses and a paste put the mark on the first line. */
  lemma MarkRunsTogether(f: Font, mark: char)
    requires Ordinary(f, 'a') && Ordinary(f, 'b') && Ordinary(f, 'x') && Combining(f, mark)
    ensures var s := State([Line("ab", false), Line([mark, 'x'], false)], 0, 1, false, 0, 0, [], NoKey);
      Presses(f, s, 1).text != s.text && Presses(f, s, 2).text != Presses(f, s, 1).text &&
      PressPaste(f, Presses(f, s, 2)).text == [Line(['a', mark, 'b'], false), Line("x", false)]
  {
    hide Presses, PressPaste, PressClearToEol, IndexOfCol;
    var s := State([Line("ab", false), Line([mark, 'x'], false)], 0, 1, false, 0, 0, [], NoKey);
    MarkColumns(f, mark);
    FirstOfTwo(f, s, s.text[1]);
    SecondOfTwo(f, Presses(f, s, 1), mark);
    PressesStep(f, s, 2);
    AfterPaste(f, Presses(f, s, 2));
    assert ['a', mark, 'x'][..2] == ['a', mark] && ['a', mark, 'x'][2..] == "x";
    assert ['a', mark] + "b" == ['a', mark, 'b'] && [] + "x" == "x";
  }
}
