/** The steps of a message filter, and the text they are saved as. */
module FilterSteps {
  import opened Decimals
  import opened Texts

  // --- The field codec -------------------------------------------------------------------

  predicate Plain(c: char) { ' ' < c && (c as int) < 127 && c != '%' }

  function HexDigit(d: nat): char
    requires d < 16
  {
    if d < 10 then Digit(d) else ('a' as int + d - 10) as char
  }

  function EncodeOne(c: char): string {
    var b := c as int % 256;
    if Plain(c) then [c] else ['%', HexDigit(b / 16), HexDigit(b % 16)]
  }

  function Encode(s: string): string { if s == "" then "" else EncodeOne(s[0]) + Encode(s[1..]) }

  predicate IsHex(c: char) { IsDigit(c) || 'a' <= c <= 'f' || 'A' <= c <= 'F' }

  function HexValue(c: char): (n: nat)
    ensures n < 16
  {
    if IsDigit(c) then DigitValue(c)
    else if 'a' <= c <= 'f' then 10 + (c as int - 'a' as int)
    else if 'A' <= c <= 'F' then 10 + (c as int - 'A' as int)
    else 0
  }

  predicate IsSpace(c: char) { c == ' ' || 9 <= (c as int) <= 13 }

  // What the stream makes of two characters, read as a hexadecimal number: nothing, if
  // there is no number. It skips white space and takes a sign.
  function HexByte(a: char, b: char): string {
    if IsHex(a) && IsHex(b) then [(16 * HexValue(a) + HexValue(b)) as char]
    else if a == '0' && (b == 'x' || b == 'X') then ""
    else if IsHex(a) then [HexValue(a) as char]
    else if !IsHex(b) then ""
    else if IsSpace(a) || a == '+' then [HexValue(b) as char]
    else if a == '-' then [((256 - HexValue(b)) % 256) as char]
    else ""
  }

  datatype Field = Field(value: string, rest: string)

  // A field, up to the next space, and what follows it.
  function Decode(s: string): Field {
    if s == "" then Field("", "")
    else if s[0] == ' ' then Field("", s[1..])
    else if s[0] != '%' then
      var f := Decode(s[1..]);
      Field([s[0]] + f.value, f.rest)
    else if |s| <= 2 then Field("", "")
    else
      var f := Decode(s[3..]);
      Field(HexByte(s[1], s[2]) + f.value, f.rest)
  }

  /** Fields come back, and so does what follows them. */
  lemma {:induction false} FieldRoundTrip(s: string, rest: string)
    requires Bytes(s) && (rest == "" || rest[0] == ' ')
    ensures Decode(Encode(s) + rest) == Field(s, if rest == "" then "" else rest[1..])
  {
    hide EncodeOne, HexByte;
    if s == "" {
      assert "" + rest == rest;
    } else {
      FieldRoundTrip(s[1..], rest);
      DecodeOne(s[0], Encode(s[1..]) + rest);
      assert Encode(s) + rest == EncodeOne(s[0]) + (Encode(s[1..]) + rest);
    }
  }

  lemma HexBack(d: nat)
    requires d < 16
    ensures IsHex(HexDigit(d)) && HexValue(HexDigit(d)) == d
  {
  }

  lemma DecodeOne(c: char, rest: string)
    requires (c as int) < 256
    ensures Decode(EncodeOne(c) + rest) == Field([c] + Decode(rest).value, Decode(rest).rest)
  {
    hide HexDigit, HexValue, IsHex;
    var s := EncodeOne(c) + rest;
    if Plain(c) {
      assert s[0] == c && s[1..] == rest;
    } else {
      var hi, lo := c as int / 16, c as int % 16;
      HexBack(hi);
      HexBack(lo);
      assert s[0] == '%' && s[1] == HexDigit(hi) && s[2] == HexDigit(lo) && s[3..] == rest;
      assert HexByte(s[1], s[2]) == [c];
    }
  }

  /** A saved field has no spaces, line breaks or other characters to be wary of. */
  lemma {:induction false} EncodesPlainly(s: string)
    ensures forall i :: 0 <= i < |Encode(s)| ==> ' ' < Encode(s)[i] && (Encode(s)[i] as int) < 127
  {
    if s != "" {
      EncodesPlainly(s[1..]);
    }
  }

  // --- What to search for ------------------------------------------------------------------

  datatype Criteria = Replied | Deleted | Draft | Unread | From | To | Cc | Bcc | Subject | Header | Body | Text
                    | Before | On | Since | SentBefore | SentOn | SentSince | Larger | Smaller

  datatype Scope = SearchAll | SearchMarked | SearchUnmarked | SearchRange

  datatype SearchParams = SearchParams(searchNot: bool, criteria: Criteria, param1: string, param2: string,
                                       charset: string, scope: Scope, rangeLo: nat, rangeHi: nat)

  // (The range is left as it was in memory, which is 0 here.)
  const NO_SEARCH := SearchParams(false, Replied, "", "", "", SearchAll, 0, 0)

  function NameOf(c: Criteria): string {
    match c
    case Replied => "replied"
    case Deleted => "deleted"
    case Draft => "draft"
    case Unread => "unread"
    case From => "from"
    case To => "to"
    case Cc => "cc"
    case Bcc => "bcc"
    case Subject => "subject"
    case Header => "header"
    case Body => "body"
    case Text => "text"
    case Before => "before"
    case On => "on"
    case Since => "since"
    case SentBefore => "sentbefore"
    case SentOn => "senton"
    case SentSince => "sentsince"
    case Larger => "larger"
    case Smaller => "smaller"
  }

  // The first criterion with that name; Replied if there is none.
  function CriteriaOf(n: string): Criteria {
    if n == "replied" then Replied else if n == "deleted" then Deleted else if n == "draft" then Draft else
    if n == "unread" then Unread else if n == "from" then From else if n == "to" then To else
    if n == "cc" then Cc else if n == "bcc" then Bcc else if n == "subject" then Subject else
    if n == "header" then Header else if n == "body" then Body else if n == "text" then Text else
    if n == "before" then Before else if n == "on" then On else if n == "since" then Since else
    if n == "sentbefore" then SentBefore else if n == "senton" then SentOn else
    if n == "sentsince" then SentSince else if n == "larger" then Larger else if n == "smaller" then Smaller else Replied
  }

  function ScopeText(p: SearchParams): string {
    match p.scope
    case SearchAll => "A"
    case SearchMarked => "M"
    case SearchUnmarked => "U"
    case SearchRange => Decimal(p.rangeLo) + "-" + Decimal(p.rangeHi)
  }

  function TermText(p: SearchParams): string {
    (if p.searchNot then "!" else "") + NameOf(p.criteria) + " " +
    (Encode(p.param1) + " " + (Encode(p.param2) + " " + Encode(p.charset)))
  }

  function SearchText(p: SearchParams): string { ScopeText(p) + " " + TermText(p) }

  // size_t is 64 bits wide.
  const SIZE_LIMIT: nat := 0x1_0000_0000_0000_0000

  function SkipSpace(s: string): string { if s != "" && IsSpace(s[0]) then SkipSpace(s[1..]) else s }

  // A number read from a stream.
  datatype Number = Number(ok: bool, value: nat, rest: string)

  function ReadNumber(s: string): Number {
    var t := SkipSpace(s);
    var u := if t != "" && (t[0] == '-' || t[0] == '+') then t[1..] else t;
    var n := DigitRun(u);
    var v := Value(u[..n]);
    if n == 0 then Number(false, 0, u)
    else if v >= SIZE_LIMIT then Number(false, SIZE_LIMIT - 1, u[n..])
    else Number(true, if t[0] == '-' then (SIZE_LIMIT - v) % SIZE_LIMIT else v, u[n..])
  }

  datatype Range = Range(ok: bool, lo: nat, hi: nat)

  // Two numbers with a character between them, which must be a dash.
  function ReadRange(s: string): Range {
    var lo := ReadNumber(s);
    var t := SkipSpace(lo.rest);
    if !lo.ok || t == "" then Range(false, lo.value, 0)
    else
      var hi := ReadNumber(t[1..]);
      Range(hi.ok && t[0] == '-', lo.value, hi.value)
  }

  // Where the first space is.
  function WordEnd(s: string): (n: nat)
    ensures n <= |s|
  {
    if s == "" || s[0] == ' ' then 0 else 1 + WordEnd(s[1..])
  }

  function SkipBlanks(s: string): string { if s != "" && s[0] == ' ' then SkipBlanks(s[1..]) else s }

  function RangeIn(s: string): Range {
    if s == "" || s[0] == 'A' || s[0] == 'M' then Range(false, 0, 0) else ReadRange(s)
  }

  function ScopeIn(s: string): Scope {
    if RangeIn(s).ok then SearchRange
    else if s != "" && s[0] == 'M' then SearchMarked
    else if s != "" && s[0] == 'U' then SearchUnmarked
    else SearchAll
  }

  // What follows the scope.
  function TermIn(t: string): SearchParams {
    var searchNot := t != "" && t[0] == '!';
    var u := if searchNot then t[1..] else t;
    var n := WordEnd(u);
    var param1 := Decode(if n < |u| then u[n + 1..] else "");
    var param2 := Decode(param1.rest);
    var charset := Decode(param2.rest);
    SearchParams(searchNot, CriteriaOf(u[..n]), param1.value, param2.value, charset.value, SearchAll, 0, 0)
  }

  function SearchOf(s: string): SearchParams {
    TermIn(SkipBlanks(s[WordEnd(s)..])).(scope := ScopeIn(s), rangeLo := RangeIn(s).lo, rangeHi := RangeIn(s).hi)
  }

  predicate GoodSearch(p: SearchParams) {
    Bytes(p.param1) && Bytes(p.param2) && Bytes(p.charset) && p.rangeLo < SIZE_LIMIT && p.rangeHi < SIZE_LIMIT
  }

  // The range does not matter for the other scopes.
  function UsedSearch(p: SearchParams): SearchParams {
    if p.scope == SearchRange then p else p.(rangeLo := 0, rangeHi := 0)
  }

  // --- Reading a search back ---

  lemma NumberBack(n: nat, rest: string)
    requires n < SIZE_LIMIT && (rest != "" ==> !IsDigit(rest[0]))
    ensures ReadNumber(Decimal(n) + rest) == Number(true, n, rest)
  {
    var s := Decimal(n);
    DecimalValue(n);
    DigitRunEnds(s, rest);
    assert (s + rest)[..|s|] == s && (s + rest)[|s|..] == rest;
  }

  lemma RangeBack(lo: nat, hi: nat, rest: string)
    requires lo < SIZE_LIMIT && hi < SIZE_LIMIT && rest != "" && rest[0] == ' '
    ensures ReadRange(Decimal(lo) + "-" + Decimal(hi) + rest) == Range(true, lo, hi)
  {
    hide ReadNumber, Decimal;
    var tail := "-" + Decimal(hi) + rest;
    assert Decimal(lo) + "-" + Decimal(hi) + rest == Decimal(lo) + tail;
    NumberBack(lo, tail);
    assert SkipSpace(tail) == tail;
    assert tail[1..] == Decimal(hi) + rest;
    NumberBack(hi, rest);
  }

  lemma {:induction false} WordEnds(w: string, rest: string)
    requires ' ' !in w && (rest == "" || rest[0] == ' ')
    ensures WordEnd(w + rest) == |w|
  {
    if w == "" {
      assert w + rest == rest;
    } else {
      assert (w + rest)[1..] == w[1..] + rest;
      WordEnds(w[1..], rest);
    }
  }

  predicate NamesBack(c: Criteria) {
    var n := NameOf(c);
    CriteriaOf(n) == c && n != "" && forall i :: 0 <= i < |n| ==> n[i] > '!'
  }

  lemma FlagNamesBack(c: Criteria)
    requires c in {Replied, Deleted, Draft, Unread, From, To, Cc, Bcc}
    ensures NamesBack(c)
  {
  }

  lemma TextNamesBack(c: Criteria)
    requires c in {Subject, Header, Body, Text, Before}
    ensures NamesBack(c)
  {
  }

  lemma DateNamesBack(c: Criteria)
    requires c in {On, Since, SentBefore, SentOn}
    ensures NamesBack(c)
  {
  }

  lemma SizeNamesBack(c: Criteria)
    requires c in {SentSince, Larger, Smaller}
    ensures NamesBack(c)
  {
  }

  // Each criterion has a name of its own.
  lemma NameBack(c: Criteria)
    ensures NamesBack(c)
  {
    hide NamesBack;
    if c in {Replied, Deleted, Draft, Unread, From, To, Cc, Bcc} {
      FlagNamesBack(c);
    } else if c in {Subject, Header, Body, Text, Before} {
      TextNamesBack(c);
    } else if c in {On, Since, SentBefore, SentOn} {
      DateNamesBack(c);
    } else {
      SizeNamesBack(c);
    }
  }

  lemma ScopeBack(p: SearchParams, rest: string)
    requires GoodSearch(p) && rest != "" && rest[0] == ' '
    ensures var s := ScopeText(p) + rest;
      ScopeIn(s) == p.scope && RangeIn(s) == Range(p.scope == SearchRange, UsedSearch(p).rangeLo, UsedSearch(p).rangeHi)
  {
    hide ReadNumber;
    var s := ScopeText(p) + rest;
    if p.scope == SearchRange {
      RangeBack(p.rangeLo, p.rangeHi, rest);
      DecimalValue(p.rangeLo);
      assert s[0] == Decimal(p.rangeLo)[0] && IsDigit(s[0]);
    } else if p.scope == SearchUnmarked {
      NoNumber(s);
    }
  }

  lemma NoNumber(s: string)
    requires s != "" && s[0] == 'U'
    ensures ReadRange(s) == Range(false, 0, 0)
  {
    assert SkipSpace(s) == s && DigitRun(s) == 0;
    assert s[..0] == "";
  }

  lemma ScopeEnds(p: SearchParams, rest: string)
    requires rest != "" && rest[0] == ' '
    ensures var s := ScopeText(p) + rest; s[WordEnd(s)..] == rest
  {
    DecimalValue(p.rangeLo);
    DecimalValue(p.rangeHi);
    WordEnds(ScopeText(p), rest);
  }

  lemma TermBack(p: SearchParams)
    requires GoodSearch(p)
    ensures TermIn(TermText(p)) == p.(scope := SearchAll, rangeLo := 0, rangeHi := 0)
    ensures TermText(p) != "" && TermText(p)[0] != ' '
  {
    hide NameOf, CriteriaOf, Encode, Decode;
    var name, t := NameOf(p.criteria), TermText(p);
    var tail3 := Encode(p.charset);
    var tail2 := Encode(p.param2) + " " + tail3;
    var tail1 := Encode(p.param1) + " " + tail2;
    NameBack(p.criteria);
    assert p.searchNot ==> t[0] == '!' && t[1..] == name + (" " + tail1);
    assert !p.searchNot ==> t == name + (" " + tail1) && t[0] == name[0];
    WordEnds(name, " " + tail1);
    var u := name + (" " + tail1);
    assert u[..|name|] == name && u[|name| + 1..] == tail1;
    TakeField(p.param1, tail2);
    TakeField(p.param2, tail3);
    FieldRoundTrip(p.charset, "");
    assert tail3 + "" == tail3;
  }

  lemma TakeField(s: string, rest: string)
    requires Bytes(s)
    ensures Decode(Encode(s) + " " + rest) == Field(s, rest)
  {
    hide Encode, Decode;
    FieldRoundTrip(s, " " + rest);
    assert Encode(s) + " " + rest == Encode(s) + (" " + rest);
  }

  /** A search comes back, but for a range that its scope does not use. */
  lemma SearchRoundTrip(p: SearchParams)
    requires GoodSearch(p)
    ensures SearchOf(SearchText(p)) == UsedSearch(p)
  {
    hide TermIn, TermText, ScopeText, ScopeIn, RangeIn;
    var rest := " " + TermText(p);
    assert SearchText(p) == ScopeText(p) + rest;
    ScopeBack(p, rest);
    ScopeEnds(p, rest);
    TermBack(p);
    assert rest[1..] == TermText(p);
    assert SkipBlanks(rest) == TermText(p);
  }

  // --- Steps -------------------------------------------------------------------------------

  datatype StepType = SelectAll | SelectSearch | Delete | Undelete | DelExpunge | Mark | Unmark | Tag | Copy | Move
                    | Watch | Unwatch

  datatype Step = Step(kind: StepType, search: SearchParams, toServer: string, toFolder: string, name: string)

  const NO_STEP := Step(SelectAll, NO_SEARCH, "", "", "")

  function FolderText(s: Step): string {
    Encode(s.toServer) + " " + (Encode(s.toFolder) + " " + Encode(s.name))
  }

  function StepText(s: Step): string {
    match s.kind
    case SelectAll => "ALL"
    case SelectSearch => "SRCH " + SearchText(s.search)
    case Delete => "DEL"
    case Undelete => "UNDEL"
    case DelExpunge => "DELEXP"
    case Mark => "MARK"
    case Unmark => "UNMARK"
    case Copy => "COPY " + FolderText(s)
    case Tag => "TAG " + s.name
    case Move => "MOVE " + FolderText(s)
    case Watch => "WATCH"
    case Unwatch => "UNWATCH"
  }

  function FolderStep(kind: StepType, s: string): Step {
    var toServer := Decode(s);
    var toFolder := Decode(toServer.rest);
    Step(kind, NO_SEARCH, toServer.value, toFolder.value, Decode(toFolder.rest).value)
  }

  function StepOf(s: string): Step {
    if Starts(s, "SRCH ") then NO_STEP.(kind := SelectSearch, search := SearchOf(s[5..]))
    else if s == "DEL" then NO_STEP.(kind := Delete)
    else if s == "UNDEL" then NO_STEP.(kind := Undelete)
    else if s == "DELEXP" then NO_STEP.(kind := DelExpunge)
    else if s == "MARK" then NO_STEP.(kind := Mark)
    else if s == "UNMARK" then NO_STEP.(kind := Unmark)
    else if Starts(s, "COPY ") then FolderStep(Copy, s[5..])
    else if Starts(s, "TAG ") then NO_STEP.(kind := Tag, name := s[4..])
    else if Starts(s, "MOVE ") then FolderStep(Move, s[5..])
    else if s == "WATCH" then NO_STEP.(kind := Watch)
    else if s == "UNWATCH" then NO_STEP.(kind := Unwatch)
    else NO_STEP
  }

  predicate GoodStep(s: Step) { GoodSearch(s.search) && Bytes(s.toServer) && Bytes(s.toFolder) && Bytes(s.name) }

  // Only what its kind uses of a step.
  function Used(s: Step): Step {
    match s.kind
    case SelectSearch => NO_STEP.(kind := SelectSearch, search := UsedSearch(s.search))
    case Tag => NO_STEP.(kind := Tag, name := s.name)
    case Copy => s.(search := NO_SEARCH)
    case Move => s.(search := NO_SEARCH)
    case _ => NO_STEP.(kind := s.kind)
  }

  lemma FolderBack(kind: StepType, s: Step)
    requires GoodStep(s)
    ensures FolderStep(kind, FolderText(s)) == Step(kind, NO_SEARCH, s.toServer, s.toFolder, s.name)
  {
    hide Encode, Decode;
    TakeField(s.toServer, Encode(s.toFolder) + " " + Encode(s.name));
    TakeField(s.toFolder, Encode(s.name));
    FieldRoundTrip(s.name, "");
    assert Encode(s.name) + "" == Encode(s.name);
  }

  lemma StartsWith(prefix: string, rest: string)
    ensures Starts(prefix + rest, prefix) && (prefix + rest)[|prefix|..] == rest
  {
  }

  /** A step comes back, but for fields that its kind does not use. */
  lemma StepRoundTrip(s: Step)
    requires GoodStep(s)
    ensures StepOf(StepText(s)) == Used(s)
  {
    hide SearchText, SearchOf, FolderText, FolderStep, UsedSearch;
    if s.kind.SelectSearch? {
      SearchRoundTrip(s.search);
      StartsWith("SRCH ", SearchText(s.search));
    } else if s.kind.Tag? {
      StartsWith("TAG ", s.name);
      assert StepText(s)[0] == 'T';
    } else if s.kind.Copy? {
      FolderBack(Copy, s);
      StartsWith("COPY ", FolderText(s));
    } else if s.kind.Move? {
      FolderBack(Move, s);
      var t := "MOVE " + FolderText(s);
      StartsWith("MOVE ", FolderText(s));
      assert StepText(s) == t;
      assert t[0] == 'M' && t[1] == 'O' && |t| >= 5;
      StartsLike(t, "SRCH ");
      StartsLike(t, "COPY ");
      StartsLike(t, "TAG ");
    } else {
      PlainStepBack(s);
    }
  }

  lemma PlainStepBack(s: Step)
    requires !s.kind.SelectSearch? && !s.kind.Tag? && !s.kind.Copy? && !s.kind.Move?
    ensures StepOf(StepText(s)) == NO_STEP.(kind := s.kind)
  {
    hide SearchOf, FolderStep;
    var t := StepText(s);
    StartsLike(t, "SRCH ");
    StartsLike(t, "COPY ");
    StartsLike(t, "TAG ");
    StartsLike(t, "MOVE ");
  }

  lemma StartsLike(s: string, prefix: string)
    requires |s| > 1 && |prefix| > 1
    ensures Starts(s, prefix) ==> s[0] == prefix[0] && s[1] == prefix[1]
  {
  }

  // --- Whole filters -----------------------------------------------------------------------

  function FilterText(steps: seq<Step>): string {
    if steps == [] then "" else StepText(steps[0]) + "\n" + FilterText(steps[1..])
  }

  // A step for each line; what comes after the last line break is dropped.
  function StepsOf(s: string): seq<Step>
    decreases |s|
  {
    var n := LineEnd(s);
    if n == |s| then [] else [StepOf(s[..n])] + StepsOf(s[n + 1..])
  }

  function UsedAll(steps: seq<Step>): seq<Step> { seq(|steps|, i requires 0 <= i < |steps| => Used(steps[i])) }

  ghost predicate GoodSteps(steps: seq<Step>) { forall i :: 0 <= i < |steps| ==> GoodStep(steps[i]) }

  // The name of a tag is saved as it is.
  predicate BreaksLine(s: Step) { s.kind.Tag? && '\n' in s.name }

  lemma EncodesOneLine(s: string)
    ensures '\n' !in Encode(s)
  {
    EncodesPlainly(s);
  }

  lemma {:induction false} StepLine(s: Step)
    ensures '\n' in StepText(s) <==> BreaksLine(s)
  {
    hide Encode, Decimal, CriteriaOf;
    EncodesOneLine(s.toServer);
    EncodesOneLine(s.toFolder);
    EncodesOneLine(s.name);
    if s.kind.SelectSearch? {
      SearchLine(s.search);
    }
    if s.kind.Tag? && '\n' in s.name {
      assert StepText(s)[4..] == s.name;
    }
  }

  lemma SearchLine(p: SearchParams)
    ensures '\n' !in SearchText(p)
  {
    hide Encode, Decimal, CriteriaOf, NameOf;
    NameBack(p.criteria);
    EncodesOneLine(p.param1);
    EncodesOneLine(p.param2);
    EncodesOneLine(p.charset);
    DecimalValue(p.rangeLo);
    DecimalValue(p.rangeHi);
  }

  function LineBreaks(s: string): nat { if s == "" then 0 else (if s[0] == '\n' then 1 else 0) + LineBreaks(s[1..]) }

  lemma {:induction false} LineBreaksConcat(a: string, b: string)
    ensures LineBreaks(a + b) == LineBreaks(a) + LineBreaks(b)
  {
    if a == "" {
      assert a + b == b;
    } else {
      assert (a + b)[1..] == a[1..] + b;
      LineBreaksConcat(a[1..], b);
    }
  }

  lemma {:induction false} SomeLineBreaks(s: string)
    ensures LineBreaks(s) > 0 <==> '\n' in s
  {
    if s != "" {
      SomeLineBreaks(s[1..]);
      assert s == [s[0]] + s[1..];
    }
  }

  lemma {:induction false} StepForEachLine(s: string)
    ensures |StepsOf(s)| == LineBreaks(s)
    decreases |s|
  {
    hide StepsOf, LineBreaks;
    var n := LineEnd(s);
    LineEndMeans(s);
    var w := s[..n];
    SomeLineBreaks(w);
    if n < |s| {
      var rest := s[n + 1..];
      assert s == w + "\n" + rest;
      FirstStep(w, rest);
      LineBreaksConcat(w + "\n", rest);
      LineBreaksConcat(w, "\n");
      OneLineBreak();
      StepForEachLine(rest);
    } else {
      NoSteps(s);
    }
  }

  lemma OneLineBreak()
    ensures LineBreaks("\n") == 1
  {
    assert "\n"[1..] == "";
  }

  lemma NoSteps(s: string)
    requires LineEnd(s) == |s|
    ensures StepsOf(s) == [] && s[..|s|] == s
  {}

  lemma {:induction false} TextLines(steps: seq<Step>)
    ensures LineBreaks(FilterText(steps)) >= |steps|
    ensures LineBreaks(FilterText(steps)) == |steps| <==> forall i :: 0 <= i < |steps| ==> !BreaksLine(steps[i])
  {
    if steps != [] {
      TextLines(steps[1..]);
      StepLine(steps[0]);
      SomeLineBreaks(StepText(steps[0]));
      LineBreaksConcat(StepText(steps[0]) + "\n", FilterText(steps[1..]));
      LineBreaksConcat(StepText(steps[0]), "\n");
      assert "\n"[1..] == "";
      assert forall i :: 0 < i < |steps| ==> steps[i] == steps[1..][i - 1];
    }
  }

  lemma {:induction false} LinesBack(steps: seq<Step>)
    requires GoodSteps(steps) && forall i :: 0 <= i < |steps| ==> !BreaksLine(steps[i])
    ensures StepsOf(FilterText(steps)) == UsedAll(steps)
  {
    hide StepText, StepOf, Used, GoodStep, BreaksLine, LineEnd;
    if steps != [] {
      var w, rest := StepText(steps[0]), FilterText(steps[1..]);
      StepLine(steps[0]);
      FirstStep(w, rest);
      StepRoundTrip(steps[0]);
      LinesBack(steps[1..]);
      UsedFirst(steps);
    }
  }

  lemma FirstStep(w: string, rest: string)
    requires '\n' !in w
    ensures StepsOf(w + "\n" + rest) == [StepOf(w)] + StepsOf(rest)
  {
    hide StepOf;
    LineEnds(w, rest);
    var s := w + "\n" + rest;
    assert s[..|w|] == w && s[|w| + 1..] == rest;
  }

  lemma UsedFirst(steps: seq<Step>)
    requires steps != []
    ensures UsedAll(steps) == [Used(steps[0])] + UsedAll(steps[1..])
  {
    hide Used;
  }

  /** A saved filter comes back exactly when no tag has a line break in its name. */
  lemma FilterRoundTrip(steps: seq<Step>)
    requires GoodSteps(steps)
    ensures StepsOf(FilterText(steps)) == UsedAll(steps) <==> forall i :: 0 <= i < |steps| ==> !BreaksLine(steps[i])
  {
    if forall i :: 0 <= i < |steps| ==> !BreaksLine(steps[i]) {
      LinesBack(steps);
    } else {
      StepForEachLine(FilterText(steps));
      TextLines(steps);
    }
  }

  // --- Steps that can be saved ---------------------------------------------------------------

  predicate Savable(s: Step) { GoodStep(s) && !BreaksLine(s) }

  ghost predicate AllSavable(steps: seq<Step>) { forall i :: 0 <= i < |steps| ==> Savable(steps[i]) }

  lemma HexByteIsByte(a: char, b: char)
    ensures Bytes(HexByte(a, b))
  {}

  lemma {:induction false} FieldIsBytes(s: string)
    requires Bytes(s)
    ensures Bytes(Decode(s).value) && Bytes(Decode(s).rest)
  {
    hide HexByte;
    if |s| > 2 && s[0] == '%' {
      HexByteIsByte(s[1], s[2]);
      FieldIsBytes(s[3..]);
    } else if s != "" && s[0] != ' ' && s[0] != '%' {
      FieldIsBytes(s[1..]);
    }
  }

  lemma {:induction false} SkipsBlanks(s: string)
    requires Bytes(s)
    ensures Bytes(SkipBlanks(s))
  {
    if s != "" && s[0] == ' ' {
      SkipsBlanks(s[1..]);
    }
  }

  lemma RangeIsGood(s: string)
    ensures ReadRange(s).lo < SIZE_LIMIT && ReadRange(s).hi < SIZE_LIMIT
  {
    hide Value, DigitRun, SkipSpace;
  }

  lemma TermIsGood(t: string)
    requires Bytes(t)
    ensures GoodSearch(TermIn(t))
  {
    hide Decode;
    var u := if t != "" && t[0] == '!' then t[1..] else t;
    var n := WordEnd(u);
    var s := if n < |u| then u[n + 1..] else "";
    FieldIsBytes(s);
    FieldIsBytes(Decode(s).rest);
    FieldIsBytes(Decode(Decode(s).rest).rest);
  }

  lemma SearchIsGood(s: string)
    requires Bytes(s)
    ensures GoodSearch(SearchOf(s))
  {
    hide TermIn, ReadRange;
    SkipsBlanks(s[WordEnd(s)..]);
    TermIsGood(SkipBlanks(s[WordEnd(s)..]));
    RangeIsGood(s);
  }

  lemma FolderIsGood(kind: StepType, s: string)
    requires Bytes(s)
    ensures GoodStep(FolderStep(kind, s))
  {
    hide Decode;
    FieldIsBytes(s);
    FieldIsBytes(Decode(s).rest);
    FieldIsBytes(Decode(Decode(s).rest).rest);
  }

  /** Whatever line a step is read from, it can be saved. */
  lemma StepOfSavable(s: string)
    requires Bytes(s) && '\n' !in s
    ensures Savable(StepOf(s))
  {
    hide SearchOf, GoodSearch, FolderStep;
    NoSearchIsGood();
    if Starts(s, "SRCH ") {
      SearchIsGood(s[5..]);
    } else if Starts(s, "COPY ") {
      FolderIsGood(Copy, s[5..]);
      FolderKind(Copy, s[5..]);
    } else if Starts(s, "MOVE ") {
      FolderIsGood(Move, s[5..]);
      FolderKind(Move, s[5..]);
    }
  }

  lemma NoSearchIsGood()
    ensures GoodSearch(NO_SEARCH)
  {}

  lemma FolderKind(kind: StepType, s: string)
    ensures FolderStep(kind, s).kind == kind
  {}

  /** And so can every step of a filter, whatever file it is read from. */
  lemma {:induction false} StepsOfSavable(s: string)
    requires Bytes(s)
    ensures AllSavable(StepsOf(s))
    decreases |s|
  {
    hide StepOf, Savable;
    var n := LineEnd(s);
    if n < |s| {
      LineEndMeans(s);
      StepOfSavable(s[..n]);
      StepsOfSavable(s[n + 1..]);
    }
  }

  // The steps that the menu makes: a tag's name is its number.
  lemma NumberedTagSavable(n: nat)
    ensures Savable(NO_STEP.(kind := Tag, name := Decimal(n)))
  {
    DecimalValue(n);
  }

  /** Unused fields are not saved. */
  lemma {:induction false} SavesUsed(steps: seq<Step>)
    ensures FilterText(UsedAll(steps)) == FilterText(steps)
  {
    if steps != [] {
      SavesUsed(steps[1..]);
      assert UsedAll(steps)[1..] == UsedAll(steps[1..]);
      SaveUsed(steps[0]);
      assert UsedAll(steps)[0] == Used(steps[0]);
    }
  }

  lemma SaveUsed(s: Step)
    ensures StepText(Used(s)) == StepText(s)
  {
    hide Encode, Decimal, NameOf;
  }
}
