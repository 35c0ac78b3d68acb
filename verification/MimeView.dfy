/** Which parts of a MIME message are shown: the message structure is flattened into a
    list of parts. */
module MimeView {
  import opened Texts

  datatype Envelope = Envelope(headers: string)

  // A MIME section. Type and subtype are in upper case, as the mail drivers store them.
  datatype Part = Part(id: string, major: string, subtype: string, disposition: string,
                       envelope: Envelope, children: seq<Part>)
  {
    predicate MessageRfc822() { major == "MESSAGE" && subtype == "RFC822" }

    predicate MultipartSigned() { major == "MULTIPART" && subtype == "SIGNED" }

    // A message inside this message.
    predicate Encloses() { MessageRfc822() && |children| > 0 }

    predicate Alternative() { NoCase(subtype) == "ALTERNATIVE" }
  }

  // An entry of the list: a part, or the headers of an enclosed message with its content.
  datatype ShownPart = ShownPart(envelope: Option<Envelope>, structure: Option<Part>, disposition: string)

  // What the view knows besides the structure: whether it shows a decrypted message,
  // whether it is downloading for some other purpose, whether external filters are
  // allowed, and which filters there are.
  datatype Setting = Setting(decrypted: bool, downloading: bool, allowExternalOpen: bool,
                             filters: (string, string) -> bool)

  function NoCase(s: string): string {
    seq(|s|, i requires 0 <= i < |s| => if 'a' <= s[i] <= 'z' then s[i] - 'a' + 'A' else s[i])
  }

  // getHandler: the part can be displayed.
  predicate HasHandler(v: Setting, s: Part) {
    var subtype := NoCase(s.subtype);
    (NoCase(s.major) == "TEXT" &&
     (subtype in {"PLAIN", "RFC822-HEADERS", "HTML"} || (subtype == "X-GPG-OUTPUT" && v.decrypted))) ||
    (!v.downloading && v.allowExternalOpen && v.filters(NoCase(s.major), subtype))
  }

  // The part that decides about an alternative: the content of a signed one, and the
  // verified content of a decrypted one.
  function Inner(v: Setting, s: Part): Part {
    var c := if s.MultipartSigned() && |s.children| > 0 then s.children[0] else s;
    if c.major == "MULTIPART" && c.subtype == "X-MIMEGPG" && v.decrypted && |c.children| > 1 then c.children[1] else c
  }

  predicate Displayable(v: Setting, s: Part) { HasHandler(v, Inner(v, s)) }

  /** The alternative to show: the last one that can be displayed, or else the first. */
  function Best(v: Setting, kids: seq<Part>): (i: nat)
    requires kids != []
    ensures i < |kids| && (forall j :: i < j < |kids| ==> !Displayable(v, kids[j]))
    ensures Displayable(v, kids[i]) || (i == 0 && forall j :: 0 <= j < |kids| ==> !Displayable(v, kids[j]))
    decreases |kids|
  {
    var n := |kids| - 1;
    if n == 0 || Displayable(v, kids[n]) then n
    else
      var i := Best(v, kids[..n]);
      assert forall j :: 0 <= j < n ==> kids[j] == kids[..n][j];
      i
  }

  lemma BestMore(v: Setting, kids: seq<Part>, n: nat)
    requires n < |kids|
    ensures Best(v, kids[..n + 1]) == if n == 0 || Displayable(v, kids[n]) then n else Best(v, kids[..n])
  {
    hide Displayable;
    assert kids[..n + 1][..n] == kids[..n];
  }

  // --- What is shown -----------------------------------------------------------------------

  // A part that is shown, with its disposition.
  function Shown(v: Setting, s: Part, disposition: string): seq<ShownPart>
    decreases s, |s.children| + 1
  {
    if s.Encloses() then
      [ShownPart(Some(s.envelope), Some(s.children[0]), disposition)] +
      Shown(v, s.children[0], s.children[0].disposition)
    else if s.children == [] then [ShownPart(None, Some(s), disposition)]
    else if s.Alternative() then
      var c := s.children[Best(v, s.children)];
      Shown(v, c, c.disposition)
    else
      ShownFrom(v, s, 0) +
      if s.subtype == "X-MIMEGPG" && v.decrypted then [ShownPart(None, Some(s), disposition)] else []
  }

  // Its children from i on.
  function ShownFrom(v: Setting, s: Part, i: nat): seq<ShownPart>
    requires i <= |s.children|
    decreases s, |s.children| - i
  {
    if i == |s.children| then []
    else Shown(v, s.children[i], s.children[i].disposition) + ShownFrom(v, s, i + 1)
  }

  // grok, looking for a part to show: everything if there is no id.
  function Grokked(v: Setting, s: Part, id: string): seq<ShownPart>
    decreases s, |s.children| + 1
  {
    if id == "" then Shown(v, s, s.disposition)
    else if s.id == id then Shown(v, s, "inline")
    else if s.Encloses() then Grokked(v, s.children[0], id)
    else GrokkedFrom(v, s, 0, id)
  }

  function GrokkedFrom(v: Setting, s: Part, i: nat, id: string): seq<ShownPart>
    requires i <= |s.children|
    decreases s, |s.children| - i
  {
    if i == |s.children| then [] else Grokked(v, s.children[i], id) + GrokkedFrom(v, s, i + 1, id)
  }

  // decrypt_find.
  function Find(s: Part, id: string): Option<Part>
    decreases s, |s.children| + 1
  {
    if id == "" || id == s.id then Some(s) else FindFrom(s, 0, id)
  }

  function FindFrom(s: Part, i: nat, id: string): Option<Part>
    requires i <= |s.children|
    decreases s, |s.children| - i
  {
    if i == |s.children| then None
    else
      var p := Find(s.children[i], id);
      if p.Some? then p else FindFrom(s, i + 1, id)
  }

  // --- Showing one part --------------------------------------------------------------------

  function Ids(s: Part): multiset<string>
    decreases s, |s.children| + 1
  {
    multiset{s.id} + IdsFrom(s, 0)
  }

  function IdsFrom(s: Part, i: nat): multiset<string>
    requires i <= |s.children|
    decreases s, |s.children| - i
  {
    if i == |s.children| then multiset{} else Ids(s.children[i]) + IdsFrom(s, i + 1)
  }

  ghost predicate DistinctIds(ids: multiset<string>) { forall x :: ids[x] <= 1 }

  // The walk through the structure gets to the part: of an enclosed message it sees only
  // the first child.
  predicate Reached(s: Part, id: string)
    decreases s, |s.children| + 1
  {
    s.id == id || if s.Encloses() then Reached(s.children[0], id) else ReachedFrom(s, 0, id)
  }

  predicate ReachedFrom(s: Part, i: nat, id: string)
    requires i <= |s.children|
    decreases s, |s.children| - i
  {
    i < |s.children| && (Reached(s.children[i], id) || ReachedFrom(s, i + 1, id))
  }

  // decrypt_find finds a part just if it is there.
  lemma {:induction false} FindsIds(s: Part, id: string)
    requires id != ""
    ensures Find(s, id).Some? <==> id in Ids(s)
    ensures Find(s, id).Some? ==> Find(s, id).value.id == id
    ensures Reached(s, id) ==> id in Ids(s)
    decreases s, |s.children| + 1
  {
    FindsIdsFrom(s, 0, id);
    if s.Encloses() {
      FindsIds(s.children[0], id);
    }
  }

  lemma {:induction false} FindsIdsFrom(s: Part, i: nat, id: string)
    requires i <= |s.children| && id != ""
    ensures FindFrom(s, i, id).Some? <==> id in IdsFrom(s, i)
    ensures FindFrom(s, i, id).Some? ==> FindFrom(s, i, id).value.id == id
    ensures ReachedFrom(s, i, id) ==> id in IdsFrom(s, i)
    decreases s, |s.children| - i
  {
    if i < |s.children| {
      FindsIds(s.children[i], id);
      FindsIdsFrom(s, i + 1, id);
    }
  }

  lemma {:induction false} AbsentFrom(v: Setting, s: Part, i: nat, id: string)
    requires i <= |s.children| && id != "" && id !in IdsFrom(s, i)
    ensures GrokkedFrom(v, s, i, id) == []
    decreases s, |s.children| - i
  {
    if i < |s.children| {
      Absent(v, s.children[i], id);
      AbsentFrom(v, s, i + 1, id);
    }
  }

  lemma {:induction false} Absent(v: Setting, s: Part, id: string)
    requires id != "" && id !in Ids(s)
    ensures Grokked(v, s, id) == []
    decreases s, |s.children| + 1
  {
    if s.Encloses() {
      Absent(v, s.children[0], id);
    } else {
      AbsentFrom(v, s, 0, id);
    }
  }

  /** With distinct ids, asking for a part shows exactly what the part found by that id shows,
      as an inline part whatever its disposition; nothing if the walk does not get to it. */
  lemma {:induction false} ShowsOnePart(v: Setting, s: Part, id: string)
    requires id != "" && DistinctIds(Ids(s))
    ensures if Reached(s, id) then Find(s, id).Some? && Grokked(v, s, id) == Shown(v, Find(s, id).value, "inline")
            else Grokked(v, s, id) == []
    decreases s, |s.children| + 1
  {
    if s.id == id {
    } else if s.Encloses() {
      var c := s.children[0];
      assert Ids(c) <= Ids(s);
      ShowsOnePart(v, c, id);
    } else {
      assert IdsFrom(s, 0) <= Ids(s);
      ShowsOneFrom(v, s, 0, id);
    }
  }

  lemma {:induction false} ShowsOneFrom(v: Setting, s: Part, i: nat, id: string)
    requires i <= |s.children| && id != "" && DistinctIds(IdsFrom(s, i))
    ensures if ReachedFrom(s, i, id) then
              FindFrom(s, i, id).Some? && GrokkedFrom(v, s, i, id) == Shown(v, FindFrom(s, i, id).value, "inline")
            else GrokkedFrom(v, s, i, id) == []
    decreases s, |s.children| - i
  {
    if i < |s.children| {
      var c := s.children[i];
      assert Ids(c) <= IdsFrom(s, i) && IdsFrom(s, i + 1) <= IdsFrom(s, i);
      FindsIds(c, id);
      FindsIdsFrom(s, i + 1, id);
      ShowsOnePart(v, c, id);
      ShowsOneFrom(v, s, i + 1, id);
      if id in Ids(c) {
        assert IdsFrom(s, i)[id] == Ids(c)[id] + IdsFrom(s, i + 1)[id];
        AbsentFrom(v, s, i + 1, id);
      } else {
        Absent(v, c, id);
      }
    }
  }

  // Enclosed messages have one child.
  predicate OneEnclosed(s: Part)
    decreases s, |s.children| + 1
  {
    (s.MessageRfc822() ==> |s.children| <= 1) && OneEnclosedFrom(s, 0)
  }

  predicate OneEnclosedFrom(s: Part, i: nat)
    requires i <= |s.children|
    decreases s, |s.children| - i
  {
    i == |s.children| || (OneEnclosed(s.children[i]) && OneEnclosedFrom(s, i + 1))
  }

  lemma {:induction false} ReachesAll(s: Part, id: string)
    requires id != "" && OneEnclosed(s)
    ensures Reached(s, id) <==> Find(s, id).Some?
    decreases s, |s.children| + 1
  {
    ReachesAllFrom(s, 0, id);
    if s.Encloses() {
      ReachesAll(s.children[0], id);
      assert FindFrom(s, 1, id) == None;
    }
  }

  lemma {:induction false} ReachesAllFrom(s: Part, i: nat, id: string)
    requires i <= |s.children| && id != "" && OneEnclosedFrom(s, i)
    ensures ReachedFrom(s, i, id) <==> FindFrom(s, i, id).Some?
    decreases s, |s.children| - i
  {
    if i < |s.children| {
      ReachesAll(s.children[i], id);
      ReachesAllFrom(s, i + 1, id);
    }
  }

  // Some part is not reached if an enclosed message has more children.
  lemma {:induction false} Unreached(s: Part) returns (id: string)
    requires DistinctIds(Ids(s)) && "" !in Ids(s) && !OneEnclosed(s)
    ensures id in Ids(s) && !Reached(s, id)
    decreases s, |s.children| + 1
  {
    hide DistinctIds;
    PartsDistinct(multiset{s.id}, IdsFrom(s, 0));
    if s.MessageRfc822() && |s.children| > 1 {
      id := s.children[1].id;
      assert id in Ids(s.children[1]) && id in IdsFrom(s, 1);
      PartsDistinct(Ids(s.children[0]), IdsFrom(s, 1));
      FindsIds(s.children[0], id);
    } else {
      id := UnreachedFrom(s, 0);
    }
    assert id in IdsFrom(s, 0);
  }

  lemma {:induction false} UnreachedFrom(s: Part, i: nat) returns (id: string)
    requires i <= |s.children| && DistinctIds(IdsFrom(s, i)) && "" !in IdsFrom(s, i) && !OneEnclosedFrom(s, i)
    ensures id in IdsFrom(s, i) && !ReachedFrom(s, i, id)
    decreases s, |s.children| - i
  {
    hide DistinctIds;
    var c := s.children[i];
    PartsDistinct(Ids(c), IdsFrom(s, i + 1));
    if !OneEnclosed(c) {
      id := Unreached(c);
      FindsIdsFrom(s, i + 1, id);
    } else {
      id := UnreachedFrom(s, i + 1);
      FindsIds(c, id);
    }
  }

  lemma PartsDistinct(a: multiset<string>, b: multiset<string>)
    requires DistinctIds(a + b)
    ensures DistinctIds(a) && DistinctIds(b) && forall id :: id in a ==> id !in b
  {
    forall x ensures a[x] <= 1 && b[x] <= 1 && (x in a ==> x !in b) {
      assert (a + b)[x] <= 1;
    }
  }

  /** With distinct ids the walk gets to every part exactly if no enclosed message has more
      than one child. */
  lemma ReachesAllOnly(s: Part)
    requires DistinctIds(Ids(s)) && "" !in Ids(s)
    ensures (forall id :: id in Ids(s) ==> Reached(s, id)) <==> OneEnclosed(s)
  {
    if OneEnclosed(s) {
      forall id | id in Ids(s) ensures Reached(s, id) {
        ReachesAll(s, id);
        FindsIds(s, id);
      }
    } else {
      var id := Unreached(s);
    }
  }

  lemma {:induction false} ShowsSomething(v: Setting, s: Part, disposition: string)
    ensures Shown(v, s, disposition) != []
    decreases s
  {
    if s.children != [] && !s.Encloses() {
      if s.Alternative() {
        var c := s.children[Best(v, s.children)];
        ShowsSomething(v, c, c.disposition);
      } else {
        ShowsSomething(v, s.children[0], s.children[0].disposition);
      }
    }
  }

  /** A structure with distinct ids: showing a part and looking it up agree exactly if the walk
      gets to the part, or there is no such part. */
  lemma ShowsWhatIsFound(v: Setting, s: Part, id: string)
    requires id != "" && DistinctIds(Ids(s))
    ensures Grokked(v, s, id) == (match Find(s, id) { case None => [] case Some(n) => Shown(v, n, "inline") }) <==>
      (Reached(s, id) <==> Find(s, id).Some?)
  {
    ShowsOnePart(v, s, id);
    if Find(s, id).Some? {
      ShowsSomething(v, Find(s, id).value, "inline");
    }
  }

  /** Section 5.1.4 of RFC 2046: a shown multipart/alternative shows one of its parts only,
      the last one that can be displayed, or the first if none can. */
  lemma AlternativeShowsBest(v: Setting, s: Part, disposition: string, i: nat)
    requires s.children != [] && s.Alternative() && !s.MessageRfc822() && i < |s.children|
    requires forall j :: i < j < |s.children| ==> !Displayable(v, s.children[j])
    requires Displayable(v, s.children[i]) || (i == 0 && !Displayable(v, s.children[0]))
    ensures Shown(v, s, disposition) == Shown(v, s.children[i], s.children[i].disposition)
  {
    assert Best(v, s.children) == i;
  }

  /** A signed alternative is judged by what is signed, and a decrypted one by its verified content;
      one that is only text can always be displayed. Types are compared without regard to case. */
  lemma AlternativesInside(v: Setting, s: Part)
    ensures s.MultipartSigned() && s.children != [] && s.children[0].major != "MULTIPART" ==>
      (Displayable(v, s) <==> Displayable(v, s.children[0]))
    ensures v.decrypted && s.major == "MULTIPART" && s.subtype == "X-MIMEGPG" && |s.children| > 1 ==>
      (s.children[1].major != "MULTIPART" ==> (Displayable(v, s) <==> Displayable(v, s.children[1])))
    ensures NoCase(s.major) != "MULTIPART" ==>
      (Displayable(v, s) <==> Displayable(v, s.(major := NoCase(s.major), subtype := NoCase(s.subtype))))
    ensures s.major == "TEXT" && s.subtype in {"PLAIN", "HTML", "RFC822-HEADERS"} ==> Displayable(v, s)
    ensures s.major == "TEXT" && s.subtype == "X-GPG-OUTPUT" && v.decrypted ==> Displayable(v, s)
  {
    SameCase(s.major);
    SameCase(s.subtype);
    assert NoCase("PLAIN") == "PLAIN" && NoCase("HTML") == "HTML" && NoCase("RFC822-HEADERS") == "RFC822-HEADERS";
    assert NoCase("TEXT") == "TEXT" && NoCase("MULTIPART") == "MULTIPART" && NoCase("X-GPG-OUTPUT") == "X-GPG-OUTPUT";
  }

  lemma SameCase(s: string)
    ensures NoCase(NoCase(s)) == NoCase(s)
  {
  }

  /** While downloading, or where external filters are not allowed, nothing but the
      kinds of text above can be displayed; where they are, another part can be exactly if there is
      a filter for it. */
  lemma FiltersDecide(v: Setting, s: Part)
    requires s.major != "MULTIPART" && NoCase(s.major) == s.major && NoCase(s.subtype) == s.subtype
    requires s.major == "TEXT" ==>
      s.subtype !in {"PLAIN", "HTML", "RFC822-HEADERS"} && (s.subtype == "X-GPG-OUTPUT" ==> !v.decrypted)
    ensures Displayable(v, s) <==> !v.downloading && v.allowExternalOpen && v.filters(s.major, s.subtype)
  {
  }

  /** Filters never bring an earlier alternative to the front, except that of the first if nothing
      can be displayed without them. */
  lemma FiltersShowLater(v: Setting, kids: seq<Part>)
    requires kids != []
    ensures Best(v, kids) >= Best(v.(allowExternalOpen := false), kids)
  {
    var w := v.(allowExternalOpen := false);
    var i := Best(w, kids);
    assert Displayable(w, kids[i]) ==> Displayable(v, kids[i]);
  }

  // --- In the order of the message ---------------------------------------------------------

  // The parts that are gone through, each before what is in it.
  function Seen(v: Setting, s: Part): seq<Part>
    decreases s, |s.children| + 1
  {
    [s] +
    if s.Encloses() then Seen(v, s.children[0])
    else if s.children != [] && s.Alternative() then Seen(v, s.children[Best(v, s.children)])
    else SeenFrom(v, s, 0)
  }

  function SeenFrom(v: Setting, s: Part, i: nat): seq<Part>
    requires i <= |s.children|
    decreases s, |s.children| - i
  {
    if i == |s.children| then [] else Seen(v, s.children[i]) + SeenFrom(v, s, i + 1)
  }

  // An entry for each part without children, and for the headers of each enclosed message.
  function Entries(parts: seq<Part>): seq<ShownPart> {
    if parts == [] then []
    else
      var p := parts[0];
      (if p.Encloses() then [ShownPart(Some(p.envelope), Some(p.children[0]), p.disposition)]
       else if p.children == [] then [ShownPart(None, Some(p), p.disposition)]
       else []) +
      Entries(parts[1..])
  }

  // The entry that ends decrypted content.
  predicate EndsDecrypted(e: ShownPart) {
    e.envelope.None? && e.structure.Some? && e.structure.value.children != []
  }

  function Content(entries: seq<ShownPart>): seq<ShownPart> {
    if entries == [] then []
    else (if EndsDecrypted(entries[0]) then [] else [entries[0]]) + Content(entries[1..])
  }

  lemma {:induction false} EntriesConcat(a: seq<Part>, b: seq<Part>)
    ensures Entries(a + b) == Entries(a) + Entries(b)
  {
    if a == [] {
      assert a + b == b;
    } else {
      assert (a + b)[1..] == a[1..] + b;
      EntriesConcat(a[1..], b);
    }
  }

  lemma {:induction false} ContentConcat(a: seq<ShownPart>, b: seq<ShownPart>)
    ensures Content(a + b) == Content(a) + Content(b)
  {
    if a == [] {
      assert a + b == b;
    } else {
      assert (a + b)[1..] == a[1..] + b;
      ContentConcat(a[1..], b);
    }
  }

  /** Entries come in the order of the message, one for each part without children and one for the
      headers of each enclosed message before its content; nothing else is shown but the ends of
      decrypted parts, each behind its content, and these only for a decrypted message. */
  lemma {:induction false} ShowsInOrder(v: Setting, s: Part)
    ensures Content(Shown(v, s, s.disposition)) == Entries(Seen(v, s))
    ensures !v.decrypted ==> Shown(v, s, s.disposition) == Entries(Seen(v, s))
    ensures v.decrypted && s.subtype == "X-MIMEGPG" && s.children != [] && !s.Encloses() ==>
      Shown(v, s, s.disposition) == ShownFrom(v, s, 0) + [ShownPart(None, Some(s), s.disposition)]
    decreases s, |s.children| + 1
  {
    hide Best;
    EntriesOne(s, Seen(v, s)[1..]);
    if s.Encloses() {
      ShowsInOrder(v, s.children[0]);
      ContentOne(ShownPart(Some(s.envelope), Some(s.children[0]), s.disposition));
      ContentConcat([ShownPart(Some(s.envelope), Some(s.children[0]), s.disposition)],
                    Shown(v, s.children[0], s.children[0].disposition));
    } else if s.children == [] {
      ContentOne(ShownPart(None, Some(s), s.disposition));
    } else if s.Alternative() {
      ShowsInOrder(v, s.children[Best(v, s.children)]);
    } else {
      ShowsFromInOrder(v, s, 0);
      assert Seen(v, s) == [s] + SeenFrom(v, s, 0) && Seen(v, s)[1..] == SeenFrom(v, s, 0);
      assert Entries(Seen(v, s)) == Entries(SeenFrom(v, s, 0));
      assert ShownFrom(v, s, 0) + [] == ShownFrom(v, s, 0);
      ContentOne(ShownPart(None, Some(s), s.disposition));
      ContentConcat(ShownFrom(v, s, 0), [ShownPart(None, Some(s), s.disposition)]);
    }
  }

  lemma {:induction false} ShowsFromInOrder(v: Setting, s: Part, i: nat)
    requires i <= |s.children|
    ensures Content(ShownFrom(v, s, i)) == Entries(SeenFrom(v, s, i))
    ensures !v.decrypted ==> ShownFrom(v, s, i) == Entries(SeenFrom(v, s, i))
    decreases s, |s.children| - i
  {
    if i < |s.children| {
      var c := s.children[i];
      ShowsInOrder(v, c);
      ShowsFromInOrder(v, s, i + 1);
      ContentConcat(Shown(v, c, c.disposition), ShownFrom(v, s, i + 1));
      EntriesConcat(Seen(v, c), SeenFrom(v, s, i + 1));
    }
  }

  lemma EntriesOne(p: Part, rest: seq<Part>)
    ensures Entries([p] + rest) ==
      (if p.Encloses() then [ShownPart(Some(p.envelope), Some(p.children[0]), p.disposition)]
       else if p.children == [] then [ShownPart(None, Some(p), p.disposition)]
       else []) + Entries(rest)
  {
    assert ([p] + rest)[1..] == rest;
  }

  lemma ContentOne(e: ShownPart)
    ensures Content([e]) == if EndsDecrypted(e) then [] else [e]
  {
    assert Content([e][1..]) == [];
  }

  function RestOf(v: Setting, s: Part, i: nat, id: string): seq<ShownPart>
    requires i <= |s.children|
  {
    if id == "" then ShownFrom(v, s, i) else GrokkedFrom(v, s, i, id)
  }

  lemma RestStep(v: Setting, s: Part, i: nat, id: string)
    requires i <= |s.children|
    ensures RestOf(v, s, i, id)
      == if i == |s.children| then [] else Grokked(v, s.children[i], id) + RestOf(v, s, i + 1, id)
  {
  }

  // One step of grok, once it is known whether s itself was asked for.
  lemma GrokStep(v: Setting, s: Part, idArg: string, id: string, disposition: string)
    requires id == if s.id == idArg then "" else idArg
    requires disposition == if idArg != "" && s.id == idArg then "inline" else s.disposition
    ensures Grokked(v, s, idArg) ==
        if s.Encloses() then
          (if id == "" then [ShownPart(Some(s.envelope), Some(s.children[0]), disposition)] else []) +
          Grokked(v, s.children[0], id)
        else if s.children == [] then if id == "" then [ShownPart(None, Some(s), disposition)] else []
        else if s.Alternative() && id == "" then Grokked(v, s.children[Best(v, s.children)], id)
        else
          RestOf(v, s, 0, id) +
          if s.subtype == "X-MIMEGPG" && v.decrypted && id == "" then [ShownPart(None, Some(s), disposition)] else []
  {
  }

  // --- The view, as an object ----------------------------------------------------------------

  class View {
    const setting: Setting
    var shown: seq<ShownPart>

    constructor (v: Setting)
      ensures setting == v && shown == []
    {
      setting, shown := v, [];
    }

    /** The parts to show: all of the message, after its headers, or one of its parts. */
    method Init(structure: Part, envelope: Envelope, mimeId: string)
      modifies this
      ensures shown == (if mimeId == "" then [ShownPart(Some(envelope), None, "")] else []) + Grokked(setting, structure, mimeId)
    {
      shown := [];
      if |mimeId| == 0 {
        shown := shown + [ShownPart(Some(envelope), None, "")];
      }
      Grok(structure, mimeId);
    }

    method Grok(s: Part, mimeidArg: string)
      modifies this
      ensures shown == old(shown) + Grokked(setting, s, mimeidArg)
      decreases s, 1
    {
      hide Grokked, GrokkedFrom, Shown, ShownFrom, RestOf, HasHandler, Displayable, Inner, Best;
      var mimeid, disposition := mimeidArg, s.disposition;
      if |mimeid| > 0 && s.id == mimeid {
        mimeid := "";
        disposition := "inline";
      }
      GrokStep(setting, s, mimeidArg, mimeid, disposition);
      if s.MessageRfc822() && |s.children| > 0 {
        if |mimeid| == 0 {
          shown := shown + [ShownPart(Some(s.envelope), Some(s.children[0]), disposition)];
        }
        Grok(s.children[0], mimeid);
        return;
      }
      if |s.children| == 0 {
        if |mimeid| == 0 {
          shown := shown + [ShownPart(None, Some(s), disposition)];
        }
        return;
      }
      if NoCase(s.subtype) == "ALTERNATIVE" && |mimeid| == 0 {
        var i := ChooseAlternative(s.children);
        Grok(s.children[i], mimeid);
        return;
      }
      GrokChildren(s, mimeid);
      if s.subtype == "X-MIMEGPG" && setting.decrypted && |mimeid| == 0 {
        shown := shown + [ShownPart(None, Some(s), disposition)];
      }
    }

    // The alternatives are gone through in order; the last with a handler stays chosen.
    method ChooseAlternative(kids: seq<Part>) returns (i: nat)
      requires kids != []
      ensures i == Best(setting, kids)
    {
      hide Best, HasHandler;
      var n := 0;
      i := 0;
      while n < |kids|
        invariant n <= |kids| && (if n == 0 then i == 0 else i == Best(setting, kids[..n]))
      {
        var c := kids[n];
        if c.MultipartSigned() && |c.children| > 0 {
          c := c.children[0];
        }
        if c.major == "MULTIPART" && c.subtype == "X-MIMEGPG" && setting.decrypted && |c.children| > 1 {
          c := c.children[1];
        }
        if HasHandler(setting, c) {
          i := n;
        }
        BestMore(setting, kids, n);
        n := n + 1;
      }
      assert kids[..n] == kids;
    }

    method GrokChildren(s: Part, mimeid: string)
      modifies this
      ensures shown == old(shown) + RestOf(setting, s, 0, mimeid)
      decreases s, 0
    {
      hide Grokked, GrokkedFrom, Shown, ShownFrom, RestOf;
      var n := 0;
      while n < |s.children|
        invariant n <= |s.children|
        invariant shown + RestOf(setting, s, n, mimeid) == old(shown) + RestOf(setting, s, 0, mimeid)
      {
        RestStep(setting, s, n, mimeid);
        Grok(s.children[n], mimeid);
        n := n + 1;
      }
      RestStep(setting, s, n, mimeid);
    }
  }
}
