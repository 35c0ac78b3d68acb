/** Importing an address book: every imported entry gets a nickname of its own. */
module Nicknames {
  import opened Decimals
  import opened Texts

  datatype Address = Address(name: string, addr: string)

  // A line of the file, read by the address parser.
  datatype Parsed = SyntaxError | Addresses(list: seq<Address>)

  datatype Entry = Entry(nickname: string, addresses: seq<Address>)

  // --- Fresh names -------------------------------------------------------------------------

  // What is tried: the name, then the name with 1, 2, and so on after it.
  function Candidate(name: string, n: nat): string { if n == 0 then name else name + Decimal(n) }

  /** The first try is the name itself, and try n after that the name and the digits of n. */
  lemma TriesMean(name: string, n: nat)
    ensures Candidate(name, 0) == name && Candidate(name, 1) == name + "1"
    ensures n > 0 ==>
      var t := Candidate(name, n);
      name <= t && AllDigits(t[|name|..]) && Value(t[|name|..]) == n
  {
    DecimalValue(n);
    assert n > 0 ==> Candidate(name, n)[|name|..] == Decimal(n);
  }

  lemma CandidatesDiffer(name: string, m: nat, n: nat)
    requires m != n
    ensures Candidate(name, m) != Candidate(name, n)
  {
    DecimalValue(m);
    DecimalValue(n);
    assert m > 0 ==> Candidate(name, m)[|name|..] == Decimal(m);
    assert n > 0 ==> Candidate(name, n)[|name|..] == Decimal(n);
  }

  /** Of the first n candidates, no more are taken than there are names in use. */
  lemma CandidatesTaken(name: string, n: nat, used: set<string>)
    requires forall j :: 0 <= j < n ==> Candidate(name, j) in used
    ensures n <= |used|
  {
    var f := (j: nat) => Candidate(name, j);
    forall i, j | 0 <= i < j < n ensures f(i) != f(j) {
      CandidatesDiffer(name, i, j);
    }
    Pigeonhole(f, n, used);
  }

  // The n-th candidate is the first that is not in use.
  ghost predicate FirstFree(name: string, n: nat, used: set<string>) {
    Candidate(name, n) !in used && forall j :: 0 <= j < n ==> Candidate(name, j) in used
  }

  /** There is a fresh name, found after at most one try for each name in use, and one more. */
  method FreshName(name: string, nicknames: set<string>) returns (nCheck: string, ghost cnt: nat)
    ensures nCheck !in nicknames && nCheck == Candidate(name, cnt)
    ensures FirstFree(name, cnt, nicknames) && cnt <= |nicknames|
  {
    nCheck := name;
    var n := 0;
    while nCheck in nicknames
      invariant nCheck == Candidate(name, n) && forall j :: 0 <= j < n ==> Candidate(name, j) in nicknames
      invariant n <= |nicknames|
      decreases |nicknames| - n
    {
      CandidatesTaken(name, n + 1, nicknames);
      n := n + 1;
      nCheck := name + Decimal(n);
    }
    cnt := n;
  }

  // --- What a line asks for ----------------------------------------------------------------

  function Until(s: string, c: char): string { if s == "" || s[0] == c then "" else [s[0]] + Until(s[1..], c) }

  // A first address that is only a name is the nickname, with a colon after it.
  function Nickname(v: seq<Address>): string {
    if v != [] && v[0].addr == "" && v[0].name != "" then v[0].name[..|v[0].name| - 1] else ""
  }

  function Members(v: seq<Address>): seq<Address> { if v != [] && v[0].addr == "" then v[1..] else v }

  // The nickname, or else the name of the first address, or else the address itself.
  function ChosenName(v: seq<Address>): string
    requires Members(v) != []
  {
    var first := Members(v)[0];
    if Nickname(v) != "" then Nickname(v) else if first.name != "" then first.name else first.addr
  }

  /** A group name comes first, without the character behind it, then the name of the first
      address, then the address; an empty group name does not count. */
  lemma ChosenNameMeans(group: string, colon: char, first: Address, rest: seq<Address>)
    ensures var all, named := [first] + rest, [Address(group + [colon], "")] + ([first] + rest);
      Members(named) == all &&
      (group != "" ==> ChosenName(named) == group) &&
      (group == "" ==> ChosenName(named) == if first.name != "" then first.name else first.addr) &&
      (first.addr != "" ==>
        Members(all) == all && ChosenName(all) == if first.name != "" then first.name else first.addr)
  {
    var named := [Address(group + [colon], "")] + ([first] + rest);
    assert named[1..] == [first] + rest;
    assert (group + [colon])[..|group|] == group;
  }

  function BaseName(v: seq<Address>, lower: string -> string): string
    requires Members(v) != []
  {
    Until(Until(lower(ChosenName(v)), ' '), '@')
  }

  // Name is what full starts with, up to the first space or at sign.
  predicate FirstWord(name: string, full: string) {
    ' ' !in name && '@' !in name && name <= full && (name == full || full[|name|] == ' ' || full[|name|] == '@')
  }

  lemma {:induction false} UntilMeans(s: string, c: char)
    ensures var t := Until(s, c); c !in t && t <= s && (t == s || s[|t|] == c)
  {
    if s != "" && s[0] != c {
      UntilMeans(s[1..], c);
      var t := Until(s[1..], c);
      assert Until(s, c) == [s[0]] + t;
      assert t == s[1..][..|t|] && s[..|t| + 1] == [s[0]] + s[1..][..|t|];
    }
  }

  /** The name to start from is the first word of the chosen name in lower case, up to an at
      sign, and that is the only such word. */
  lemma BaseNameMeans(v: seq<Address>, lower: string -> string, word: string)
    requires Members(v) != []
    ensures var full := lower(ChosenName(v));
      FirstWord(BaseName(v, lower), full) && (FirstWord(word, full) ==> word == BaseName(v, lower))
  {
    var full, name := lower(ChosenName(v)), BaseName(v, lower);
    UntilMeans(full, ' ');
    UntilMeans(Until(full, ' '), '@');
    if FirstWord(word, full) {
      FirstWords(name, word, full);
      FirstWords(word, name, full);
    }
  }

  lemma FirstWords(a: string, b: string, full: string)
    requires FirstWord(a, full) && FirstWord(b, full)
    ensures |a| <= |b| && (|a| == |b| ==> a == b)
  {
    assert forall i :: 0 <= i < |a| ==> a[i] == full[i];
    assert a == full[..|a|] && b == full[..|b|];
  }

  // The entries that the lines ask for, before their names are made unique.
  function Wanted(lines: seq<string>, parse: string -> Parsed, lower: string -> string): seq<Entry> {
    if lines == [] then []
    else
      var n := |lines| - 1;
      var p := parse(lines[n]);
      Wanted(lines[..n], parse, lower) +
      if p.Addresses? && Members(p.list) != [] then [Entry(BaseName(p.list, lower), Members(p.list))] else []
  }

  function NamesIn(entries: seq<Entry>): set<string> { set e | e in entries :: e.nickname }

  // The entry has the addresses wanted, and the first name free after those before it.
  ghost predicate NamedAfter(existing: set<string>, before: seq<Entry>, w: Entry, e: Entry) {
    e.addresses == w.addresses &&
    exists n :: FirstFree(w.nickname, n, existing + NamesIn(before)) && e.nickname == Candidate(w.nickname, n)
  }

  ghost predicate Named(existing: set<string>, wanted: seq<Entry>, entries: seq<Entry>) {
    |entries| == |wanted| && forall k :: 0 <= k < |entries| ==> NamedAfter(existing, entries[..k], wanted[k], entries[k])
  }

  lemma NamedMore(existing: set<string>, wanted: seq<Entry>, entries: seq<Entry>, w: Entry, e: Entry, n: nat)
    requires Named(existing, wanted, entries) && e.addresses == w.addresses
    requires FirstFree(w.nickname, n, existing + NamesIn(entries)) && e.nickname == Candidate(w.nickname, n)
    ensures Named(existing, wanted + [w], entries + [e])
  {
    var wanted', entries' := wanted + [w], entries + [e];
    forall k | 0 <= k < |entries'| ensures NamedAfter(existing, entries'[..k], wanted'[k], entries'[k]) {
      assert entries'[..k] == entries[..k];
      assert k == |entries| ==> entries[..k] == entries;
    }
  }

  /** All names given are new, and no two are the same. */
  lemma NamesAreFresh(existing: set<string>, wanted: seq<Entry>, entries: seq<Entry>)
    requires Named(existing, wanted, entries)
    ensures forall k :: 0 <= k < |entries| ==> entries[k].nickname !in existing
    ensures forall j, k :: 0 <= j < k < |entries| ==> entries[j].nickname != entries[k].nickname
  {
    forall k | 0 <= k < |entries|
      ensures entries[k].nickname !in existing && forall j :: 0 <= j < k ==> entries[j].nickname != entries[k].nickname
    {
      assert NamedAfter(existing, entries[..k], wanted[k], entries[k]);
      forall j | 0 <= j < k ensures entries[j].nickname != entries[k].nickname {
        assert entries[..k][j] == entries[j];
      }
    }
  }

  /** The names are determined by the lines and the names in use before. */
  lemma {:induction false} NamesAreDetermined(existing: set<string>, wanted: seq<Entry>, a: seq<Entry>, b: seq<Entry>)
    requires Named(existing, wanted, a) && Named(existing, wanted, b)
    ensures a == b
  {
    hide NamedAfter;
    if a != [] {
      var k := |a| - 1;
      NamedLess(existing, wanted, a);
      NamedLess(existing, wanted, b);
      NamesAreDetermined(existing, wanted[..k], a[..k], b[..k]);
      NamedAfterOne(existing, a[..k], wanted[k], a[k], b[k]);
      assert a == a[..k] + [a[k]] && b == b[..k] + [b[k]];
    }
  }

  lemma NamedAfterOne(existing: set<string>, before: seq<Entry>, w: Entry, a: Entry, b: Entry)
    requires NamedAfter(existing, before, w, a) && NamedAfter(existing, before, w, b)
    ensures a == b
  {
    var used := existing + NamesIn(before);
    var m :| FirstFree(w.nickname, m, used) && a.nickname == Candidate(w.nickname, m);
    var n :| FirstFree(w.nickname, n, used) && b.nickname == Candidate(w.nickname, n);
    assert m == n;
  }

  lemma NamedLess(existing: set<string>, wanted: seq<Entry>, entries: seq<Entry>)
    requires Named(existing, wanted, entries) && entries != []
    ensures Named(existing, wanted[..|wanted| - 1], entries[..|entries| - 1])
  {
    hide NamedAfter;
    var m := |entries| - 1;
    forall k | 0 <= k < m ensures NamedAfter(existing, entries[..m][..k], wanted[..m][k], entries[..m][k]) {
      assert entries[..m][..k] == entries[..k];
    }
  }

  // --- The import --------------------------------------------------------------------------

  lemma NamedNone(existing: set<string>)
    ensures Named(existing, [], []) && NamesIn([]) == {}
  {
  }

  lemma NamesInMore(entries: seq<Entry>, e: Entry)
    ensures NamesIn(entries + [e]) == NamesIn(entries) + {e.nickname}
  {
  }

  lemma WantedNone(parse: string -> Parsed, lower: string -> string)
    ensures Wanted([], parse, lower) == []
  {
  }

  lemma WantedMore(lines: seq<string>, i: nat, parse: string -> Parsed, lower: string -> string)
    requires i < |lines|
    ensures var p := parse(lines[i]);
      Wanted(lines[..i + 1], parse, lower) == Wanted(lines[..i], parse, lower) +
        if p.Addresses? && Members(p.list) != [] then [Entry(BaseName(p.list, lower), Members(p.list))] else []
    ensures Wanted(lines[..i], parse, lower) + [] == Wanted(lines[..i], parse, lower)
  {
    assert lines[..i + 1][..i] == lines[..i];
  }

  // The addresses of an entry, and the name to start from.
  method ReadName(list: seq<Address>, lower: string -> string) returns (v: seq<Address>, name: string)
    ensures v == Members(list) && (v != [] ==> FirstWord(name, lower(ChosenName(list))))
    ensures v != [] ==> name == BaseName(list, lower)
  {
    v, name := list, "";
    if |v| > 0 && |v[0].addr| == 0 {
      name := v[0].name;
      v := v[1..];
      if |name| > 0 {
        name := name[..|name| - 1];
      }
    }
    if |v| > 0 {
      if |name| == 0 {
        name := v[0].name;
      }
      if |name| == 0 {
        name := v[0].addr;
      }
      name := Until(Until(lower(name), ' '), '@');
      BaseNameMeans(list, lower, name);
    }
  }

  function NamesOf(index: seq<string>): set<string> { set n | n in index }

  /** The entries to import: nothing at all if some line is in error. */
  method Import(index: seq<string>, lines: seq<string>, parse: string -> Parsed, lower: string -> string)
    returns (r: Option<seq<Entry>>)
    ensures r.None? <==> exists i :: 0 <= i < |lines| && parse(lines[i]).SyntaxError?
    ensures r.Some? ==> Named(NamesOf(index), Wanted(lines, parse, lower), r.value)
  {
    hide Named, NamedAfter, FirstFree, BaseName, Members, Candidate, Wanted, NamesIn;
    ghost var existing := NamesOf(index);
    NamedNone(existing);
    WantedNone(parse, lower);
    assert lines[..0] == [];
    var nicknames := NamesOf(index);
    var newList: seq<Entry> := [];
    var i := 0;
    while i < |lines|
      invariant i <= |lines|
      invariant forall j :: 0 <= j < i ==> !parse(lines[j]).SyntaxError?
      invariant Named(existing, Wanted(lines[..i], parse, lower), newList)
      invariant nicknames == existing + NamesIn(newList)
    {
      var p := parse(lines[i]);
      WantedMore(lines, i, parse, lower);
      i := i + 1;
      if p.SyntaxError? {
        return None;
      }
      var v, name := ReadName(p.list, lower);
      if |v| > 0 {
        var nCheck, cnt := FreshName(name, nicknames);
        var newEntry := Entry(nCheck, v);
        NamedMore(existing, Wanted(lines[..i - 1], parse, lower), newList, Entry(name, v), newEntry, cnt);
        NamesInMore(newList, newEntry);
        newList := newList + [newEntry];
        nicknames := nicknames + {nCheck};
      }
    }
    assert lines[..i] == lines;
    r := Some(newList);
  }
}
