/** The folder hierarchy: a tree of entries, each shown on a screen row, and the map
    from rows back to entries. */
module Hierarchy {

  // --- Numbering, on the row map alone ---------------------------------------------------

  datatype Kind = RootKind | ServerKind | FolderKind

  type RowMap = map<int, Entry>

  // Entry e moved to row r, or taken off the screen if r is negative. Whoever was on
  // row r is taken off.
  function Place(m: RowMap, e: Entry, r: int): RowMap {
    var rest := map k | k in m && m[k] != e :: m[k];
    if r < 0 then rest else rest[r := e]
  }

  // EntryIteratorAssignRow, with the row map it works on.
  datatype Pass = Pass(rows: RowMap, row: int, separate: bool)
  {
    // The row that the next entry gets: a blank row goes before a server, except
    // before the first entry.
    function RowFor(e: Entry): int {
      if e.kind.ServerKind? && separate then row + 1 else row
    }

    function Visit(e: Entry): Pass {
      if e.kind.RootKind? then this else Pass(Place(rows, e, RowFor(e)), RowFor(e) + 1, true)
    }

    function VisitAll(es: seq<Entry>): Pass
      decreases |es|
    {
      if es == [] then this else Visit(es[0]).VisitAll(es[1..])
    }

    // Numbering on a clean screen.
    function Number(es: seq<Entry>): Pass
      decreases |es|
    {
      if es == [] then this
      else if es[0].kind.RootKind? then Number(es[1..])
      else Pass(rows[RowFor(es[0]) := es[0]], RowFor(es[0]) + 1, true).Number(es[1..])
    }
  }

  // The rows of a whole-tree pass over es from a clean screen.
  function Numbering(es: seq<Entry>, first: int): Pass { Pass(map[], first, false).Number(es) }

  ghost predicate Distinct(es: seq<Entry>) { forall i, j :: 0 <= i < j < |es| ==> es[i] != es[j] }

  // The map holds `base`, and besides it only entries that are still to be visited.
  ghost predicate Settling(m: RowMap, base: RowMap, row: int, es: seq<Entry>) {
    (forall k :: k in base ==> k in m && m[k] == base[k] && k < row && base[k] !in es) &&
    (forall k :: k in m ==> !m[k].kind.RootKind? && (k in base || m[k] in es))
  }

  lemma Settled(m: RowMap, base: RowMap, row: int)
    requires Settling(m, base, row, [])
    ensures m == base
  {
    forall k | k in m.Keys ensures k in base.Keys {
    }
    forall k | k in base.Keys ensures k in m.Keys && m[k] == base[k] {
    }
    assert m.Keys <= base.Keys && base.Keys <= m.Keys;
  }

  // Visiting the next entry puts it on its row, above everything still to be visited.
  lemma SettleOne(m: RowMap, base: RowMap, row: int, r: int, es: seq<Entry>)
    requires Distinct(es) && es != [] && Settling(m, base, row, es)
    requires r >= row >= 0 && !es[0].kind.RootKind?
    ensures Settling(Place(m, es[0], r), base[r := es[0]], r + 1, es[1..])
  {
    var e, rest := es[0], es[1..];
    forall x ensures x in es <==> x == e || x in rest {
      assert es == [e] + rest;
    }
    var m', base' := Place(m, e, r), base[r := e];
    forall k | k in base' ensures k in m' && m'[k] == base'[k] && k < r + 1 && base'[k] !in rest {
      assert k in base ==> base[k] !in es;
    }
    forall k | k in m' ensures !m'[k].kind.RootKind? && (k in base' || m'[k] in rest) {
      assert k != r ==> k in m && m[k] == m'[k] != e;
    }
  }

  // A root is passed over.
  lemma SettleNone(m: RowMap, base: RowMap, row: int, es: seq<Entry>)
    requires es != [] && Settling(m, base, row, es) && es[0].kind.RootKind?
    ensures Settling(m, base, row, es[1..])
  {
    assert forall x :: x in es ==> x == es[0] || x in es[1..];
  }

  lemma {:induction false} VisitSettles(m: RowMap, base: RowMap, row: int, separate: bool, es: seq<Entry>)
    requires Distinct(es) && Settling(m, base, row, es) && row >= 0
    ensures Pass(m, row, separate).VisitAll(es) == Pass(base, row, separate).Number(es)
    decreases |es|
  {
    hide Settling, Place;
    if es == [] {
      Settled(m, base, row);
    } else if es[0].kind.RootKind? {
      SettleNone(m, base, row, es);
      VisitSettles(m, base, row, separate, es[1..]);
    } else {
      var r := Pass(m, row, separate).RowFor(es[0]);
      SettleOne(m, base, row, r, es);
      VisitSettles(Place(m, es[0], r), base[r := es[0]], r + 1, true, es[1..]);
    }
  }

  lemma {:induction false} NumberConcat(p: Pass, a: seq<Entry>, b: seq<Entry>)
    ensures p.Number(a + b) == p.Number(a).Number(b)
    decreases |a|
  {
    if a == [] {
      assert a + b == b;
    } else {
      assert (a + b)[1..] == a[1..] + b;
      if a[0].kind.RootKind? {
        NumberConcat(p, a[1..], b);
      } else {
        NumberConcat(Pass(p.rows[p.RowFor(a[0]) := a[0]], p.RowFor(a[0]) + 1, true), a[1..], b);
      }
    }
  }

  lemma {:induction false} VisitConcat(p: Pass, a: seq<Entry>, b: seq<Entry>)
    ensures p.VisitAll(a + b) == p.VisitAll(a).VisitAll(b)
    decreases |a|
  {
    if a == [] {
      assert a + b == b;
    } else {
      assert (a + b)[1..] == a[1..] + b;
      VisitConcat(p.Visit(a[0]), a[1..], b);
    }
  }

  // Numbering adds entries on rows from p.row on.
  lemma {:induction false} NumberGrows(p: Pass, es: seq<Entry>)
    requires forall k :: k in p.rows ==> k < p.row
    ensures var q := p.Number(es);
      p.row <= q.row &&
      (forall k :: k in p.rows ==> k in q.rows && q.rows[k] == p.rows[k]) &&
      (forall k :: k in q.rows ==> k < q.row && (k in p.rows || (q.rows[k] in es && !q.rows[k].kind.RootKind?)))
    decreases |es|
  {
    if es != [] {
      if es[0].kind.RootKind? {
        NumberGrows(p, es[1..]);
      } else {
        NumberGrows(Pass(p.rows[p.RowFor(es[0]) := es[0]], p.RowFor(es[0]) + 1, true), es[1..]);
      }
    }
  }

  /** A pass over the whole tree gives the numbering from scratch, whatever was on the
      screen before. */
  lemma FullPassNumbers(m: RowMap, es: seq<Entry>, first: int)
    requires first >= 0 && Distinct(es)
    requires forall k :: k in m ==> m[k] in es && !m[k].kind.RootKind?
    ensures Pass(m, first, false).VisitAll(es) == Numbering(es, first)
  {
    VisitSettles(m, map[], first, false, es);
  }

  // Restarting at an entry, on the row it has.
  lemma RestartAt(p: Pass, e: Entry, es: seq<Entry>)
    requires !e.kind.RootKind?
    ensures Pass(p.rows, p.RowFor(e), false).Number([e] + es) == p.Number([e] + es)
  {
    assert ([e] + es)[1..] == es;
  }

  /** Renumbering from an entry on refines renumbering the whole tree. If the entries
      before e in prefix order, and e itself, have the rows of a whole-tree pass from
      row `first`, and whatever else is on screen comes after e, then renumbering from
      e, on its row, has the result of a fresh pass over the whole tree. */
  lemma RenumberingRefines(m: RowMap, before: seq<Entry>, e: Entry, after: seq<Entry>, first: int)
    requires first >= 0 && Distinct(before + [e] + after) && !e.kind.RootKind?
    requires var p := Numbering(before, first);
      (forall k :: k in p.rows ==> k in m && m[k] == p.rows[k]) &&
      p.RowFor(e) in m && m[p.RowFor(e)] == e &&
      (forall k :: k in m ==> !m[k].kind.RootKind? && (k in p.rows || m[k] in [e] + after))
    ensures var row := Numbering(before, first).RowFor(e);
      Pass(m, row, false).VisitAll([e] + after).rows == Numbering(before + [e] + after, first).rows &&
      Pass(m, row, false).VisitAll([e] + after).rows == Pass(m, first, false).VisitAll(before + [e] + after).rows
  {
    var all, late := before + [e] + after, [e] + after;
    var p := Numbering(before, first);
    SettlesAfter(m, before, e, after, first);
    RestartAt(p, e, after);
    assert all == before + late;
    NumberConcat(Pass(map[], first, false), before, late);
    NumberGrows(Pass(map[], first, false), before);
    FullPassNumbers(m, all, first);
  }

  // The same without asking that e is already on its row.
  lemma SettlesAfter(m: RowMap, before: seq<Entry>, e: Entry, after: seq<Entry>, first: int)
    requires first >= 0 && Distinct(before + [e] + after) && !e.kind.RootKind?
    requires var p := Numbering(before, first);
      (forall k :: k in p.rows ==> k in m && m[k] == p.rows[k]) &&
      (forall k :: k in m ==> !m[k].kind.RootKind? && (k in p.rows || m[k] in [e] + after))
    ensures var p := Numbering(before, first);
      Pass(m, p.RowFor(e), false).VisitAll([e] + after) == Pass(p.rows, p.RowFor(e), false).Number([e] + after)
  {
    var all, late := before + [e] + after, [e] + after;
    var p := Numbering(before, first);
    NumberGrows(Pass(map[], first, false), before);
    forall k | k in p.rows ensures p.rows[k] !in late {
      var i :| 0 <= i < |before| && before[i] == p.rows[k];
      assert all[i] == p.rows[k];
      forall j | 0 <= j < |late| ensures late[j] != p.rows[k] {
        assert all[|before| + j] == late[j];
      }
    }
    forall i, j | 0 <= i < j < |late| ensures late[i] != late[j] {
      assert all[|before| + i] == late[i] && all[|before| + j] == late[j];
    }
    VisitSettles(m, p.rows, p.RowFor(e), false, late);
  }

  // --- The tree ----------------------------------------------------------------------------

  /** Who is below whom: the children of every live entry, in order, and the parent of every
      entry that has one. */
  ghost predicate IsChild(t: Tree, e: Entry, c: Entry) {
    c in t.kids && c in t.up && t.up[c] == e && c.nestingLevel == e.nestingLevel + 1 && !c.kind.RootKind?
  }

  datatype Tree = Tree(kids: map<Entry, seq<Entry>>, up: map<Entry, Entry>)
  {
    ghost predicate Valid() {
      (forall e, i :: e in kids && 0 <= i < |kids[e]| ==> IsChild(this, e, kids[e][i])) &&
      (forall e :: e in kids ==> Distinct(kids[e])) &&
      (forall c :: c in up ==> c in kids && up[c] in kids && c in kids[up[c]])
    }

    ghost function From(l: nat): set<Entry> { set e | e in kids && e.nestingLevel >= l }

    ghost predicate AllAt(es: seq<Entry>, l: nat) {
      forall i :: 0 <= i < |es| ==> es[i] in kids && es[i].nestingLevel == l
    }

    /** An entry and everything below it, in prefix order. */
    ghost function Prefix(e: Entry): seq<Entry>
      requires Valid() && e in kids
      decreases From(e.nestingLevel), 0
    {
      assert e in From(e.nestingLevel) && e !in From(e.nestingLevel + 1);
      [e] + PrefixAll(kids[e], e.nestingLevel + 1)
    }

    ghost function PrefixAll(es: seq<Entry>, l: nat): seq<Entry>
      requires Valid() && AllAt(es, l)
      decreases From(l), |es| + 1
    {
      if es == [] then [] else Prefix(es[0]) + PrefixAll(es[1..], l)
    }

    // Where an entry stands among its siblings.
    ghost function Index(e: Entry): (i: nat)
      requires Valid() && e in up
      ensures i < |kids[up[e]]| && kids[up[e]][i] == e
    {
      var i :| 0 <= i < |kids[up[e]]| && kids[up[e]][i] == e; i
    }

    ghost function Top(e: Entry): (r: Entry)
      requires Valid() && e in kids
      ensures r in kids && r !in up
      decreases e.nestingLevel
    {
      if e !in up then e else Level(e); Top(up[e])
    }

    lemma Level(e: Entry)
      requires Valid() && e in up
      ensures up[e] in kids && e.nestingLevel == up[e].nestingLevel + 1 && IsChild(this, up[e], e)
    {
      var i := Index(e);
      assert IsChild(this, up[e], kids[up[e]][i]);
    }

    lemma ChildrenAt(e: Entry)
      requires Valid() && e in kids
      ensures AllAt(kids[e], e.nestingLevel + 1)
    {
    }

    // What comes before an entry in prefix order.
    ghost function Before(e: Entry): seq<Entry>
      requires Valid() && e in kids
      decreases e.nestingLevel
    {
      if e !in up then []
      else
        Level(e);
        Before(up[e]) + [up[e]] + PrefixAll(kids[up[e]][..Index(e)], e.nestingLevel)
    }

    // What comes after an entry and everything below it.
    ghost function Later(e: Entry): seq<Entry>
      requires Valid() && e in kids
      decreases e.nestingLevel
    {
      if e !in up then []
      else
        Level(e);
        PrefixAll(kids[up[e]][Index(e) + 1..], e.nestingLevel) + Later(up[e])
    }

    ghost function After(e: Entry): seq<Entry>
      requires Valid() && e in kids
    {
      Prefix(e) + Later(e)
    }

    // x is e or below it.
    ghost predicate Under(e: Entry, x: Entry)
      requires Valid() && e in kids && x in kids
      decreases x.nestingLevel
    {
      x == e || (x in up && (Level(x); Under(e, up[x])))
    }
  }

  lemma PrefixAllStep(t: Tree, es: seq<Entry>, l: nat)
    requires t.Valid() && t.AllAt(es, l)
    ensures es == [] ==> t.PrefixAll(es, l) == []
    ensures es != [] ==>
      t.AllAt(es[1..], l) && es[0] in t.kids && t.PrefixAll(es, l) == t.Prefix(es[0]) + t.PrefixAll(es[1..], l)
  {
  }

  lemma {:induction false} PrefixAllConcat(t: Tree, a: seq<Entry>, b: seq<Entry>, l: nat)
    requires t.Valid() && t.AllAt(a, l) && t.AllAt(b, l)
    ensures t.AllAt(a + b, l) && t.PrefixAll(a + b, l) == t.PrefixAll(a, l) + t.PrefixAll(b, l)
    decreases |a|
  {
    hide Tree.Valid, Tree.Prefix, Tree.PrefixAll;
    PrefixAllStep(t, a, l);
    PrefixAllStep(t, a + b, l);
    if a == [] {
      assert a + b == b;
    } else {
      PrefixAllConcat(t, a[1..], b, l);
      assert (a + b)[1..] == a[1..] + b;
    }
  }

  lemma PrefixAllOne(t: Tree, e: Entry)
    requires t.Valid() && e in t.kids
    ensures t.AllAt([e], e.nestingLevel) && t.PrefixAll([e], e.nestingLevel) == t.Prefix(e)
  {
    assert t.PrefixAll([], e.nestingLevel) == [];
    assert [e][1..] == [];
  }

  // A row of siblings, split at one of them.
  lemma PrefixAllAround(t: Tree, a: seq<Entry>, e: Entry, b: seq<Entry>)
    requires t.Valid() && t.AllAt(a, e.nestingLevel) && e in t.kids && t.AllAt(b, e.nestingLevel)
    ensures var l := e.nestingLevel;
      t.AllAt(a + [e] + b, l) &&
      t.PrefixAll(a + [e] + b, l) == t.PrefixAll(a, l) + t.Prefix(e) + t.PrefixAll(b, l)
  {
    var l := e.nestingLevel;
    PrefixAllOne(t, e);
    PrefixAllConcat(t, a, [e], l);
    PrefixAllConcat(t, a + [e], b, l);
  }

  lemma Siblings(t: Tree, e: Entry)
    requires t.Valid() && e in t.up
    ensures var p, l := t.up[e], e.nestingLevel;
      p in t.kids && l == p.nestingLevel + 1 && t.Index(e) < |t.kids[p]| &&
      t.AllAt(t.kids[p][..t.Index(e)], l) && t.AllAt(t.kids[p][t.Index(e) + 1..], l) &&
      t.kids[p] == t.kids[p][..t.Index(e)] + [e] + t.kids[p][t.Index(e) + 1..]
  {
    t.Level(e);
    t.ChildrenAt(t.up[e]);
  }

  /** Before and After split the prefix order of the whole tree at an entry. */
  lemma {:induction false} PrefixSplits(t: Tree, e: Entry)
    requires t.Valid() && e in t.kids
    ensures t.Prefix(t.Top(e)) == t.Before(e) + t.After(e)
    decreases e.nestingLevel
  {
    if e in t.up {
      t.Level(e);
      PrefixSplits(t, t.up[e]);
      SplitStep(t, e);
    }
  }

  // One level down.
  lemma SplitStep(t: Tree, e: Entry)
    requires t.Valid() && e in t.up
    ensures t.up[e] in t.kids && t.Before(e) + t.After(e) == t.Before(t.up[e]) + t.After(t.up[e])
  {
    var p, l := t.up[e], e.nestingLevel;
    Siblings(t, e);
    var a, b := t.kids[p][..t.Index(e)], t.kids[p][t.Index(e) + 1..];
    PrefixAllAround(t, a, e, b);
    Regroup(t.Before(p), [p], t.PrefixAll(a, l), t.Prefix(e), t.PrefixAll(b, l), t.Later(p));
  }

  lemma Regroup(a: seq<Entry>, p: seq<Entry>, b: seq<Entry>, x: seq<Entry>, c: seq<Entry>, d: seq<Entry>)
    ensures (a + p + b) + (x + (c + d)) == a + ((p + (b + x + c)) + d)
  {
  }

  // --- Nothing is visited twice ---

  lemma {:induction false} UnderLevel(t: Tree, e: Entry, x: Entry)
    requires t.Valid() && e in t.kids && x in t.kids && t.Under(e, x)
    ensures e.nestingLevel <= x.nestingLevel
    ensures e.nestingLevel == x.nestingLevel ==> e == x
    decreases x.nestingLevel
  {
    if x != e {
      t.Level(x);
      UnderLevel(t, e, t.up[x]);
    }
  }

  lemma {:induction false} OneAbove(t: Tree, e: Entry, d: Entry, x: Entry)
    requires t.Valid() && e in t.kids && d in t.kids && x in t.kids
    requires t.Under(e, x) && t.Under(d, x) && e.nestingLevel == d.nestingLevel
    ensures e == d
    decreases x.nestingLevel
  {
    UnderLevel(t, e, x);
    UnderLevel(t, d, x);
    if x != e && x != d {
      t.Level(x);
      OneAbove(t, e, d, t.up[x]);
    }
  }

  lemma {:induction false} UnderChild(t: Tree, e: Entry, c: Entry, x: Entry)
    requires t.Valid() && c in t.up && e == t.up[c] && x in t.kids && t.Under(c, x)
    ensures t.Under(e, x)
    decreases x.nestingLevel
  {
    t.Level(c);
    if x != c {
      t.Level(x);
      UnderChild(t, e, c, t.up[x]);
    }
  }

  // Everything that a prefix walk visits is below where it starts.
  lemma {:induction false} PrefixUnder(t: Tree, e: Entry, x: Entry)
    requires t.Valid() && e in t.kids && x in t.Prefix(e)
    ensures x in t.kids && t.Under(e, x)
    decreases t.From(e.nestingLevel), 0
  {
    if x != e {
      assert e in t.From(e.nestingLevel) && e !in t.From(e.nestingLevel + 1);
      var i := PrefixAllUnder(t, t.kids[e], e.nestingLevel + 1, x);
      var c := t.kids[e][i];
      assert IsChild(t, e, c);
      UnderChild(t, e, c, x);
    }
  }

  lemma {:induction false} PrefixAllUnder(t: Tree, es: seq<Entry>, l: nat, x: Entry) returns (i: nat)
    requires t.Valid() && t.AllAt(es, l) && x in t.PrefixAll(es, l)
    ensures i < |es| && x in t.kids && t.Under(es[i], x)
    decreases t.From(l), |es| + 1
  {
    if x in t.Prefix(es[0]) {
      PrefixUnder(t, es[0], x);
      i := 0;
    } else {
      var j := PrefixAllUnder(t, es[1..], l, x);
      i := j + 1;
    }
  }

  /** A prefix walk visits nothing twice. */
  lemma {:induction false} PrefixDistinct(t: Tree, e: Entry)
    requires t.Valid() && e in t.kids
    ensures Distinct(t.Prefix(e))
    decreases t.From(e.nestingLevel), 0
  {
    assert e in t.From(e.nestingLevel) && e !in t.From(e.nestingLevel + 1);
    var l := e.nestingLevel + 1;
    PrefixAllDistinct(t, t.kids[e], l);
    if e in t.PrefixAll(t.kids[e], l) {
      var i := PrefixAllUnder(t, t.kids[e], l, e);
      UnderLevel(t, t.kids[e][i], e);
    }
  }

  lemma {:induction false} PrefixAllDistinct(t: Tree, es: seq<Entry>, l: nat)
    requires t.Valid() && t.AllAt(es, l) && Distinct(es)
    ensures Distinct(t.PrefixAll(es, l))
    decreases t.From(l), |es| + 1
  {
    if es != [] {
      var a, b := t.Prefix(es[0]), t.PrefixAll(es[1..], l);
      PrefixDistinct(t, es[0]);
      PrefixAllDistinct(t, es[1..], l);
      forall x | x in a ensures x !in b {
        PrefixUnder(t, es[0], x);
        if x in b {
          var j := PrefixAllUnder(t, es[1..], l, x);
          OneAbove(t, es[0], es[j + 1], x);
        }
      }
      DistinctConcat(a, b);
    }
  }

  lemma DistinctConcat(a: seq<Entry>, b: seq<Entry>)
    requires Distinct(a) && Distinct(b) && forall x :: x in a ==> x !in b
    ensures Distinct(a + b)
  {
    forall i, j | 0 <= i < j < |a + b| ensures (a + b)[i] != (a + b)[j] {
      if i < |a| <= j {
        assert a[i] in a && b[j - |a|] in b;
      }
    }
  }

  // --- Changing one list of children ---

  // Only the children of p differ.
  ghost predicate SameBut(t: Tree, t': Tree, p: Entry) {
    t.Valid() && t'.Valid() && p in t.kids && t'.up == t.up && t'.kids.Keys == t.kids.Keys &&
    forall e :: e in t.kids && e != p ==> t'.kids[e] == t.kids[e]
  }

  // A walk depends only on what it visits.
  lemma {:induction false} SamePrefix(t: Tree, t': Tree, e: Entry)
    requires t.Valid() && t'.Valid() && e in t.kids
    requires forall x :: x in t.Prefix(e) && x in t.kids ==> x in t'.kids && t'.kids[x] == t.kids[x]
    ensures e in t'.kids && t'.Prefix(e) == t.Prefix(e)
    decreases t.From(e.nestingLevel), 0
  {
    assert e in t.From(e.nestingLevel) && e !in t.From(e.nestingLevel + 1);
    assert e in t.Prefix(e);
    SamePrefixAll(t, t', t.kids[e], e.nestingLevel + 1);
  }

  lemma {:induction false} SamePrefixAll(t: Tree, t': Tree, es: seq<Entry>, l: nat)
    requires t.Valid() && t'.Valid() && t.AllAt(es, l)
    requires forall x :: x in t.PrefixAll(es, l) && x in t.kids ==> x in t'.kids && t'.kids[x] == t.kids[x]
    ensures t'.AllAt(es, l) && t'.PrefixAll(es, l) == t.PrefixAll(es, l)
    decreases t.From(l), |es| + 1
  {
    if es != [] {
      SamePrefix(t, t', es[0]);
      SamePrefixAll(t, t', es[1..], l);
      forall i | 0 <= i < |es| ensures es[i] in t'.kids {
        assert i > 0 ==> es[i] == es[1..][i - 1];
      }
    }
  }

  // Siblings i and i + 1 of the children of p change places.
  ghost function Swapped(t: Tree, p: Entry, i: nat): Tree
    requires p in t.kids && i + 1 < |t.kids[p]|
  {
    var c := t.kids[p];
    t.(kids := t.kids[p := c[i := c[i + 1]][i + 1 := c[i]]])
  }

  // Where a swap of i and i + 1 takes position j.
  ghost function Moved(i: nat, j: nat): nat { if j == i then i + 1 else if j == i + 1 then i else j }

  lemma SwappedValid(t: Tree, p: Entry, i: nat)
    requires t.Valid() && p in t.kids && i + 1 < |t.kids[p]|
    ensures SameBut(t, Swapped(t, p, i), p)
  {
    hide IsChild;
    var t' := Swapped(t, p, i);
    SwappedChildren(t, p, i);
    forall e | e in t.up ensures e in t'.kids[t.up[e]] {
      assert t'.kids[t.up[e]][if t.up[e] == p then Moved(i, t.Index(e)) else t.Index(e)] == e;
    }
  }

  lemma SwappedChildren(t: Tree, p: Entry, i: nat)
    requires t.Valid() && p in t.kids && i + 1 < |t.kids[p]|
    ensures var t' := Swapped(t, p, i);
      forall e, j :: e in t'.kids && 0 <= j < |t'.kids[e]| ==> IsChild(t', e, t'.kids[e][j])
  {
    var t' := Swapped(t, p, i);
    forall e, j | e in t'.kids && 0 <= j < |t'.kids[e]| ensures IsChild(t', e, t'.kids[e][j]) {
      assert IsChild(t, e, t.kids[e][if e == p then Moved(i, j) else j]);
    }
  }

  /** Swapping the same neighbours again restores the tree. */
  lemma SwapBack(t: Tree, p: Entry, i: nat)
    requires p in t.kids && i + 1 < |t.kids[p]|
    ensures Swapped(Swapped(t, p, i), p, i) == t
  {
    var t' := Swapped(Swapped(t, p, i), p, i);
    assert t'.kids[p] == t.kids[p];
    assert t'.kids == t.kids;
  }

  // A part of the tree that does not hold p is walked as before.
  lemma SameBeside(t: Tree, t': Tree, p: Entry, e: Entry)
    requires SameBut(t, t', p) && e in t.kids && !t.Under(e, p)
    ensures t'.Prefix(e) == t.Prefix(e)
  {
    if p in t.Prefix(e) {
      PrefixUnder(t, e, p);
    }
    SamePrefix(t, t', e);
  }

  lemma {:induction false} SameBesideAll(t: Tree, t': Tree, p: Entry, es: seq<Entry>, l: nat)
    requires SameBut(t, t', p) && t.AllAt(es, l) && forall i :: 0 <= i < |es| ==> !t.Under(es[i], p)
    ensures t'.AllAt(es, l) && t'.PrefixAll(es, l) == t.PrefixAll(es, l)
    decreases |es|
  {
    if es != [] {
      SameBeside(t, t', p, es[0]);
      SameBesideAll(t, t', p, es[1..], l);
    }
  }

  // Only what is below p, and the children of p, differ.
  ghost predicate SameOutside(t: Tree, t': Tree, p: Entry) {
    t.Valid() && t'.Valid() && p in t.kids &&
    (forall e :: e in t.kids && !t.Under(p, e) ==> e in t'.kids && t'.kids[e] == t.kids[e]) &&
    (forall q :: q in t.kids && t.Under(q, p) ==>
      q in t'.kids && (q in t'.up <==> q in t.up) && (q in t.up ==> t'.up[q] == t.up[q]))
  }

  // Of two entries above x, one is above the other.
  lemma {:induction false} OneUnder(t: Tree, e: Entry, p: Entry, x: Entry)
    requires t.Valid() && e in t.kids && p in t.kids && x in t.kids && t.Under(e, x) && t.Under(p, x)
    requires e.nestingLevel <= p.nestingLevel
    ensures t.Under(e, p)
    decreases x.nestingLevel
  {
    UnderLevel(t, p, x);
    if x != p && x != e {
      t.Level(x);
      OneUnder(t, e, p, t.up[x]);
    }
  }

  // Neither p nor anything above it is in es.
  lemma {:induction false} SameElsewhere(t: Tree, t': Tree, p: Entry, es: seq<Entry>, l: nat)
    requires SameOutside(t, t', p) && t.AllAt(es, l) && l <= p.nestingLevel
    requires forall i :: 0 <= i < |es| ==> !t.Under(es[i], p)
    ensures t'.AllAt(es, l) && t'.PrefixAll(es, l) == t.PrefixAll(es, l)
  {
    forall x | x in t.PrefixAll(es, l) && x in t.kids ensures x in t'.kids && t'.kids[x] == t.kids[x] {
      var i := PrefixAllUnder(t, es, l, x);
      if t.Under(p, x) {
        OneUnder(t, es[i], p, x);
      }
    }
    SamePrefixAll(t, t', es, l);
  }

  lemma SameIndex(t: Tree, t': Tree, e: Entry)
    requires t.Valid() && t'.Valid() && e in t.up && e in t'.up && t'.up[e] == t.up[e]
    requires t.up[e] in t.kids && t.up[e] in t'.kids && t'.kids[t.up[e]] == t.kids[t.up[e]]
    ensures t'.Index(e) == t.Index(e)
  {
  }

  /** What surrounds p, or something above it, is walked as before. */
  lemma {:induction false} SameAround(t: Tree, t': Tree, p: Entry, q: Entry)
    requires SameOutside(t, t', p) && q in t.kids && t.Under(q, p)
    ensures q in t'.kids && t'.Before(q) == t.Before(q) && t'.Later(q) == t.Later(q) && t'.Top(q) == t.Top(q)
    decreases q.nestingLevel
  {
    if q in t.up {
      var u := t.up[q];
      t.Level(q);
      UnderLevel(t, q, p);
      UnderChild(t, u, q, p);
      SameAround(t, t', p, u);
      if t.Under(p, u) {
        UnderLevel(t, p, u);
      }
      Siblings(t, q);
      SameIndex(t, t', q);
      var a, b := t.kids[u][..t.Index(q)], t.kids[u][t.Index(q) + 1..];
      forall i | 0 <= i < |a| ensures !t.Under(a[i], p) { if t.Under(a[i], p) { OneAbove(t, a[i], q, p); } }
      forall i | 0 <= i < |b| ensures !t.Under(b[i], p) { if t.Under(b[i], p) { OneAbove(t, b[i], q, p); } }
      SameElsewhere(t, t', p, a, q.nestingLevel);
      SameElsewhere(t, t', p, b, q.nestingLevel);
    }
  }

  // The children of p are walked as before.
  lemma SameChildren(t: Tree, t': Tree, p: Entry, es: seq<Entry>)
    requires SameBut(t, t', p) && t.AllAt(es, p.nestingLevel + 1)
    ensures t'.AllAt(es, p.nestingLevel + 1)
    ensures t'.PrefixAll(es, p.nestingLevel + 1) == t.PrefixAll(es, p.nestingLevel + 1)
  {
    forall i | 0 <= i < |es| ensures !t.Under(es[i], p) { if t.Under(es[i], p) { UnderLevel(t, es[i], p); } }
    SameBesideAll(t, t', p, es, p.nestingLevel + 1);
  }

  // The walk around two neighbours a, x of the children of p.
  lemma Neighbours(t: Tree, p: Entry, i: nat)
    requires t.Valid() && p in t.kids && i + 1 < |t.kids[p]|
    ensures var a, x, l := t.kids[p][i], t.kids[p][i + 1], p.nestingLevel + 1;
      IsChild(t, p, a) && IsChild(t, p, x) && a != x && t.Index(a) == i && t.Index(x) == i + 1 &&
      t.AllAt(t.kids[p][..i], l) && t.AllAt(t.kids[p][i + 2..], l) &&
      t.Before(a) == t.Before(p) + [p] + t.PrefixAll(t.kids[p][..i], l) &&
      t.Later(x) == t.PrefixAll(t.kids[p][i + 2..], l) + t.Later(p) &&
      t.Later(a) == t.Prefix(x) + t.Later(x) && t.Top(a) == t.Top(p) == t.Top(x)
  {
    var c, l := t.kids[p], p.nestingLevel + 1;
    var a, x := c[i], c[i + 1];
    assert IsChild(t, p, a) && IsChild(t, p, x);
    t.ChildrenAt(p);
    assert t.Index(a) == i && t.Index(x) == i + 1;
    assert c[i + 1..] == [x] + c[i + 2..];
    assert c[i + 1..][1..] == c[i + 2..];
  }

  // Around p nothing changes.
  lemma SwapAround(t: Tree, p: Entry, i: nat)
    requires t.Valid() && p in t.kids && i + 1 < |t.kids[p]|
    ensures var t', c, l := Swapped(t, p, i), t.kids[p], p.nestingLevel + 1;
      SameBut(t, t', p) && t'.Before(p) == t.Before(p) && t'.Later(p) == t.Later(p) && t'.Top(p) == t.Top(p) &&
      t.AllAt(c[..i], l) && t.AllAt(c[i + 2..], l) && t'.AllAt(c[..i], l) && t'.AllAt(c[i + 2..], l) &&
      t'.PrefixAll(c[..i], l) == t.PrefixAll(c[..i], l) && t'.PrefixAll(c[i + 2..], l) == t.PrefixAll(c[i + 2..], l)
  {
    var t', c := Swapped(t, p, i), t.kids[p];
    SwappedValid(t, p, i);
    t.ChildrenAt(p);
    SameAround(t, t', p, p);
    SameChildren(t, t', p, c[..i]);
    SameChildren(t, t', p, c[i + 2..]);
  }

  /** Swapping neighbours a, x of the children of p swaps their parts of the walk, and
      leaves the rest of it. */
  lemma SwapWalk(t: Tree, p: Entry, i: nat)
    requires t.Valid() && p in t.kids && i + 1 < |t.kids[p]|
    ensures var t', a, x := Swapped(t, p, i), t.kids[p][i], t.kids[p][i + 1];
      t'.Valid() && a in t.kids && x in t.kids && t'.Before(x) == t.Before(a) && t'.Top(x) == t.Top(a) &&
      t.After(a) == t.Prefix(a) + (t.Prefix(x) + t.Later(x)) &&
      t'.After(x) == t.Prefix(x) + (t.Prefix(a) + t.Later(x))
  {
    hide t.Valid, t.Prefix, t.PrefixAll, t.Before, t.Later, t.Top, SameBut, t.Index;
    var t', c := Swapped(t, p, i), t.kids[p];
    SwapAround(t, p, i);
    SameButMeans(t, t', p);
    Neighbours(t, p, i);
    Neighbours(t', p, i);
    assert t'.kids[p][..i] == c[..i] && t'.kids[p][i + 2..] == c[i + 2..];
    SameWalk(t, t', p, c[i]);
    SameWalk(t, t', p, c[i + 1]);
  }

  lemma SameButMeans(t: Tree, t': Tree, p: Entry)
    requires SameBut(t, t', p)
    ensures t.Valid() && t'.Valid() && t'.up == t.up && t'.kids.Keys == t.kids.Keys
  {
  }

  lemma SameWalk(t: Tree, t': Tree, p: Entry, c: Entry)
    requires SameBut(t, t', p) && c in t.kids && c.nestingLevel == p.nestingLevel + 1
    ensures t'.Prefix(c) == t.Prefix(c)
  {
    if t.Under(c, p) {
      UnderLevel(t, c, p);
    }
    SameBeside(t, t', p, c);
  }

  // --- The tree with its rows --------------------------------------------------------------

  datatype Screen = Screen(tree: Tree, rows: RowMap)

  ghost function RowOf(m: RowMap, e: Entry): int {
    if exists k :: k in m && m[k] == e then (var k :| k in m && m[k] == e; k) else -1
  }

  ghost predicate OneRowEach(m: RowMap) { forall j, k :: j in m && k in m && m[j] == m[k] ==> j == k }

  lemma RowOfMeans(m: RowMap, e: Entry, r: int)
    requires OneRowEach(m) && r in m && m[r] == e
    ensures RowOf(m, e) == r
  {
  }

  // drawEraseBelow: number again from e on, on the row it has.
  ghost function Renumbered(s: Screen, e: Entry): Screen
    requires s.tree.Valid() && e in s.tree.kids
  {
    s.(rows := Pass(s.rows, RowOf(s.rows, e), false).VisitAll(s.tree.After(e)).rows)
  }

  // MoveUp of the lower, or MoveDown of the upper, of two neighbours.
  ghost function Exchanged(s: Screen, p: Entry, i: nat): Screen
    requires s.tree.Valid() && p in s.tree.kids && i + 1 < |s.tree.kids[p]|
  {
    var a, x := s.tree.kids[p][i], s.tree.kids[p][i + 1];
    SwapWalk(s.tree, p, i);
    var t' := Swapped(s.tree, p, i);
    Renumbered(Screen(t', Pass(s.rows, RowOf(s.rows, a), false).VisitAll(t'.After(x)).rows), x)
  }

  // The rows are those of one pass over the whole tree, from row `first`.
  ghost predicate WhollyNumbered(s: Screen, e: Entry, first: int)
    requires s.tree.Valid() && e in s.tree.kids
  {
    s.rows == Numbering(s.tree.Prefix(s.tree.Top(e)), first).rows
  }

  lemma {:induction false} NumberOneRowEach(p: Pass, es: seq<Entry>)
    requires OneRowEach(p.rows) && Distinct(es) && forall k :: k in p.rows ==> k < p.row && p.rows[k] !in es
    ensures OneRowEach(p.Number(es).rows)
    decreases |es|
  {
    if es != [] {
      assert es == [es[0]] + es[1..];
      if es[0].kind.RootKind? {
        NumberOneRowEach(p, es[1..]);
      } else {
        var q := Pass(p.rows[p.RowFor(es[0]) := es[0]], p.RowFor(es[0]) + 1, true);
        assert forall i :: 0 <= i < |es| - 1 ==> es[1..][i] == es[i + 1] != es[0];
        NumberOneRowEach(q, es[1..]);
      }
    }
  }

  // The rows from r on belong to es, whose first entry is on row r; those before are fixed.
  ghost predicate Anchored(m: RowMap, base: RowMap, r: int, es: seq<Entry>) {
    r >= 0 && OneRowEach(m) && OneRowEach(base) && Distinct(es) && es != [] && !es[0].kind.RootKind? &&
    Settling(m, base, r, es) && RowOf(m, es[0]) == r
  }

  // Numbering the entries from r on, in any order.
  lemma Reordered(m: RowMap, base: RowMap, r: int, es: seq<Entry>)
    requires r >= 0 && OneRowEach(base) && Distinct(es) && es != [] && !es[0].kind.RootKind?
    requires Settling(m, base, r, es)
    ensures var m' := Pass(m, r, false).VisitAll(es).rows;
      m' == Pass(base, r, false).Number(es).rows && Anchored(m', base, r, es)
  {
    VisitSettles(m, base, r, false, es);
    var p := Pass(base, r, false);
    NumberGrows(p, es);
    NumberOneRowEach(p, es);
    NumberGrows(Pass(base[r := es[0]], r + 1, true), es[1..]);
    RowOfMeans(p.Number(es).rows, es[0], r);
  }

  // Settling looks only at which entries are to be visited.
  lemma SettlesInAnyOrder(m: RowMap, base: RowMap, r: int, es: seq<Entry>, es': seq<Entry>)
    requires Settling(m, base, r, es) && forall x :: x in es <==> x in es'
    ensures Settling(m, base, r, es')
  {
  }

  // Exchanging neighbours numbers the part of the tree from the upper one on.
  lemma ExchangeStep(s: Screen, p: Entry, i: nat, base: RowMap, r: int)
    requires s.tree.Valid() && p in s.tree.kids && i + 1 < |s.tree.kids[p]| && s.tree.kids[p][i] in s.tree.kids
    requires Anchored(s.rows, base, r, s.tree.After(s.tree.kids[p][i]))
    ensures var t', x := Swapped(s.tree, p, i), s.tree.kids[p][i + 1];
      t'.Valid() && x in t'.kids && t'.After(x) != [] &&
      Exchanged(s, p, i) == Screen(t', Pass(base, r, false).Number(t'.After(x)).rows) &&
      Anchored(Exchanged(s, p, i).rows, base, r, t'.After(x))
  {
    hide s.tree.Valid, s.tree.Prefix, s.tree.Later, Settling, OneRowEach, Distinct, Swapped, Pass.VisitAll, Pass.Number, RowOf;
    var t, t' := s.tree, Swapped(s.tree, p, i);
    var a, x := t.kids[p][i], t.kids[p][i + 1];
    SwapWalk(t, p, i);
    Neighbours(t, p, i);
    SwapFirst(t, p, i);
    var before, after := t.After(a), t'.After(x);
    SameElements(t.Prefix(a), t.Prefix(x), t.Later(x));
    SettlesInAnyOrder(s.rows, base, r, before, after);
    Reordered(s.rows, base, r, after);
    Reordered(Pass(s.rows, r, false).VisitAll(after).rows, base, r, after);
  }

  lemma SwapFirst(t: Tree, p: Entry, i: nat)
    requires t.Valid() && p in t.kids && i + 1 < |t.kids[p]|
    ensures var t', a, x := Swapped(t, p, i), t.kids[p][i], t.kids[p][i + 1];
      t'.Valid() && a in t.kids && x in t'.kids && t.After(a) != [] && t.After(a)[0] == a &&
      t'.After(x) != [] && t'.After(x)[0] == x
  {
    SwapWalk(t, p, i);
  }

  lemma SameElements(a: seq<Entry>, b: seq<Entry>, c: seq<Entry>)
    ensures forall x :: x in a + (b + c) <==> x in b + (a + c)
    ensures Distinct(a + (b + c)) ==> Distinct(b + (a + c))
  {
    if Distinct(a + (b + c)) {
      var s, s' := a + (b + c), b + (a + c);
      forall i, j | 0 <= i < j < |s'| ensures s'[i] != s'[j] {
        var i' := if i < |b| then |a| + i else if i < |a| + |b| then i - |b| else i;
        var j' := if j < |b| then |a| + j else if j < |a| + |b| then j - |b| else j;
        assert s'[i] == s[i'] && s'[j] == s[j'] && i' != j';
      }
    }
  }

  // A whole-tree pass leaves every part of the tree anchored.
  lemma WholeIsAnchored(s: Screen, e: Entry, first: int)
    requires first >= 0 && s.tree.Valid() && e in s.tree.up && WhollyNumbered(s, e, first)
    ensures var q := Numbering(s.tree.Before(e), first);
      var es := s.tree.After(e);
      Anchored(s.rows, q.rows, q.RowFor(e), es) && s.rows == Pass(q.rows, q.RowFor(e), false).Number(es).rows
  {
    var t := s.tree;
    var before, es := t.Before(e), t.After(e);
    var start, q := Pass(map[], first, false), Numbering(before, first);
    t.Level(e);
    PrefixSplits(t, e);
    PrefixDistinct(t, t.Top(e));
    NumberConcat(start, before, es);
    RestartAt(q, e, es[1..]);
    assert es == [e] + es[1..];
    NumberAnchored(before, es, first);
  }

  // The same for any sequence of entries, split at one that is not a root.
  lemma NumberAnchored(before: seq<Entry>, es: seq<Entry>, first: int)
    requires first >= 0 && Distinct(before + es) && es != [] && !es[0].kind.RootKind?
    ensures var q := Numbering(before, first);
      var m := Pass(q.rows, q.RowFor(es[0]), false).Number(es).rows;
      Anchored(m, q.rows, q.RowFor(es[0]), es)
  {
    var start := Pass(map[], first, false);
    var q := Numbering(before, first);
    var r := q.RowFor(es[0]);
    NumberGrows(start, before);
    DistinctParts(before, es);
    NumberOneRowEach(start, before);
    assert Settling(q.rows, q.rows, r, es);
    Reordered(q.rows, q.rows, r, es);
  }

  lemma DistinctParts(a: seq<Entry>, b: seq<Entry>)
    requires Distinct(a + b)
    ensures Distinct(a) && Distinct(b) && forall x :: x in a ==> x !in b
  {
    var s := a + b;
    forall i, j | 0 <= i < j < |b| ensures b[i] != b[j] {
      assert s[|a| + i] == b[i] && s[|a| + j] == b[j];
    }
    forall i, j | 0 <= i < |a| && 0 <= j < |b| ensures a[i] != b[j] {
      assert s[i] == a[i] && s[|a| + j] == b[j];
    }
    forall i, j | 0 <= i < j < |a| ensures a[i] != a[j] {
      assert s[i] == a[i] && s[j] == a[j];
    }
  }

  /** On a wholly numbered tree, moving an entry up and then down again restores the order
      of the children and every row. */
  lemma UpThenDown(s: Screen, p: Entry, i: nat, first: int)
    requires first >= 0 && s.tree.Valid() && p in s.tree.kids && i + 1 < |s.tree.kids[p]|
    requires WhollyNumbered(s, p, first)
    ensures var s', x := Exchanged(s, p, i), s.tree.kids[p][i + 1];
      s'.tree.Valid() && p in s'.tree.kids && i + 1 < |s'.tree.kids[p]| && x in s'.tree.up && s'.tree.Index(x) == i &&
      Exchanged(s', p, i) == s
  {
    hide s.tree.Valid, s.tree.Prefix, s.tree.Later, s.tree.Before, Anchored, Exchanged, Pass.Number, Pass.VisitAll;
    var t, a := s.tree, s.tree.kids[p][i];
    Neighbours(t, p, i);
    var q := Numbering(t.Before(a), first);
    WholeIsAnchored(s, a, first);
    ExchangeStep(s, p, i, q.rows, q.RowFor(a));
    ExchangeStep(Exchanged(s, p, i), p, i, q.rows, q.RowFor(a));
    SwapBack(t, p, i);
    Neighbours(Exchanged(s, p, i).tree, p, i);
  }

  /** Moving an entry up leaves a wholly numbered tree exactly when it is of the same kind
      as the sibling it passes, or nothing on screen comes before the two: a server has a
      blank row above it unless it is the first entry, and MoveUp gives the entry the row
      of the sibling. */
  lemma ExchangeKeepsWhole(s: Screen, p: Entry, i: nat, first: int)
    requires first >= 0 && s.tree.Valid() && p in s.tree.kids && i + 1 < |s.tree.kids[p]|
    requires s.tree.kids[p][i] in s.tree.kids && WhollyNumbered(s, p, first)
    ensures var a, x, s' := s.tree.kids[p][i], s.tree.kids[p][i + 1], Exchanged(s, p, i);
      s'.tree.Valid() && p in s'.tree.kids &&
      (WhollyNumbered(s', p, first) <==> a.kind == x.kind || !Numbering(s.tree.Before(a), first).separate)
  {
    hide s.tree.Valid, s.tree.Prefix, s.tree.Later, s.tree.Before, Anchored, Exchanged, Pass.VisitAll, Pass.Number, s.tree.After;
    var t, t', a, x := s.tree, Swapped(s.tree, p, i), s.tree.kids[p][i], s.tree.kids[p][i + 1];
    var s', q := Exchanged(s, p, i), Numbering(t.Before(a), first);
    Neighbours(t, p, i);
    SwapAround(t, p, i);
    SameButMeans(t, t', p);
    Neighbours(t', p, i);
    SwapWalk(t, p, i);
    WholeIsAnchored(s, a, first);
    ExchangeStep(s, p, i, q.rows, q.RowFor(a));
    var whole := Screen(t', Numbering(t'.Prefix(t'.Top(x)), first).rows);
    WholeIsAnchored(whole, x, first);
    AnchoredRow(s'.rows, q.rows, q.RowFor(a), t'.After(x));
    AnchoredRow(whole.rows, q.rows, q.RowFor(x), t'.After(x));
    assert q.RowFor(a) == q.RowFor(x) <==> a.kind == x.kind || !q.separate;
  }

  lemma AnchoredRow(m: RowMap, base: RowMap, r: int, es: seq<Entry>)
    requires Anchored(m, base, r, es)
    ensures RowOf(m, es[0]) == r
  {
  }

  /** The last entry of a walk has the greatest row, which is how the screen finds its height. */
  lemma LastRowIsGreatest(es: seq<Entry>, first: int)
    requires first >= 0 && Distinct(es) && es != [] && !es[|es| - 1].kind.RootKind?
    ensures var m := Numbering(es, first).rows;
      var r := RowOf(m, es[|es| - 1]);
      r in m && m[r] == es[|es| - 1] && forall k :: k in m ==> k <= r
  {
    var n := |es| - 1;
    var start := Pass(map[], first, false);
    var q := start.Number(es[..n]);
    assert es == es[..n] + [es[n]] && [es[n]][1..] == [];
    NumberConcat(start, es[..n], [es[n]]);
    NumberGrows(start, es[..n]);
    NumberOneRowEach(start, es);
    assert Numbering(es, first).rows == q.rows[q.RowFor(es[n]) := es[n]];
    RowOfMeans(Numbering(es, first).rows, es[n], q.RowFor(es[n]));
  }

  // --- The rows themselves ------------------------------------------------------------------

  // Entries i and j are the next to each other that are shown.
  ghost predicate Adjacent(es: seq<Entry>, i: nat, j: nat) {
    i < j < |es| && !es[i].kind.RootKind? && !es[j].kind.RootKind? && forall k :: i < k < j ==> es[k].kind.RootKind?
  }

  /** The rows of a walk, for a screen that starts at row `first`: the first entry that is no root
      is on that row, each other one on the row after the one before it, but for a server, which
      has a blank row above it; and there is nothing else on screen. */
  ghost predicate Laid(es: seq<Entry>, first: int, m: RowMap) {
    (forall j :: 0 <= j < |es| && !es[j].kind.RootKind? && (forall k :: 0 <= k < j ==> es[k].kind.RootKind?) ==>
      RowOf(m, es[j]) == first) &&
    (forall i, j :: 0 <= i < j < |es| && Adjacent(es, i, j) ==>
      RowOf(m, es[j]) == RowOf(m, es[i]) + if es[j].kind.ServerKind? then 2 else 1) &&
    (forall j :: 0 <= j < |es| && !es[j].kind.RootKind? ==> RowOf(m, es[j]) in m && m[RowOf(m, es[j])] == es[j]) &&
    (forall r :: r in m ==> m[r] in es && !m[r].kind.RootKind? && RowOf(m, m[r]) == r)
  }

  // Where the j-th entry of a walk is put.
  lemma RowAt(es: seq<Entry>, first: int, j: nat)
    requires first >= 0 && Distinct(es) && j < |es| && !es[j].kind.RootKind?
    ensures var m, r := Numbering(es, first).rows, Numbering(es[..j], first).RowFor(es[j]);
      r in m && m[r] == es[j] && RowOf(m, es[j]) == r
    ensures var p := Numbering(es[..j], first);
      Numbering(es[..j + 1], first) == Pass(p.rows[p.RowFor(es[j]) := es[j]], p.RowFor(es[j]) + 1, true)
  {
    hide Pass.RowFor, RowOf;
    var start := Pass(map[], first, false);
    var p := start.Number(es[..j]);
    assert es[..j + 1] == es[..j] + [es[j]] && es == es[..j + 1] + es[j + 1..] && [es[j]][1..] == [];
    NumberConcat(start, es[..j], [es[j]]);
    NumberConcat(start, es[..j + 1], es[j + 1..]);
    NumberGrows(start, es[..j]);
    RowForLater(p, es[j]);
    NumberGrows(start.Number(es[..j + 1]), es[j + 1..]);
    NumberOneRowEach(start, es);
    RowOfMeans(Numbering(es, first).rows, es[j], p.RowFor(es[j]));
  }

  lemma RowForLater(p: Pass, e: Entry)
    ensures p.RowFor(e) >= p.row
  {}

  // Roots are passed over.
  lemma {:induction false} RootsPassed(es: seq<Entry>, first: int, i: nat, j: nat)
    requires i <= j <= |es| && forall k :: i <= k < j ==> es[k].kind.RootKind?
    ensures Numbering(es[..j], first) == Numbering(es[..i], first)
    decreases j
  {
    if i < j {
      RootsPassed(es, first, i, j - 1);
      assert es[..j] == es[..j - 1] + [es[j - 1]] && [es[j - 1]][1..] == [];
      NumberConcat(Pass(map[], first, false), es[..j - 1], [es[j - 1]]);
    }
  }

  lemma FirstRow(es: seq<Entry>, first: int, j: nat)
    requires first >= 0 && Distinct(es) && j < |es| && !es[j].kind.RootKind?
    requires forall k :: 0 <= k < j ==> es[k].kind.RootKind?
    ensures RowOf(Numbering(es, first).rows, es[j]) == first
  {
    RowAt(es, first, j);
    RootsPassed(es, first, 0, j);
  }

  lemma NextRow(es: seq<Entry>, first: int, i: nat, j: nat)
    requires first >= 0 && Distinct(es) && Adjacent(es, i, j)
    ensures var m := Numbering(es, first).rows;
      RowOf(m, es[j]) == RowOf(m, es[i]) + if es[j].kind.ServerKind? then 2 else 1
  {
    hide RowOf;
    RowAt(es, first, i);
    RowAt(es, first, j);
    RootsPassed(es, first, i + 1, j);
  }

  /** A whole pass lays out the walk. */
  lemma PassLays(es: seq<Entry>, first: int)
    requires first >= 0 && Distinct(es)
    ensures Laid(es, first, Numbering(es, first).rows)
  {
    hide RowOf, Numbering, Distinct, Adjacent;
    var m := Numbering(es, first).rows;
    forall j | 0 <= j < |es| && !es[j].kind.RootKind? ensures RowOf(m, es[j]) in m && m[RowOf(m, es[j])] == es[j] {
      RowAt(es, first, j);
    }
    forall j | 0 <= j < |es| && !es[j].kind.RootKind? && (forall k :: 0 <= k < j ==> es[k].kind.RootKind?)
      ensures RowOf(m, es[j]) == first
    {
      FirstRow(es, first, j);
    }
    forall i, j | 0 <= i < j < |es| && Adjacent(es, i, j)
      ensures RowOf(m, es[j]) == RowOf(m, es[i]) + if es[j].kind.ServerKind? then 2 else 1
    {
      NextRow(es, first, i, j);
    }
    forall r | r in m ensures m[r] in es && !m[r].kind.RootKind? && RowOf(m, m[r]) == r {
      OnlyShown(es, first, r);
    }
  }

  lemma OnlyShown(es: seq<Entry>, first: int, r: int)
    requires first >= 0 && Distinct(es) && r in Numbering(es, first).rows
    ensures var m := Numbering(es, first).rows; m[r] in es && !m[r].kind.RootKind? && RowOf(m, m[r]) == r
  {
    hide RowOf;
    var start := Pass(map[], first, false);
    NumberGrows(start, es);
    NumberOneRowEach(start, es);
    RowOfMeans(Numbering(es, first).rows, Numbering(es, first).rows[r], r);
  }

  // The entry shown before the j-th, if there is one.
  lemma {:induction false} ShownBefore(es: seq<Entry>, j: nat, n: nat) returns (i: int)
    requires n <= j < |es| && !es[j].kind.RootKind? && forall k :: n <= k < j ==> es[k].kind.RootKind?
    ensures -1 <= i < j && if i < 0 then forall k :: 0 <= k < j ==> es[k].kind.RootKind? else Adjacent(es, i, j)
  {
    if n == 0 {
      i := -1;
    } else if es[n - 1].kind.RootKind? {
      i := ShownBefore(es, j, n - 1);
    } else {
      i := n - 1;
    }
  }

  lemma {:induction false} SameRows(es: seq<Entry>, first: int, m: RowMap, m': RowMap, j: nat)
    requires Laid(es, first, m) && Laid(es, first, m') && j < |es| && !es[j].kind.RootKind?
    ensures RowOf(m, es[j]) == RowOf(m', es[j])
  {
    hide RowOf;
    var i := ShownBefore(es, j, j);
    if i >= 0 {
      SameRows(es, first, m, m', i);
    }
  }

  /** And there is only one way to lay it out. */
  lemma OneLayout(es: seq<Entry>, first: int, m: RowMap)
    requires first >= 0 && Distinct(es)
    ensures Laid(es, first, m) <==> m == Numbering(es, first).rows
  {
    hide Numbering, Laid;
    var m' := Numbering(es, first).rows;
    PassLays(es, first);
    if Laid(es, first, m) {
      forall r | r in m ensures r in m' && m'[r] == m[r] {
        LaidThere(es, first, m, m', r);
      }
      forall r | r in m' ensures r in m {
        LaidThere(es, first, m', m, r);
      }
    }
  }

  lemma LaidThere(es: seq<Entry>, first: int, m: RowMap, m': RowMap, r: int)
    requires Laid(es, first, m) && Laid(es, first, m') && r in m
    ensures r in m' && m'[r] == m[r]
  {
    hide RowOf;
    var j :| 0 <= j < |es| && es[j] == m[r];
    SameRows(es, first, m, m', j);
  }

  /** So a wholly numbered tree is one that is laid out. */
  lemma WholeIsLaid(s: Screen, e: Entry, first: int)
    requires first >= 0 && s.tree.Valid() && e in s.tree.kids
    ensures WhollyNumbered(s, e, first) <==> Laid(s.tree.Prefix(s.tree.Top(e)), first, s.rows)
  {
    hide Laid, Numbering, Tree.Prefix;
    PrefixDistinct(s.tree, s.tree.Top(e));
    OneLayout(s.tree.Prefix(s.tree.Top(e)), first, s.rows);
  }

  // t' holds e, and comes from t by changes after e in prefix order.
  ghost predicate SameUpTo(t: Tree, t': Tree, e: Entry) {
    t.Valid() && t'.Valid() && e in t.up && e in t'.up && t'.Before(e) == t.Before(e)
  }

  // What is left on screen of s after entries were destroyed, and others added without a row.
  ghost predicate Remaining(s: Screen, m: RowMap, es: seq<Entry>) {
    (forall k :: k in m ==> k in s.rows && m[k] == s.rows[k] && m[k] in es) &&
    (forall k :: k in s.rows && s.rows[k] in es ==> k in m)
  }

  /** If a whole-tree pass numbered the tree, and then only what comes after e in prefix order
      changed, drawEraseBelow(e) has the result of a fresh pass over the whole new tree from
      the same first row. */
  lemma DrawEraseBelowRefines(s: Screen, s': Screen, e: Entry, first: int)
    requires first >= 0 && SameUpTo(s.tree, s'.tree, e) && WhollyNumbered(s, e, first)
    requires Remaining(s, s'.rows, s'.tree.Prefix(s'.tree.Top(e)))
    ensures WhollyNumbered(Renumbered(s', e), e, first)
    ensures Renumbered(s', e).rows == Pass(s'.rows, first, false).VisitAll(s'.tree.Prefix(s'.tree.Top(e))).rows
  {
    hide Numbering, Anchored, Tree.Prefix, Tree.After, Tree.Before;
    var t, t' := s.tree, s'.tree;
    var before, late, late' := t.Before(e), t.After(e), t'.After(e);
    t.Level(e);
    t'.Level(e);
    PrefixSplits(t, e);
    PrefixSplits(t', e);
    PrefixDistinct(t, t.Top(e));
    PrefixDistinct(t', t'.Top(e));
    AfterStarts(t, e);
    AfterStarts(t', e);
    assert before + late == before + [e] + late[1..];
    assert before + late' == before + [e] + late'[1..];
    assert late' == [e] + late'[1..] && late == [e] + late[1..];
    WholeIsAnchored(s, e, first);
    StillAnchored(s, s'.rows, before, e, late[1..], late'[1..], first);
    RenumberingRefines(s'.rows, before, e, late'[1..], first);
  }

  /** So the whole new tree is laid out from the same first row. */
  lemma DrawEraseBelowLays(s: Screen, s': Screen, e: Entry, first: int)
    requires first >= 0 && SameUpTo(s.tree, s'.tree, e) && Laid(s.tree.Prefix(s.tree.Top(e)), first, s.rows)
    requires Remaining(s, s'.rows, s'.tree.Prefix(s'.tree.Top(e)))
    ensures Laid(s'.tree.Prefix(s'.tree.Top(e)), first, Renumbered(s', e).rows)
  {
    hide Laid, WhollyNumbered, Remaining, Tree.Prefix, Tree.After, Tree.Before, Pass.VisitAll;
    s.tree.Level(e);
    s'.tree.Level(e);
    WholeIsLaid(s, e, first);
    DrawEraseBelowRefines(s, s', e, first);
    WholeIsLaid(Renumbered(s', e), e, first);
  }

  lemma AfterStarts(t: Tree, e: Entry)
    requires t.Valid() && e in t.kids
    ensures t.After(e) != [] && t.After(e)[0] == e
  {}

  lemma StillAnchored(s: Screen, m: RowMap, before: seq<Entry>, e: Entry, late: seq<Entry>, late': seq<Entry>, first: int)
    requires var q := Numbering(before, first); Anchored(s.rows, q.rows, q.RowFor(e), [e] + late)
    requires first >= 0 && Remaining(s, m, before + [e] + late') && Distinct(before + ([e] + late))
    ensures var q := Numbering(before, first);
      (forall k :: k in q.rows ==> k in m && m[k] == q.rows[k]) &&
      q.RowFor(e) in m && m[q.RowFor(e)] == e && RowOf(m, e) == q.RowFor(e) &&
      (forall k :: k in m ==> !m[k].kind.RootKind? && (k in q.rows || m[k] in [e] + late'))
  {
    var q := Numbering(before, first);
    NumberGrows(Pass(map[], first, false), before);
    DistinctParts(before, [e] + late);
    var es := before + [e] + late';
    assert es[|before|] == e;
    forall x | x in before ensures x in es {
      var i :| 0 <= i < |before| && before[i] == x;
      assert es[i] == x;
    }
    forall k | k in m && k !in q.rows ensures m[k] in [e] + late' {
      assert s.rows[k] in [e] + late && m[k] in es;
    }
  }

  // --- Creating and destroying entries -----------------------------------------------------

  // A new entry c, the last child of p if it has a parent.
  ghost function Added(t: Tree, c: Entry, p: Entry?): Tree
    requires p != null ==> p in t.kids
  {
    if p == null then t.(kids := t.kids[c := []])
    else Tree(t.kids[p := t.kids[p] + [c]][c := []], t.up[c := p])
  }

  lemma AddedValid(t: Tree, c: Entry, p: Entry?)
    requires t.Valid() && c !in t.kids && (p != null ==> p in t.kids && !c.kind.RootKind?)
    requires p != null ==> c.nestingLevel == p.nestingLevel + 1
    ensures Added(t, c, p).Valid()
  {
    hide IsChild, Distinct;
    AddedChildren(t, c, p);
    AddedDistinct(t, c, p);
    AddedUps(t, c, p);
  }

  lemma AddedChildren(t: Tree, c: Entry, p: Entry?)
    requires t.Valid() && c !in t.kids && (p != null ==> p in t.kids && !c.kind.RootKind?)
    requires p != null ==> c.nestingLevel == p.nestingLevel + 1
    ensures var t' := Added(t, c, p);
      forall e, i :: e in t'.kids && 0 <= i < |t'.kids[e]| ==> IsChild(t', e, t'.kids[e][i])
  {
    var t' := Added(t, c, p);
    forall e, i | e in t'.kids && 0 <= i < |t'.kids[e]| ensures IsChild(t', e, t'.kids[e][i]) {
      if e in t.kids && i < |t.kids[e]| {
        assert IsChild(t, e, t.kids[e][i]);
      }
    }
  }

  lemma AddedDistinct(t: Tree, c: Entry, p: Entry?)
    requires t.Valid() && c !in t.kids && (p != null ==> p in t.kids)
    ensures forall e :: e in Added(t, c, p).kids ==> Distinct(Added(t, c, p).kids[e])
  {
    forall e, i | e in t.kids && 0 <= i < |t.kids[e]| ensures t.kids[e][i] != c {
      assert IsChild(t, e, t.kids[e][i]);
    }
  }

  lemma AddedUps(t: Tree, c: Entry, p: Entry?)
    requires t.Valid() && c !in t.kids && (p != null ==> p in t.kids)
    ensures var t' := Added(t, c, p);
      forall d :: d in t'.up ==> d in t'.kids && t'.up[d] in t'.kids && d in t'.kids[t'.up[d]]
  {
    var t' := Added(t, c, p);
    forall d | d in t'.up ensures d in t'.kids && t'.up[d] in t'.kids && d in t'.kids[t'.up[d]] {
      if p != null && d == c {
        assert t'.kids[p][|t.kids[p]|] == c;
      } else if p != null && t.up[d] == p {
        assert t'.kids[p][t.Index(d)] == d;
      }
    }
  }

  lemma AddedMeans(t: Tree, c: Entry, p: Entry?)
    requires c !in t.kids && (p != null ==> p in t.kids)
    ensures var t' := Added(t, c, p);
      t'.kids.Keys == t.kids.Keys + {c} && t'.kids[c] == [] &&
      (forall e :: e in t.kids ==> t'.kids[e] == if e == p then t.kids[e] + [c] else t.kids[e]) &&
      t'.up.Keys == (if p == null then t.up.Keys else t.up.Keys + {c}) && (p != null ==> t'.up[c] == p) &&
      (forall e :: e in t.up && e != c ==> t'.up[e] == t.up[e])
  {
  }

  // Entry c unlinked from its parent.
  ghost function Cut(t: Tree, c: Entry): Tree
    requires t.Valid() && c in t.up
  {
    var s, i := t.kids[t.up[c]], t.Index(c);
    Tree(t.kids[t.up[c] := s[..i] + s[i + 1..]], t.up - {c})
  }

  lemma CutValid(t: Tree, c: Entry)
    requires t.Valid() && c in t.up
    ensures Cut(t, c).Valid() && Cut(t, c).kids.Keys == t.kids.Keys
  {
    hide IsChild, Distinct, Tree.Index;
    CutChildren(t, c);
    CutDistinct(t, c);
    CutUps(t, c);
  }

  lemma CutChildren(t: Tree, c: Entry)
    requires t.Valid() && c in t.up
    ensures var t' := Cut(t, c);
      forall e, i :: e in t'.kids && 0 <= i < |t'.kids[e]| ==> IsChild(t', e, t'.kids[e][i])
  {
    var t', p, n := Cut(t, c), t.up[c], t.Index(c);
    forall e, i | e in t'.kids && 0 <= i < |t'.kids[e]| ensures IsChild(t', e, t'.kids[e][i]) {
      var j := if e != p || i < n then i else i + 1;
      assert IsChild(t, e, t.kids[e][j]);
      assert t.kids[e][j] == t'.kids[e][i];
      assert e == p ==> t.kids[p][j] != t.kids[p][n];
    }
  }

  lemma CutDistinct(t: Tree, c: Entry)
    requires t.Valid() && c in t.up
    ensures forall e :: e in Cut(t, c).kids ==> Distinct(Cut(t, c).kids[e])
  {
    var p, n := t.up[c], t.Index(c);
    var s := t.kids[p];
    var u := s[..n] + s[n + 1..];
    assert forall i :: 0 <= i < |u| ==> u[i] == s[if i < n then i else i + 1];
  }

  lemma CutUps(t: Tree, c: Entry)
    requires t.Valid() && c in t.up
    ensures var t' := Cut(t, c);
      forall d :: d in t'.up ==> d in t'.kids && t'.up[d] in t'.kids && d in t'.kids[t'.up[d]]
  {
    var t', p, n := Cut(t, c), t.up[c], t.Index(c);
    forall d | d in t'.up ensures d in t'.kids[t'.up[d]] {
      var j := t.Index(d);
      assert t'.kids[t.up[d]][if t.up[d] != p || j < n then j else j - 1] == d;
    }
  }

  // The tree without some of its entries.
  ghost function Without(t: Tree, gone: set<Entry>): Tree { Tree(t.kids - gone, t.up - gone) }

  ghost function Elements(s: seq<Entry>): set<Entry> { set x | x in s }

  // Everything below the first k children of e.
  ghost function BelowFirst(t: Tree, e: Entry, k: nat): seq<Entry>
    requires t.Valid() && e in t.kids && k <= |t.kids[e]|
  {
    t.PrefixAll(t.kids[e][..k], e.nestingLevel + 1)
  }

  // The first k children of e destroyed, with everything below them.
  ghost function Cleared(t: Tree, e: Entry, k: nat): Tree
    requires t.Valid() && e in t.kids && k <= |t.kids[e]|
  {
    Without(t.(kids := t.kids[e := t.kids[e][k..]]), Elements(BelowFirst(t, e, k)))
  }

  ghost function Destroyed(t: Tree, e: Entry): Tree
    requires t.Valid() && e in t.kids
  {
    Without(if e in t.up then Cut(t, e) else t, Elements(t.Prefix(e)))
  }

  // The rows without those of some entries.
  ghost function Keeping(m: RowMap, gone: set<Entry>): RowMap { map k | k in m && m[k] !in gone :: m[k] }

  // The next child to destroy.
  lemma NextChild(t: Tree, e: Entry, k: nat)
    requires t.Valid() && e in t.kids && k < |t.kids[e]|
    ensures var c := t.kids[e][k];
      IsChild(t, e, c) && e !in t.Prefix(c) && e !in BelowFirst(t, e, k) &&
      (forall x :: x in t.Prefix(c) ==> x !in BelowFirst(t, e, k)) &&
      BelowFirst(t, e, k + 1) == BelowFirst(t, e, k) + t.Prefix(c)
  {
    var l, s, c := e.nestingLevel + 1, t.kids[e], t.kids[e][k];
    assert IsChild(t, e, c);
    t.ChildrenAt(e);
    assert s[..k + 1] == s[..k] + [c];
    PrefixAllOne(t, c);
    PrefixAllConcat(t, s[..k], [c], l);
    PrefixAllDistinct(t, s[..k + 1], l);
    DistinctParts(BelowFirst(t, e, k), t.Prefix(c));
    if e in t.PrefixAll(s[..k + 1], l) {
      var i := PrefixAllUnder(t, s[..k + 1], l, e);
      UnderLevel(t, s[i], e);
    }
  }

  // Unlinking it first.
  lemma CutNext(t: Tree, e: Entry, k: nat)
    requires t.Valid() && e in t.kids && k < |t.kids[e]| && Cleared(t, e, k).Valid()
    ensures var t', c := Cleared(t, e, k), t.kids[e][k];
      c in t'.up && t'.up[c] == e && t'.Index(c) == 0 &&
      Cut(t', c) == Tree(t.kids[e := t.kids[e][k + 1..]] - Elements(BelowFirst(t, e, k)),
                         t.up - Elements(BelowFirst(t, e, k)) - {c})
  {
    hide Tree.Valid, Tree.Prefix, Tree.PrefixAll, BelowFirst;
    var t', c, s := Cleared(t, e, k), t.kids[e][k], t.kids[e];
    var gone := Elements(BelowFirst(t, e, k));
    NextChild(t, e, k);
    PrefixStarts(t, c);
    assert s[k..][0] == c;
    IndexIs(t', c, 0);
    assert s[k..][..0] + s[k..][1..] == s[k + 1..];
    assert (t.kids[e := s[k..]] - gone)[e := s[k + 1..]] == t.kids[e := s[k + 1..]] - gone;
  }

  // The tree without an entry that has no children.
  ghost function WithoutLeaf(t: Tree, c: Entry): Tree
    requires t.Valid() && c in t.kids
  {
    Without(if c in t.up then Cut(t, c) else t, {c})
  }

  lemma WithoutLeafValid(t: Tree, c: Entry)
    requires t.Valid() && c in t.kids && t.kids[c] == []
    ensures WithoutLeaf(t, c).Valid()
  {
    var t1 := if c in t.up then Cut(t, c) else t;
    if c in t.up {
      CutValid(t, c);
      t.Level(c);
    }
    var t' := WithoutLeaf(t, c);
    forall e, i | e in t'.kids && 0 <= i < |t'.kids[e]| ensures IsChild(t', e, t'.kids[e][i]) {
      assert IsChild(t1, e, t1.kids[e][i]);
    }
    assert forall d :: d in t'.up ==> d in t1.kids[t1.up[d]];
  }

  lemma ClearNone(t: Tree, e: Entry, m: RowMap)
    requires t.Valid() && e in t.kids
    ensures Cleared(t, e, 0) == t && Keeping(m, Elements(BelowFirst(t, e, 0))) == m
  {
    assert BelowFirst(t, e, 0) == [];
    assert t.kids[e := t.kids[e][0..]] == t.kids;
    assert Elements([]) == {};
  }

  lemma ClearRows(t: Tree, e: Entry, k: nat, m: RowMap)
    requires t.Valid() && e in t.kids && k < |t.kids[e]|
    ensures var c := t.kids[e][k];
      c in t.kids &&
      Keeping(Keeping(m, Elements(BelowFirst(t, e, k))), Elements(t.Prefix(c))) == Keeping(m, Elements(BelowFirst(t, e, k + 1)))
    ensures forall t': Tree :: t'.kids.Keys <= t.kids.Keys ==> t'.From(t.kids[e][k].nestingLevel) < t.From(e.nestingLevel)
  {
    var c := t.kids[e][k];
    NextChild(t, e, k);
    assert Elements(BelowFirst(t, e, k + 1)) == Elements(BelowFirst(t, e, k)) + Elements(t.Prefix(c));
    assert IsChild(t, e, c);
    forall t': Tree | t'.kids.Keys <= t.kids.Keys ensures t'.From(c.nestingLevel) < t.From(e.nestingLevel) {
      assert e in t.From(e.nestingLevel) && e !in t'.From(c.nestingLevel);
    }
  }

  lemma ClearedMeans(t: Tree, e: Entry, k: nat)
    requires t.Valid() && e in t.kids && k <= |t.kids[e]|
    ensures e in Cleared(t, e, k).kids && Cleared(t, e, k).kids[e] == t.kids[e][k..]
    ensures Cleared(t, e, k).up == t.up - Elements(BelowFirst(t, e, k))
    ensures forall x :: x in t.kids && x != e && x !in BelowFirst(t, e, k) ==>
      x in Cleared(t, e, k).kids && Cleared(t, e, k).kids[x] == t.kids[x]
  {
    NotBelow(t, e, k, e);
  }

  // Nothing at the level of e, or above, is below it.
  lemma NotBelow(t: Tree, e: Entry, k: nat, x: Entry)
    requires t.Valid() && e in t.kids && k <= |t.kids[e]| && x.nestingLevel <= e.nestingLevel
    ensures x !in BelowFirst(t, e, k)
  {
    t.ChildrenAt(e);
    if x in BelowFirst(t, e, k) {
      var i := PrefixAllUnder(t, t.kids[e][..k], e.nestingLevel + 1, x);
      UnderLevel(t, t.kids[e][i], x);
    }
  }

  lemma MapsLess(kids: map<Entry, seq<Entry>>, up: map<Entry, Entry>, gone: set<Entry>, e: Entry, p: Entry, v: seq<Entry>)
    requires p !in gone && p != e && p in kids
    ensures (kids[e := []] - gone)[p := v] - {e} == kids[p := v] - (gone + {e})
    ensures kids[e := []] - gone - {e} == kids - (gone + {e})
    ensures up - gone - {e} - {e} == up - {e} - (gone + {e})
    ensures up - gone - {e} == up - (gone + {e})
  {
  }

  /** A new child, or the loss of all children, changes the tree only after their parent. */
  lemma AddedAfter(t: Tree, c: Entry, p: Entry)
    requires t.Valid() && p in t.up && c !in t.kids && !c.kind.RootKind? && c.nestingLevel == p.nestingLevel + 1
    ensures SameUpTo(t, Added(t, c, p), p) && Added(t, c, p).Top(p) == t.Top(p) && Added(t, c, p).Later(p) == t.Later(p)
  {
    AddedValid(t, c, p);
    SameAround(t, Added(t, c, p), p, p);
  }

  lemma ClearedAfter(t: Tree, e: Entry)
    requires t.Valid() && e in t.up && Cleared(t, e, |t.kids[e]|).Valid()
    ensures var t' := Cleared(t, e, |t.kids[e]|); SameUpTo(t, t', e) && t'.Top(e) == t.Top(e) && t'.Later(e) == t.Later(e)
  {
    var n := |t.kids[e]|;
    ClearedMeans(t, e, n);
    WalkStart(t, e, Pass(map[], 0, false));
    forall x | x in t.kids && !t.Under(e, x) ensures x !in BelowFirst(t, e, n) {
      if x in BelowFirst(t, e, n) {
        PrefixUnder(t, e, x);
      }
    }
    forall q | q in t.kids && t.Under(q, e) ensures q !in BelowFirst(t, e, n) {
      UnderLevel(t, q, e);
      NotBelow(t, e, n, q);
    }
    SameAround(t, Cleared(t, e, n), e, e);
  }

  // What was below e in s is gone, and e has new children, without children and rows.
  ghost predicate Refilled(s: Screen, s': Screen, e: Entry) {
    var t, t' := s.tree, s'.tree;
    SameUpTo(t, t', e) && e in t.kids && e in t'.kids && t'.Later(e) == t.Later(e) && t'.Top(e) == t.Top(e) &&
    s'.rows == Keeping(s.rows, Elements(BelowFirst(t, e, |t.kids[e]|))) &&
    forall i :: 0 <= i < |t'.kids[e]| ==>
      var c := t'.kids[e][i]; c in t'.kids && t'.kids[c] == [] && forall k :: k in s.rows ==> s.rows[k] != c
  }

  lemma RefillStart(s: Screen, e: Entry)
    requires s.tree.Valid() && e in s.tree.up && e in s.tree.kids
    ensures var n := |s.tree.kids[e]|;
      var t' := Cleared(s.tree, e, n);
      e in t'.kids && t'.kids[e] == [] &&
      (t'.Valid() ==> Refilled(s, Screen(t', Keeping(s.rows, Elements(BelowFirst(s.tree, e, n)))), e))
  {
    var t, n := s.tree, |s.tree.kids[e]|;
    ClearedMeans(t, e, n);
    if Cleared(t, e, n).Valid() {
      ClearedAfter(t, e);
      assert t.kids[e][n..] == [];
    }
  }

  lemma RefillNext(s: Screen, s': Screen, c: Entry, e: Entry)
    requires Refilled(s, s', e) && c !in s'.tree.kids && !c.kind.RootKind? && c.nestingLevel == e.nestingLevel + 1
    requires forall k :: k in s.rows ==> s.rows[k] != c
    ensures Refilled(s, Screen(Added(s'.tree, c, e), s'.rows), e)
  {
    hide Tree.Valid, Tree.Before, Tree.Later, Tree.Top, Tree.Prefix, Added, Keeping, BelowFirst, IsChild;
    AddedAfter(s'.tree, c, e);
    AddedMeans(s'.tree, c, e);
    var kids, kids' := s'.tree.kids, Added(s'.tree, c, e).kids;
    assert kids'[e] == kids[e] + [c];
    assert forall i :: 0 <= i < |kids[e]| ==> kids[e][i] in kids && kids[kids[e][i]] == [] && kids[e][i] != c;
  }

  lemma {:induction false} LeafWalk(t: Tree, es: seq<Entry>, l: nat)
    requires t.Valid() && t.AllAt(es, l) && forall i :: 0 <= i < |es| ==> t.kids[es[i]] == []
    ensures t.PrefixAll(es, l) == es
    decreases |es|
  {
    if es != [] {
      LeafWalk(t, es[1..], l);
      assert t.Prefix(es[0]) == [es[0]];
    }
  }

  lemma RefillDone(s: Screen, s': Screen, e: Entry, first: int)
    requires first >= 0 && Refilled(s, s', e) && WhollyNumbered(s, e, first)
    ensures WhollyNumbered(Renumbered(s', e), e, first)
  {
    var t, t', n := s.tree, s'.tree, |s.tree.kids[e]|;
    var before, below, later := t.Before(e), BelowFirst(t, e, n), t.Later(e);
    t.Level(e);
    t'.ChildrenAt(e);
    LeafWalk(t', t'.kids[e], e.nestingLevel + 1);
    PrefixSplits(t, e);
    PrefixSplits(t', e);
    PrefixDistinct(t, t.Top(e));
    WalkStart(t, e, Pass(map[], 0, false));
    assert t'.Prefix(e) == [e] + t'.kids[e];
    RefilledRows(s, s', before, e, below, t'.kids[e], later, first);
    DrawEraseBelowRefines(s, s', e, first);
  }

  // The rows left are those of the entries left.
  lemma RefilledRows(s: Screen, s': Screen, before: seq<Entry>, e: Entry, below: seq<Entry>, added: seq<Entry>, later: seq<Entry>,
                     first: int)
    requires first >= 0 && s.rows == Numbering(before + ([e] + below + later), first).rows
    requires Distinct(before + ([e] + below + later)) && s'.rows == Keeping(s.rows, Elements(below))
    requires forall i, k :: 0 <= i < |added| && k in s.rows ==> s.rows[k] != added[i]
    ensures Remaining(s, s'.rows, before + ([e] + added + later))
  {
    var es, es' := before + ([e] + below + later), before + ([e] + added + later);
    NumberGrows(Pass(map[], first, false), es);
    DistinctParts(before, [e] + below + later);
    DistinctParts([e] + below, later);
    DistinctParts([e], below);
    assert forall x :: x in es <==> x in before || x == e || x in below || x in later;
    assert forall x :: x in es' <==> x in before || x == e || x in added || x in later;
    assert forall x :: x in [e] + below + later <==> x == e || x in below || x in later;
    forall k | k in s.rows && s.rows[k] in es' ensures k in s'.rows {
      assert s.rows[k] !in added;
    }
  }

  lemma FromLess(t: Tree, l: nat)
    ensures forall t': Tree :: t'.kids.Keys == t.kids.Keys ==> t'.From(l) == t.From(l)
  {
  }

  // Clearing an entry and then removing it.
  lemma DestroyTree(t: Tree, e: Entry)
    requires t.Valid() && e in t.kids
    ensures var t' := Cleared(t, e, |t.kids[e]|);
      t'.Valid() ==> e in t'.kids && t'.kids[e] == [] && WithoutLeaf(t', e) == Destroyed(t, e)
  {
    hide Tree.Valid, Tree.Prefix, Tree.PrefixAll, BelowFirst, Elements, Tree.Index;
    var n := |t.kids[e]|;
    var t', gone := Cleared(t, e, n), Elements(BelowFirst(t, e, n));
    ClearedMeans(t, e, n);
    assert t.kids[e][n..] == [];
    GoneWith(t, e);
    if t'.Valid() {
      if e in t.up {
        Siblings(t, e);
        SameIndex(t, t', e);
        var p, i := t.up[e], t.Index(e);
        MapsLess(t.kids, t.up, gone, e, p, t.kids[p][..i] + t.kids[p][i + 1..]);
      } else {
        assert t.kids[e := []] - gone - {e} == t.kids - (gone + {e});
        assert t.up - gone - {e} == t.up - (gone + {e});
      }
    }
  }

  lemma GoneWith(t: Tree, e: Entry)
    requires t.Valid() && e in t.kids
    ensures var gone := Elements(BelowFirst(t, e, |t.kids[e]|));
      Elements(t.Prefix(e)) == gone + {e} && e !in gone &&
      (e in t.up ==> t.up[e] !in gone && t.up[e] != e && t.up[e] in t.kids && t.up[e] !in BelowFirst(t, e, |t.kids[e]|))
  {
    WalkStart(t, e, Pass(map[], 0, false));
    NotBelow(t, e, |t.kids[e]|, e);
    if e in t.up {
      t.Level(e);
      NotBelow(t, e, |t.kids[e]|, t.up[e]);
    }
  }

  lemma DestroyRows(t: Tree, e: Entry, m: RowMap)
    requires t.Valid() && e in t.kids
    ensures Place(Keeping(m, Elements(BelowFirst(t, e, |t.kids[e]|))), e, -1) == Keeping(m, Elements(t.Prefix(e)))
  {
    WalkStart(t, e, Pass(map[], 0, false));
    assert Elements(t.Prefix(e)) == Elements(BelowFirst(t, e, |t.kids[e]|)) + {e};
  }

  // Destroying the next child.
  lemma ClearStep(t: Tree, e: Entry, k: nat)
    requires t.Valid() && e in t.kids && k < |t.kids[e]| && Cleared(t, e, k).Valid()
    ensures var t', c := Cleared(t, e, k), t.kids[e][k];
      c in t'.up && t'.up[c] == e && Cut(t', c).Valid() && c in Cut(t', c).kids && Cut(t', c).Prefix(c) == t.Prefix(c) &&
      Destroyed(Cut(t', c), c) == Cleared(t, e, k + 1) && t'.Index(c) == 0
  {
    hide t.Valid, t.Prefix, t.PrefixAll, IsChild, Cut, BelowFirst;
    var t', c := Cleared(t, e, k), t.kids[e][k];
    NextChild(t, e, k);
    CutNext(t, e, k);
    var t'' := Cut(t', c);
    CutValid(t', c);
    IsChildMeans(t, e, c);
    forall x | x in t.Prefix(c) && x in t.kids ensures x in t''.kids && t''.kids[x] == t.kids[x] {
    }
    SamePrefix(t, t'', c);
    PrefixStarts(t, c);
    assert Elements(BelowFirst(t, e, k + 1)) == Elements(BelowFirst(t, e, k)) + Elements(t.Prefix(c));
    assert Destroyed(t'', c).kids == Cleared(t, e, k + 1).kids;
    assert Destroyed(t'', c).up == Cleared(t, e, k + 1).up;
  }

  lemma IsChildMeans(t: Tree, e: Entry, c: Entry)
    requires IsChild(t, e, c)
    ensures c in t.kids && c in t.up && t.up[c] == e && c.nestingLevel == e.nestingLevel + 1 && !c.kind.RootKind?
  {
  }

  lemma PrefixStarts(t: Tree, e: Entry)
    requires t.Valid() && e in t.kids
    ensures t.Prefix(e) != [] && t.Prefix(e)[0] == e && e in t.Prefix(e)
  {
    assert t.Prefix(e)[0] == e;
  }

  lemma PlaceOff(m: RowMap, e: Entry, r: int)
    requires OneRowEach(m) && r == RowOf(m, e) && (r < 0 ==> forall k :: k in m ==> m[k] != e)
    ensures Place(m, e, -1) == if r >= 0 then m - {r} else m
  {
    var m' := if r >= 0 then m - {r} else m;
    forall k | k in m' ensures k in Place(m, e, -1).Keys {
    }
    forall k | k in Place(m, e, -1) ensures k in m'.Keys {
    }
    assert Place(m, e, -1).Keys == m'.Keys;
  }

  // Whoever was on row r goes first.
  lemma PlaceOver(m: RowMap, e: Entry, r: int)
    requires OneRowEach(m)
    ensures var off := Place(m, e, -1);
      Place(m, e, r) == if r < 0 then off else (if r in off then Place(off, off[r], -1) else off)[r := e]
  {
    var off := Place(m, e, -1);
    if r >= 0 {
      var m' := (if r in off then Place(off, off[r], -1) else off)[r := e];
      forall k | k in m' ensures k in Place(m, e, r).Keys {
      }
      forall k | k in Place(m, e, r) ensures k in m'.Keys {
      }
      assert Place(m, e, r).Keys == m'.Keys;
    }
  }

  lemma PlaceFrees(m: RowMap, r: int)
    requires r in m
    ensures r !in Place(m, m[r], -1)
    ensures forall k :: k in Place(m, m[r], -1) ==> k in m && Place(m, m[r], -1)[k] == m[k]
  {
  }

  // Starting a walk at e.
  lemma WalkStart(t: Tree, e: Entry, p: Pass)
    requires t.Valid() && e in t.kids
    ensures p.VisitAll([e] + BelowFirst(t, e, 0)) == p.Visit(e)
    ensures t.Prefix(e) == [e] + BelowFirst(t, e, |t.kids[e]|)
  {
    assert [e] + BelowFirst(t, e, 0) == [e];
    assert [e][1..] == [];
    assert t.kids[e][..|t.kids[e]|] == t.kids[e];
  }

  // Going on to the next child.
  lemma WalkNext(t: Tree, e: Entry, k: nat, p: Pass)
    requires t.Valid() && e in t.kids && k < |t.kids[e]|
    ensures var c := t.kids[e][k];
      c in t.kids && t.From(c.nestingLevel) < t.From(e.nestingLevel) &&
      p.VisitAll([e] + BelowFirst(t, e, k + 1)) == p.VisitAll([e] + BelowFirst(t, e, k)).VisitAll(t.Prefix(c))
  {
    var c := t.kids[e][k];
    NextChild(t, e, k);
    assert IsChild(t, e, c);
    assert e in t.From(e.nestingLevel) && e !in t.From(c.nestingLevel);
    VisitConcat(p, [e] + BelowFirst(t, e, k), t.Prefix(c));
    assert [e] + BelowFirst(t, e, k + 1) == [e] + BelowFirst(t, e, k) + t.Prefix(c);
  }

  // The walk of the siblings after c, up to position b.
  ghost function LaterUpTo(t: Tree, c: Entry, b: nat): seq<Entry>
    requires t.Valid() && c in t.up && t.Index(c) < b <= |t.kids[t.up[c]]|
  {
    Siblings(t, c);
    t.ChildrenAt(t.up[c]);
    t.PrefixAll(t.kids[t.up[c]][t.Index(c) + 1..b], c.nestingLevel)
  }

  lemma LaterStart(t: Tree, c: Entry)
    requires t.Valid() && c in t.up
    ensures var p := t.up[c];
      p in t.kids && p.nestingLevel < c.nestingLevel && t.Index(c) < |t.kids[p]| && t.kids[p][t.Index(c)] == c &&
      LaterUpTo(t, c, t.Index(c) + 1) == [] && t.Later(c) == LaterUpTo(t, c, |t.kids[p]|) + t.Later(p)
  {
    Siblings(t, c);
    var s, i := t.kids[t.up[c]], t.Index(c);
    assert s[i + 1..i + 1] == [] && s[i + 1..|s|] == s[i + 1..];
  }

  lemma LaterTop(t: Tree, c: Entry)
    requires t.Valid() && c in t.kids && c !in t.up
    ensures t.Later(c) == []
  {
  }

  lemma IndexIs(t: Tree, c: Entry, b: nat)
    requires t.Valid() && c in t.up && b < |t.kids[t.up[c]]|
    ensures t.kids[t.up[c]][b] == c <==> b == t.Index(c)
  {
  }

  lemma LaterNext(t: Tree, c: Entry, b: nat, p: Pass, done: seq<Entry>)
    requires t.Valid() && c in t.up && t.Index(c) < b < |t.kids[t.up[c]]|
    ensures var d := t.kids[t.up[c]][b];
      d in t.kids &&
      p.VisitAll(done + LaterUpTo(t, c, b + 1)) == p.VisitAll(done + LaterUpTo(t, c, b)).VisitAll(t.Prefix(d))
  {
    hide Tree.Valid, Tree.Prefix, Tree.PrefixAll, Pass.VisitAll;
    Siblings(t, c);
    var s, i := t.kids[t.up[c]], t.Index(c);
    var d := s[b];
    t.ChildrenAt(t.up[c]);
    assert s[i + 1..b + 1] == s[i + 1..b] + [d];
    PrefixAllOne(t, d);
    PrefixAllConcat(t, s[i + 1..b], [d], c.nestingLevel);
    VisitConcat(p, done + LaterUpTo(t, c, b), t.Prefix(d));
    assert done + LaterUpTo(t, c, b + 1) == done + LaterUpTo(t, c, b) + t.Prefix(d);
  }

  lemma ExchangeMeans(s: Screen, p: Entry, i: nat)
    requires s.tree.Valid() && p in s.tree.kids && i + 1 < |s.tree.kids[p]|
    ensures var t', a, x := Swapped(s.tree, p, i), s.tree.kids[p][i], s.tree.kids[p][i + 1];
      t'.Valid() && a in s.tree.kids && x in s.tree.kids && x in t'.kids &&
      Exchanged(s, p, i)
        == Renumbered(Screen(t', Pass(s.rows, RowOf(s.rows, a), false).VisitAll(t'.After(x)).rows), x)
  {
    Neighbours(s.tree, p, i);
    SwapWalk(s.tree, p, i);
  }

  // The last entry of a walk is that of the walk of the last child.
  lemma LastOfPrefix(t: Tree, e: Entry)
    requires t.Valid() && e in t.kids && t.kids[e] != []
    ensures var c := t.kids[e][|t.kids[e]| - 1];
      c in t.kids && c.nestingLevel == e.nestingLevel + 1 && t.Prefix(c) != [] &&
      t.Prefix(e)[|t.Prefix(e)| - 1] == t.Prefix(c)[|t.Prefix(c)| - 1]
  {
    var s := t.kids[e];
    var n := |s| - 1;
    t.ChildrenAt(e);
    PrefixAllOne(t, s[n]);
    PrefixAllConcat(t, s[..n], [s[n]], e.nestingLevel + 1);
    assert s == s[..n] + [s[n]];
  }

  // --- Servers and folders -------------------------------------------------------------------

  // Servers are below the root, folders below servers and folders.
  predicate Fits(parent: Kind, child: Kind) { if parent.RootKind? then child.ServerKind? else child.FolderKind? }

  /** The layers of the tree, as the program builds it. */
  ghost predicate Layered(t: Tree) {
    forall e, c :: e in t.kids && c in t.kids[e] ==> Fits(e.kind, c.kind)
  }

  lemma FewerLayered(t: Tree, t': Tree)
    requires Layered(t) && forall e, c :: e in t'.kids && c in t'.kids[e] ==> e in t.kids && c in t.kids[e]
    ensures Layered(t')
  {}

  lemma AddedLayered(t: Tree, c: Entry, p: Entry?)
    requires t.Valid() && Layered(t) && (p != null ==> p in t.kids && Fits(p.kind, c.kind))
    ensures Layered(Added(t, c, p))
  {
    hide Fits;
  }

  lemma ClearedLayered(t: Tree, e: Entry)
    requires t.Valid() && Layered(t) && e in t.kids
    ensures Layered(Cleared(t, e, |t.kids[e]|))
  {
    hide BelowFirst;
    FewerLayered(t, Cleared(t, e, |t.kids[e]|));
  }

  lemma DestroyedLayered(t: Tree, e: Entry)
    requires t.Valid() && Layered(t) && e in t.kids
    ensures Layered(Destroyed(t, e))
  {
    hide Tree.Prefix, Tree.Index, Fits;
    if e in t.up {
      var p, i := t.up[e], t.Index(e);
      forall c | c in t.kids[p][..i] + t.kids[p][i + 1..] ensures c in t.kids[p] {}
      FewerLayered(t, Cut(t, e));
      FewerLayered(Cut(t, e), Destroyed(t, e));
    } else {
      FewerLayered(t, Destroyed(t, e));
    }
  }

  lemma SwappedLayered(t: Tree, p: Entry, i: nat)
    requires t.Valid() && Layered(t) && p in t.kids && i + 1 < |t.kids[p]|
    ensures Layered(Swapped(t, p, i))
  {
    FewerLayered(t, Swapped(t, p, i));
  }

  /** On a layered tree, moving an entry up or down leaves a wholly numbered tree. */
  lemma MoveKeepsWhole(s: Screen, p: Entry, i: nat, first: int)
    requires first >= 0 && s.tree.Valid() && Layered(s.tree) && p in s.tree.kids && i + 1 < |s.tree.kids[p]|
    requires WhollyNumbered(s, p, first)
    ensures var s' := Exchanged(s, p, i);
      s'.tree.Valid() && Layered(s'.tree) && p in s'.tree.kids && WhollyNumbered(s', p, first)
  {
    hide WhollyNumbered, Exchanged, Swapped, Tree.Before, Tree.Prefix, Tree.PrefixAll, Tree.Later, Numbering, Tree.Valid;
    Neighbours(s.tree, p, i);
    ExchangeKeepsWhole(s, p, i, first);
    ExchangedTree(s, p, i);
    SwappedLayered(s.tree, p, i);
    assert s.tree.kids[p][i] in s.tree.kids[p] && s.tree.kids[p][i + 1] in s.tree.kids[p];
  }

  lemma ExchangedTree(s: Screen, p: Entry, i: nat)
    requires s.tree.Valid() && p in s.tree.kids && i + 1 < |s.tree.kids[p]|
    ensures Exchanged(s, p, i).tree == Swapped(s.tree, p, i)
  {}

  // From s to s', a layered tree stays layered and a wholly numbered one wholly numbered.
  ghost predicate KeepsWhole(s: Screen, s': Screen, e: Entry) {
    s.tree.Valid() && s'.tree.Valid() && e in s.tree.kids && e in s'.tree.kids &&
    (Layered(s.tree) ==>
      Layered(s'.tree) && forall first :: first >= 0 && WhollyNumbered(s, e, first) ==> WhollyNumbered(s', e, first))
  }

  lemma MovedKeepsWhole(s: Screen, p: Entry, i: nat, e: Entry)
    requires s.tree.Valid() && e in s.tree.up && s.tree.up[e] == p && p in s.tree.kids && i + 1 < |s.tree.kids[p]|
    ensures KeepsWhole(s, Exchanged(s, p, i), e)
  {
    hide WhollyNumbered, Exchanged, Tree.Before, Tree.Prefix, Tree.PrefixAll, Tree.Later, Numbering, Tree.Valid, Layered;
    var s' := Exchanged(s, p, i);
    ExchangedTree(s, p, i);
    SwapAround(s.tree, p, i);
    SameButMeans(s.tree, s'.tree, p);
    s.tree.Level(e);
    if Layered(s.tree) {
      SwappedLayered(s.tree, p, i);
      forall first | first >= 0 && WhollyNumbered(s, e, first) ensures WhollyNumbered(s', e, first) {
        SameTop(s, e, first);
        MoveKeepsWhole(s, p, i, first);
        SameTop(s', e, first);
      }
    }
  }

  lemma StaysWhole(s: Screen, e: Entry)
    requires s.tree.Valid() && e in s.tree.kids
    ensures KeepsWhole(s, s, e)
  {}

  lemma SameTop(s: Screen, e: Entry, first: int)
    requires s.tree.Valid() && e in s.tree.up
    ensures e in s.tree.kids && s.tree.up[e] in s.tree.kids
    ensures WhollyNumbered(s, e, first) <==> WhollyNumbered(s, s.tree.up[e], first)
  {
    s.tree.Level(e);
  }

  // --- The objects ---------------------------------------------------------------------------

  class Hierarchy {
    var rowmap: RowMap
    var root: Entry?

    // The live entries.
    ghost var entries: set<Entry>

    ghost function T(): Tree
      reads this`entries, entries`children, entries`parent
    {
      Tree(Kids(), Parents())
    }

    ghost function Kids(): map<Entry, seq<Entry>>
      reads this`entries, entries`children
    {
      map e | e in entries :: e.children
    }

    ghost function Parents(): map<Entry, Entry>
      reads this`entries, entries`parent
    {
      map e | e in entries && e.parent != null :: e.parent
    }

    // rowmap and rowNum are inverse to each other.
    ghost predicate Mirrored()
      reads this`rowmap, this`entries, entries`rowNum
    {
      (forall e :: e in entries ==>
        e.hierarchy == this && e.rowNum >= -1 && (e.rowNum >= 0 ==> e.rowNum in rowmap && rowmap[e.rowNum] == e)) &&
      (forall k :: k in rowmap ==> k >= 0 && rowmap[k] in entries && rowmap[k].rowNum == k)
    }

    ghost predicate Valid()
      reads this`rowmap, this`entries, entries`rowNum, entries`children, entries`parent
    {
      Mirrored() && T().Valid()
    }

    constructor ()
      ensures Valid() && rowmap == map[] && fresh(entries)
      ensures root != null && root in entries && root.kind == RootKind && entries == {root} && root.children == []
      ensures Layered(T())
    {
      rowmap, root, entries := map[], null, {};
      new;
      root := new Entry(this, null, RootKind);
    }

    lemma RowOfEntry(e: Entry)
      requires Mirrored() && e in entries
      ensures RowOf(rowmap, e) == e.rowNum && OneRowEach(rowmap)
    {
    }

    lemma Owned(e: Entry)
      requires Mirrored() && e in entries
      ensures e.hierarchy == this
    {
    }

    lemma TreeMeans()
      ensures T().kids.Keys == entries && forall e :: e in entries ==> e.children == T().kids[e]
      ensures T().up.Keys <= entries
      ensures forall e :: e in entries ==>
        (e.parent != null <==> e in T().up) && (e in T().up ==> e.parent == T().up[e])
    {
    }

    twostate lemma TreeMeant()
      ensures var t := old(T());
        t.kids.Keys == old(entries) && t.up.Keys <= old(entries) &&
        forall e :: e in old(entries) ==>
          t.kids[e] == old(e.children) && (old(e.parent) != null <==> e in t.up) && (e in t.up ==> t.up[e] == old(e.parent))
    {
    }

    // The objects are linked as in t.
    lemma SameTree(t: Tree)
      requires t.kids.Keys == entries && forall e :: e in entries ==> e.children == t.kids[e]
      requires t.up.Keys <= entries
      requires forall e :: e in entries ==> (e.parent != null <==> e in t.up) && (e in t.up ==> e.parent == t.up[e])
      ensures T() == t
    {
      assert Kids() == t.kids;
      forall e | e in Parents() ensures e in t.up.Keys {
      }
      forall e | e in t.up ensures e in Parents().Keys {
      }
      assert Parents().Keys == t.up.Keys;
      assert Parents() == t.up;
    }

    // Only the children of p changed.
    twostate lemma Relinked(p: Entry)
      requires p in entries && entries == old(entries)
      requires forall e :: e in entries ==> e.parent == old(e.parent) && (e != p ==> e.children == old(e.children))
      ensures T() == old(T()).(kids := old(T()).kids[p := p.children])
    {
      hide Tree.Valid, IsChild, T, Kids, Parents;
      TreeMeant();
      SameTree(old(T()).(kids := old(T()).kids[p := p.children]));
    }

    // Entry c was unlinked from its parent.
    twostate lemma Unlinked(c: Entry)
      requires old(Valid()) && c in old(entries) && c in old(T()).up && entries == old(entries) && c.parent == null
      requires var p, i := old(T()).up[c], old(T()).Index(c);
        p in old(entries) && i < |old(p.children)| && p.children == old(p.children)[..i] + old(p.children)[i + 1..]
      requires forall e :: e in entries && e != c ==> e.parent == old(e.parent)
      requires forall e :: e in entries && e != old(T()).up[c] ==> e.children == old(e.children)
      ensures T() == Cut(old(T()), c) && T().Valid()
    {
      hide Tree.Valid, IsChild, T, Kids, Parents;
      TreeMeant();
      CutValid(old(T()), c);
      SameTree(Cut(old(T()), c));
    }

    // Entry c, on no row and with no children, was unlinked from its parent, if it had one,
    // and destroyed.
    twostate lemma Gone(c: Entry)
      requires old(Valid()) && c in old(entries) && old(c.rowNum) < 0 && old(c.children) == []
      requires entries == old(entries) - {c} && rowmap == old(rowmap)
      requires c in old(T()).up ==>
        (var p, i := old(T()).up[c], old(T()).Index(c);
         p != c && p in old(entries) && i < |old(p.children)| &&
         p.children == old(p.children)[..i] + old(p.children)[i + 1..])
      requires forall e :: e in entries ==> e.parent == old(e.parent) && e.rowNum == old(e.rowNum)
      requires forall e :: e in entries && !(c in old(T()).up && e == old(T()).up[c]) ==> e.children == old(e.children)
      ensures Valid() && T() == WithoutLeaf(old(T()), c)
    {
      hide Tree.Valid, IsChild, T, Kids, Parents;
      TreeMeant();
      WithoutLeafValid(old(T()), c);
      SameTree(WithoutLeaf(old(T()), c));
    }

    // A new entry c, on no row, joins.
    twostate lemma OneMore(new c: Entry)
      requires old(Valid()) && rowmap == old(rowmap) && c !in old(entries) && entries == old(entries) + {c}
      requires c.hierarchy == this && c.rowNum == -1 && c.children == []
      requires c.parent != null ==> c.parent in old(entries) && !c.kind.RootKind?
      requires c.parent != null ==> c.nestingLevel == c.parent.nestingLevel + 1
      requires forall d :: d in old(entries) ==> d.rowNum == old(d.rowNum) && d.parent == old(d.parent)
      requires forall d :: d in old(entries) ==> d.children == old(d.children) + (if d == c.parent then [c] else [])
      ensures Valid() && T() == Added(old(T()), c, c.parent)
    {
      hide Tree.Valid, IsChild, T, Kids, Parents, Added;
      var t := old(T());
      TreeMeant();
      AddedValid(t, c, c.parent);
      AddedMeans(t, c, c.parent);
      SameTree(Added(t, c, c.parent));
    }

    /** The last entry in prefix order. */
    method GetLastRow() returns (n: Entry)
      requires Valid() && root != null && root in entries
      ensures n in entries && n == T().Prefix(root)[|T().Prefix(root)| - 1]
    {
      n := root;
      var t := T();
      while n.children != []
        invariant n in entries && n == t.Prefix(n)[0]
        invariant t.Prefix(root)[|t.Prefix(root)| - 1] == t.Prefix(n)[|t.Prefix(n)| - 1]
        decreases t.From(n.nestingLevel)
      {
        LastOfPrefix(t, n);
        assert n in t.From(n.nestingLevel) && n !in t.From(n.nestingLevel + 1);
        n := n.children[|n.children| - 1];
      }
    }

    /** Number again from an entry on, on the row it has (the display's part is drawing). */
    method DrawEraseBelow(e: Entry, doErase: bool)
      requires Valid() && e in entries
      modifies this`rowmap, entries`rowNum
      ensures Valid()
      ensures var s := old(Screen(T(), rowmap)); Screen(T(), rowmap) == if doErase then s else Renumbered(s, e)
    {
      if !doErase {
        RowOfEntry(e);
        var it := new AssignRow(e.rowNum);
        e.PrefixIterateAfter(it);
      }
    }

    /** A server's folder list is read again: its entries are destroyed, n new ones are
        created, and the rows below it are assigned again. A wholly numbered tree stays so. */
    method ShowFolders(e: Entry, n: nat, ghost first: int)
      requires Valid() && e in entries && e.parent != null && first >= 0
      requires WhollyNumbered(Screen(T(), rowmap), e, first)
      modifies this`rowmap, this`entries, entries
      ensures Valid() && e in entries && |e.children| == n
      ensures WhollyNumbered(Screen(T(), rowmap), e, first)
      ensures Layered(old(T())) ==> Layered(T())
    {
      hide Tree.Valid, T, Mirrored, Tree.Prefix, Tree.PrefixAll, Cleared, Added, Keeping, Elements, WhollyNumbered, Renumbered, Refilled;
      hide Layered, BelowFirst, Tree.Before, Tree.Later, Tree.Top, Tree.After;
      ghost var s := Screen(T(), rowmap);
      TreeMeans();
      Owned(e);
      s.tree.Level(e);
      DrawEraseBelow(e, true);
      e.Clear();
      RefillStart(s, e);
      var i := 0;
      while i < n
        invariant i <= n && i == |e.children| && Valid() && e in entries && e.hierarchy == this
        invariant Refilled(s, Screen(T(), rowmap), e) && fresh(entries - old(entries))
        invariant Layered(s.tree) ==> Layered(T())
      {
        TreeMeans();
        ghost var t := T();
        var c := new Entry(this, e, FolderKind);
        RefillNext(s, Screen(t, rowmap), c, e);
        AddedMeans(t, c, e);
        TreeMeans();
        i := i + 1;
      }
      TreeMeans();
      RefillDone(s, Screen(T(), rowmap), e, first);
      DrawEraseBelow(e, false);
    }
  }

  /** The iterator that assigns rows, for a walk in prefix order. */
  class AssignRow {
    var row: int
    var separateServers: bool

    constructor (r: int)
      ensures row == r && !separateServers
    {
      row, separateServers := r, false;
    }

    method Visit(e: Entry)
      requires e in e.hierarchy.entries && e.hierarchy.Mirrored()
      modifies this, e.hierarchy`rowmap, e.hierarchy.entries`rowNum
      ensures e.hierarchy.Mirrored()
      ensures Pass(e.hierarchy.rowmap, row, separateServers) == old(Pass(e.hierarchy.rowmap, row, separateServers).Visit(e))
      ensures old(row) >= 0 && !e.kind.RootKind? ==>
        e.rowNum == old(row) + (if e.kind.ServerKind? && old(separateServers) then 1 else 0) &&
        row == e.rowNum + 1 && separateServers
    {
      hide Hierarchy.Mirrored, Place;
      match e.kind
      case RootKind =>
      case FolderKind =>
        separateServers := true;
        row := row + 1;
        e.SetRow(row - 1);
      case ServerKind =>
        if separateServers {
          row := row + 1;
        }
        separateServers := true;
        row := row + 1;
        e.SetRow(row - 1);
    }
  }

  class Entry {
    const hierarchy: Hierarchy
    const kind: Kind
    const nestingLevel: nat
    var parent: Entry?
    var children: seq<Entry>
    var rowNum: int

    constructor (h: Hierarchy, p: Entry?, k: Kind)
      requires h.Valid() && (p != null ==> p in h.entries && k != RootKind)
      modifies h`entries, h.entries`children
      ensures h.Valid() && hierarchy == h && kind == k && rowNum == -1 && parent == p && children == []
      ensures nestingLevel == if p == null then 0 else p.nestingLevel + 1
      ensures h.entries == old(h.entries) + {this} && h.T() == Added(old(h.T()), this, p)
      ensures Layered(old(h.T())) && (p != null ==> Fits(p.kind, k)) ==> Layered(h.T())
    {
      hide Tree.Valid, IsChild, Hierarchy.T, Hierarchy.Kids, Hierarchy.Parents, Added, Hierarchy.Mirrored, Layered;
      ghost var t := h.T();
      h.TreeMeans();
      hierarchy, kind, parent, children, rowNum := h, k, p, [], -1;
      nestingLevel := if p == null then 0 else p.nestingLevel + 1;
      new;
      if p != null {
        p.children := p.children + [this];
      }
      h.entries := h.entries + {this};
      h.OneMore(this);
      if Layered(t) && (p != null ==> Fits(p.kind, k)) {
        AddedLayered(t, this, p);
      }
    }

    // Each time the entry is repositioned, the row map follows.
    method SetRow(newRowNum: int)
      requires this in hierarchy.entries && hierarchy.Mirrored()
      modifies hierarchy`rowmap, hierarchy.entries`rowNum
      ensures hierarchy.Mirrored() && hierarchy.rowmap == Place(old(hierarchy.rowmap), this, newRowNum)
      ensures rowNum == if newRowNum >= 0 then newRowNum else -1
      decreases newRowNum >= 0
    {
      hide Hierarchy.T, Tree.Valid, Place;
      ghost var m := hierarchy.rowmap;
      hierarchy.RowOfEntry(this);
      PlaceOff(m, this, rowNum);
      if rowNum >= 0 {
        hierarchy.rowmap := hierarchy.rowmap - {rowNum};
        rowNum := -1;
      }
      PlaceOver(m, this, newRowNum);
      if newRowNum in hierarchy.rowmap {
        PlaceFrees(hierarchy.rowmap, newRowNum);
        hierarchy.rowmap[newRowNum].SetRow(-1);
      }
      if newRowNum >= 0 {
        hierarchy.rowmap := hierarchy.rowmap[newRowNum := this];
        rowNum := newRowNum;
      }
    }

    /** Visit this entry and everything below it, in prefix order. */
    method PrefixIterate(it: AssignRow)
      requires this in hierarchy.entries && hierarchy.Valid()
      modifies it, hierarchy`rowmap, hierarchy.entries`rowNum
      ensures hierarchy.Valid()
      ensures Pass(hierarchy.rowmap, it.row, it.separateServers)
           == old(Pass(hierarchy.rowmap, it.row, it.separateServers).VisitAll(hierarchy.T().Prefix(this)))
      decreases hierarchy.T().From(nestingLevel)
    {
      hide Tree.Valid, Hierarchy.T, Hierarchy.Mirrored, Pass.Visit, Tree.Prefix, Tree.PrefixAll, Pass.VisitAll;
      ghost var t, p := hierarchy.T(), Pass(hierarchy.rowmap, it.row, it.separateServers);
      hierarchy.TreeMeans();
      WalkStart(t, this, p);
      it.Visit(this);
      var i := 0;
      while i < |children|
        invariant i <= |children| && hierarchy.Valid()
        invariant Pass(hierarchy.rowmap, it.row, it.separateServers) == p.VisitAll([this] + BelowFirst(t, this, i))
      {
        WalkNext(t, this, i, p);
        hierarchy.Owned(children[i]);
        children[i].PrefixIterate(it);
        i := i + 1;
      }
    }

    /** Visit this entry and everything below it, then the rest of the tree, in prefix order. */
    method PrefixIterateAfter(it: AssignRow)
      requires this in hierarchy.entries && hierarchy.Valid()
      modifies it, hierarchy`rowmap, hierarchy.entries`rowNum
      ensures hierarchy.Valid()
      ensures Pass(hierarchy.rowmap, it.row, it.separateServers)
           == old(Pass(hierarchy.rowmap, it.row, it.separateServers).VisitAll(hierarchy.T().After(this)))
    {
      hide Tree.Valid, Hierarchy.T, Hierarchy.Mirrored, Tree.Prefix, Tree.PrefixAll, Pass.VisitAll, Tree.Later, Tree.Index;
      ghost var t, p := hierarchy.T(), Pass(hierarchy.rowmap, it.row, it.separateServers);
      hierarchy.TreeMeans();
      PrefixIterate(it);
      var child := this;
      ghost var done := t.Prefix(this);
      while child.parent != null
        invariant child in hierarchy.entries && child.hierarchy == hierarchy && hierarchy.Valid()
        invariant Pass(hierarchy.rowmap, it.row, it.separateServers) == p.VisitAll(done)
        invariant done + t.Later(child) == t.After(this)
        decreases child.nestingLevel
      {
        var parent := child.parent;
        LaterStart(t, child);
        hierarchy.Owned(parent);
        var b := 0;
        while parent.children[b] != child
          invariant b <= t.Index(child)
          decreases t.Index(child) - b
        {
          b := b + 1;
        }
        IndexIs(t, child, b);
        b := b + 1;
        assert done + LaterUpTo(t, child, b) == done;
        while b < |parent.children|
          invariant t.Index(child) < b <= |parent.children| && hierarchy.Valid()
          invariant Pass(hierarchy.rowmap, it.row, it.separateServers) == p.VisitAll(done + LaterUpTo(t, child, b))
        {
          LaterNext(t, child, b, p, done);
          hierarchy.Owned(parent.children[b]);
          parent.children[b].PrefixIterate(it);
          b := b + 1;
        }
        done := done + LaterUpTo(t, child, b);
        child := parent;
      }
      LaterTop(t, child);
      assert done + [] == done;
    }

    // Two neighbours among the children change places.
    method SwapChildren(i: nat)
      requires this in hierarchy.entries && hierarchy.Valid() && i + 1 < |children|
      modifies this`children
      ensures children == old(children[i := children[i + 1]][i + 1 := children[i]])
      ensures hierarchy.Valid()
      ensures this in old(hierarchy.T()).kids && old(hierarchy.T()).kids[this] == old(children)
      ensures hierarchy.T() == Swapped(old(hierarchy.T()), this, i)
    {
      hide Tree.Valid, Hierarchy.T, Hierarchy.Mirrored;
      ghost var t := hierarchy.T();
      hierarchy.TreeMeans();
      SwappedValid(t, this, i);
      SameButMeans(t, Swapped(t, this, i), this);
      children := children[i := children[i + 1]][i + 1 := children[i]];
      hierarchy.Relinked(this);
    }

    // The part of MoveUp and MoveDown after the two neighbours are found: they change places,
    // and the rows from the upper one on are assigned again.
    method SwapWithNext(i: nat)
      requires this in hierarchy.entries && hierarchy.Valid() && i + 1 < |children|
      modifies hierarchy`rowmap, hierarchy.entries`rowNum, hierarchy.entries`children
      ensures hierarchy.Valid()
      ensures var s := old(Screen(hierarchy.T(), hierarchy.rowmap));
        this in s.tree.kids && s.tree.kids[this] == old(children) &&
        Screen(hierarchy.T(), hierarchy.rowmap) == Exchanged(s, this, i)
    {
      hide Tree.Valid, Hierarchy.T, Hierarchy.Mirrored, Tree.After, Pass.VisitAll, RowOf, Swapped, Renumbered;
      ghost var s := Screen(hierarchy.T(), hierarchy.rowmap);
      var a, x := children[i], children[i + 1];
      hierarchy.TreeMeans();
      ExchangeMeans(s, this, i);
      hierarchy.RowOfEntry(a);
      hierarchy.Owned(x);
      var r := a.rowNum;
      hierarchy.DrawEraseBelow(a, true);
      SwapChildren(i);
      var it := new AssignRow(r);
      x.PrefixIterateAfter(it);
      hierarchy.DrawEraseBelow(x, false);
    }

    /** Move this entry up amongst its siblings. */
    method MoveUp()
      requires this in hierarchy.entries && hierarchy.Valid() && parent != null
      modifies hierarchy`rowmap, hierarchy.entries`rowNum, hierarchy.entries`children
      ensures hierarchy.Valid()
      ensures var s := old(Screen(hierarchy.T(), hierarchy.rowmap));
        var i := s.tree.Index(this);
        Screen(hierarchy.T(), hierarchy.rowmap) == if i > 0 then Exchanged(s, parent, i - 1) else s
      ensures KeepsWhole(old(Screen(hierarchy.T(), hierarchy.rowmap)), Screen(hierarchy.T(), hierarchy.rowmap), this)
    {
      hide Tree.Valid, Hierarchy.T, Hierarchy.Mirrored, Tree.Index, Exchanged, KeepsWhole;
      ghost var s := Screen(hierarchy.T(), hierarchy.rowmap);
      hierarchy.TreeMeans();
      LaterStart(s.tree, this);
      hierarchy.Owned(parent);
      var b, e := 0, |parent.children|;
      var last := e;
      while parent.children[b] != this
        invariant b <= s.tree.Index(this) && last == if b == 0 then e else b - 1
        decreases e - b
      {
        last := b;
        b := b + 1;
      }
      IndexIs(s.tree, this, b);
      if last != e {
        parent.SwapWithNext(last);
        MovedKeepsWhole(s, parent, last, this);
      } else {
        StaysWhole(s, this);
      }
    }

    /** Move this entry down. */
    method MoveDown()
      requires this in hierarchy.entries && hierarchy.Valid() && parent != null
      modifies hierarchy`rowmap, hierarchy.entries`rowNum, hierarchy.entries`children
      ensures hierarchy.Valid()
      ensures var s := old(Screen(hierarchy.T(), hierarchy.rowmap));
        var i := s.tree.Index(this);
        Screen(hierarchy.T(), hierarchy.rowmap) ==
          if i + 1 < |s.tree.kids[old(parent)]| then Exchanged(s, parent, i) else s
      ensures KeepsWhole(old(Screen(hierarchy.T(), hierarchy.rowmap)), Screen(hierarchy.T(), hierarchy.rowmap), this)
    {
      hide Tree.Valid, Hierarchy.T, Hierarchy.Mirrored, Tree.Index, Exchanged, KeepsWhole;
      ghost var s := Screen(hierarchy.T(), hierarchy.rowmap);
      hierarchy.TreeMeans();
      LaterStart(s.tree, this);
      hierarchy.Owned(parent);
      var end := |parent.children|;
      var e, last := end - 1, end;
      while parent.children[e] != this
        invariant s.tree.Index(this) <= e < end && last == e + 1
        decreases e
      {
        last := e;
        e := e - 1;
      }
      IndexIs(s.tree, this, e);
      if last != end {
        parent.SwapWithNext(e);
        MovedKeepsWhole(s, parent, e, this);
      } else {
        StaysWhole(s, this);
      }
    }

    /** Remove the children. The program fills the list with nulls as it goes; here it gets
        shorter. */
    method Clear()
      requires this in hierarchy.entries && hierarchy.Valid()
      modifies hierarchy`rowmap, hierarchy`entries, hierarchy.entries
      ensures hierarchy.Valid() && hierarchy.entries <= old(hierarchy.entries) && this in hierarchy.entries && children == []
      ensures var t := old(hierarchy.T());
        this in t.kids && t.kids[this] == old(children) && hierarchy.T() == Cleared(t, this, |t.kids[this]|) &&
        hierarchy.rowmap == Keeping(old(hierarchy.rowmap), Elements(BelowFirst(t, this, |t.kids[this]|)))
      ensures Layered(old(hierarchy.T())) ==> Layered(hierarchy.T())
      decreases hierarchy.T().From(nestingLevel), 0
    {
      hide Tree.Valid, Hierarchy.T, Hierarchy.Mirrored, BelowFirst, Cleared, Keeping, Elements, Cut, Destroyed, Tree.Prefix, Tree.From, Layered;
      ghost var t, m, k := hierarchy.T(), hierarchy.rowmap, 0;
      hierarchy.TreeMeans();
      ClearNone(t, this, m);
      while children != []
        invariant k <= |t.kids[this]| && children == t.kids[this][k..]
        invariant hierarchy.entries <= old(hierarchy.entries) && this in hierarchy.entries && hierarchy.Valid()
        invariant hierarchy.T() == Cleared(t, this, k)
        invariant hierarchy.rowmap == Keeping(m, Elements(BelowFirst(t, this, k)))
        decreases |t.kids[this]| - k
      {
        ClearStep(t, this, k);
        ClearRows(t, this, k, m);
        hierarchy.TreeMeans();
        DestroyFirst();
        k := k + 1;
        ClearedMeans(t, this, k);
        hierarchy.TreeMeans();
      }
      if Layered(t) {
        ClearedLayered(t, this);
      }
    }

    // Unlink and destroy the first child.
    method DestroyFirst()
      requires this in hierarchy.entries && hierarchy.Valid() && children != []
      requires children[0] in hierarchy.T().up && hierarchy.T().up[children[0]] == this && hierarchy.T().Index(children[0]) == 0
      requires children[0] in Cut(hierarchy.T(), children[0]).kids && Cut(hierarchy.T(), children[0]).Valid()
      modifies hierarchy`rowmap, hierarchy`entries, hierarchy.entries
      ensures hierarchy.Valid() && hierarchy.entries < old(hierarchy.entries)
      ensures var t, c := old(Cut(hierarchy.T(), children[0])), old(children[0]);
        hierarchy.T() == Destroyed(t, c) && hierarchy.rowmap == Keeping(old(hierarchy.rowmap), Elements(t.Prefix(c)))
      decreases hierarchy.T().From(children[0].nestingLevel), 2
    {
      hide Tree.Valid, Hierarchy.T, Hierarchy.Mirrored, Keeping, Elements, Cut, Destroyed, Tree.Prefix, Tree.From;
      var c := children[0];
      hierarchy.TreeMeans();
      hierarchy.Owned(c);
      FromLess(hierarchy.T(), c.nestingLevel);
      assert children[..0] + children[1..] == children[1..];
      children := children[1..];
      c.parent := null;
      hierarchy.Unlinked(c);
      hierarchy.TreeMeans();
      c.Destroy();
    }

    /** The destructor. */
    method Destroy()
      requires this in hierarchy.entries && hierarchy.Valid()
      modifies hierarchy`rowmap, hierarchy`entries, hierarchy.entries
      ensures hierarchy.Valid() && hierarchy.entries < old(hierarchy.entries)
      ensures var t := old(hierarchy.T());
        this in t.kids && hierarchy.T() == Destroyed(t, this) &&
        hierarchy.rowmap == Keeping(old(hierarchy.rowmap), Elements(t.Prefix(this)))
      ensures Layered(old(hierarchy.T())) ==> Layered(hierarchy.T())
      decreases hierarchy.T().From(nestingLevel), 1
    {
      hide Layered, Tree.Valid, Hierarchy.T, Hierarchy.Mirrored, BelowFirst, Cleared, Keeping, Elements, Cut, Destroyed, Tree.Prefix, Tree.Index, Without, Place;
      ghost var t, m := hierarchy.T(), hierarchy.rowmap;
      hierarchy.TreeMeans();
      Clear();
      hierarchy.TreeMeans();
      SetRow(-1);
      DestroyTree(t, this);
      DestroyRows(t, this, m);
      Unlink();
      if Layered(t) {
        DestroyedLayered(t, this);
      }
    }

    // Take this entry, which has no children and is on no row, off its parent's list.
    method Unlink()
      requires this in hierarchy.entries && hierarchy.Valid() && children == [] && rowNum < 0
      modifies hierarchy`entries, hierarchy.entries`children
      ensures this in old(hierarchy.T()).kids && hierarchy.entries == old(hierarchy.entries) - {this}
      ensures hierarchy.Valid() && hierarchy.T() == WithoutLeaf(old(hierarchy.T()), this)
    {
      hide Tree.Valid, Hierarchy.T, Hierarchy.Mirrored, Cut, Tree.Index, Without;
      ghost var t := hierarchy.T();
      hierarchy.TreeMeans();
      if parent != null {
        LaterStart(t, this);
        var b := 0;
        while parent.children[b] != this
          invariant b <= t.Index(this)
          decreases t.Index(this) - b
        {
          b := b + 1;
        }
        IndexIs(t, this, b);
        parent.children := parent.children[..b] + parent.children[b + 1..];
      }
      hierarchy.entries := hierarchy.entries - {this};
      hierarchy.Gone(this);
    }
  }
}
