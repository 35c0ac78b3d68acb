/** Screen columns of a line of text: grapheme boundaries, character widths, and
    the search for the character shown at a given column.

    The two tables that the program links against, the Unicode grapheme-break
    classes and the C library's wcwidth(), are parameters held in a Font. */
module Columns {

  datatype GraphemeClass =
    Any | CR | LF | Control | Extend | Prepend | SpacingMark | L | V | T | LV | LVT

  datatype Font = Font(classOf: char -> GraphemeClass, wcwidth: char -> int)
  {
    // Tab is a control character in every version of the Unicode table.
    function Class(ch: char): GraphemeClass {
      if ch == '\t' then Control else classOf(ch)
    }

    // unicode_grapheme_break: rules GB3 to GB10 of Unicode Annex 29.
    predicate Breaks(a: char, b: char) {
      var ac, bc := Class(a), Class(b);
      if ac == CR && bc == LF then false
      else if ac in {CR, LF, Control} || bc in {CR, LF, Control} then true
      else if ac == L && bc in {L, V, LV, LVT} then false
      else if ac in {LV, V} && bc in {V, T} then false
      else if ac in {LVT, T} && bc == T then false
      else bc != Extend && bc != SpacingMark && ac != Prepend
    }

    // widecharbuf::charwidth: a tab runs to the next multiple of eight, an
    // unprintable character counts as one column.
    function CharWidth(ch: char, col: nat): nat {
      if ch == '\t' then 8 - col % 8
      else if wcwidth(ch) < 0 then 1
      else wcwidth(ch)
    }
  }

  /** Unicode Annex 29: between two characters there is no grapheme boundary exactly if they are
      CR and LF (GB3), or neither is a control character (GB4, GB5) and they belong to a Hangul
      syllable (GB6 to GB8), or the second extends the first (GB9, GB9a), or the first is a prefix
      (GB9b). */
  lemma GraphemeRules(f: Font, a: char, b: char)
    ensures var x, y := f.Class(a), f.Class(b);
      !f.Breaks(a, b) <==>
        ((x, y) == (CR, LF) ||
         ({x, y} !! {CR, LF, Control} &&
          (((x, y) in {(L, L), (L, V), (L, LV), (L, LVT), (LV, V), (LV, T), (V, V), (V, T), (LVT, T), (T, T)}) ||
           y == Extend || y == SpacingMark || x == Prepend)))
  {
    var x, y := f.Class(a), f.Class(b);
    if {x, y} !! {CR, LF, Control} {
      assert x in {x, y} && y in {x, y};
    } else {
      var z :| z in {x, y} && z in {CR, LF, Control};
    }
  }

  /** A tab ends at the next multiple of eight, wherever it starts. */
  lemma TabStops(f: Font, col: nat)
    ensures var end := EndCol(f, "\t", col); end % 8 == 0 && col < end <= col + 8
  {
    assert "\t"[1..] == "";
    assert EndCol(f, "\t", col) == col + f.CharWidth('\t', col);
  }

  // The column after showing s from column col.
  function EndCol(f: Font, s: seq<char>, col: nat): (end: nat)
    ensures col <= end
  {
    if s == [] then col else EndCol(f, s[1..], col + f.CharWidth(s[0], col))
  }

  function Width(f: Font, s: seq<char>): nat { EndCol(f, s, 0) }

  function PrefixCol(f: Font, s: seq<char>, k: nat): nat
    requires k <= |s|
  {
    Width(f, s[..k])
  }

  // --- Grapheme boundaries ---------------------------------------------------

  predicate Boundary(f: Font, s: seq<char>, k: nat)
    requires k <= |s|
  {
    0 < k < |s| ==> f.Breaks(s[k - 1], s[k])
  }

  function NextBoundary(f: Font, s: seq<char>, i: nat): (j: nat)
    requires i < |s|
    ensures i < j <= |s|
    decreases |s| - i
  {
    if i + 1 == |s| || f.Breaks(s[i], s[i + 1]) then i + 1 else NextBoundary(f, s, i + 1)
  }

  function PrevBoundary(f: Font, s: seq<char>, i: nat): (j: nat)
    requires 0 < i <= |s|
    ensures j < i
    decreases i
  {
    if i == 1 || f.Breaks(s[i - 2], s[i - 1]) then i - 1 else PrevBoundary(f, s, i - 1)
  }

  lemma {:induction false} NextBoundaryMeans(f: Font, s: seq<char>, i: nat)
    requires i < |s|
    ensures var j := NextBoundary(f, s, i);
      Boundary(f, s, j) && forall k :: i < k < j ==> !Boundary(f, s, k)
    decreases |s| - i
  {
    if i + 1 < |s| && !f.Breaks(s[i], s[i + 1]) {
      NextBoundaryMeans(f, s, i + 1);
    }
  }

  lemma {:induction false} PrevBoundaryMeans(f: Font, s: seq<char>, i: nat)
    requires 0 < i <= |s|
    ensures var j := PrevBoundary(f, s, i);
      Boundary(f, s, j) && forall k :: j < k < i ==> !Boundary(f, s, k)
  {
    if i > 1 && !f.Breaks(s[i - 2], s[i - 1]) {
      PrevBoundaryMeans(f, s, i - 1);
    }
  }

  lemma IsNextBoundary(f: Font, s: seq<char>, i: nat, j: nat)
    requires i < j <= |s| && Boundary(f, s, j) && forall k :: i < k < j ==> !Boundary(f, s, k)
    ensures j == NextBoundary(f, s, i)
  {
    NextBoundaryMeans(f, s, i);
  }

  // widecharbuf::wcwidth: the widths of the graphemes, each taken at the column
  // where the one before it ended.
  function GraphemeSum(f: Font, s: seq<char>, col: nat): nat
    decreases |s|
  {
    if s == [] then 0 else
      var n := NextBoundary(f, s, 0);
      var w := EndCol(f, s[..n], col) - col;
      w + GraphemeSum(f, s[n..], col + w)
  }

  function GraphemeCount(f: Font, s: seq<char>): (n: nat)
    ensures n <= |s| && (s != [] ==> n > 0)
    decreases |s|
  {
    if s == [] then 0 else 1 + GraphemeCount(f, s[NextBoundary(f, s, 0)..])
  }

  lemma {:induction false} EndColConcat(f: Font, a: seq<char>, b: seq<char>, col: nat)
    ensures EndCol(f, a + b, col) == EndCol(f, b, EndCol(f, a, col))
  {
    if a == [] {
      assert a + b == b;
    } else {
      assert (a + b)[1..] == a[1..] + b;
      EndColConcat(f, a[1..], b, col + f.CharWidth(a[0], col));
    }
  }

  /** How a line is cut into graphemes does not change its width. */
  lemma {:induction false} GraphemesDoNotChangeWidth(f: Font, s: seq<char>, col: nat)
    ensures col + GraphemeSum(f, s, col) == EndCol(f, s, col)
    decreases |s|
  {
    if s != [] {
      var n := NextBoundary(f, s, 0);
      assert s == s[..n] + s[n..];
      EndColConcat(f, s[..n], s[n..], col);
      GraphemesDoNotChangeWidth(f, s[n..], EndCol(f, s[..n], col));
    }
  }

  lemma PrefixColMonotone(f: Font, s: seq<char>, i: nat, j: nat)
    requires i <= j <= |s|
    ensures PrefixCol(f, s, i) <= PrefixCol(f, s, j)
    ensures PrefixCol(f, s, j) == EndCol(f, s[i..j], PrefixCol(f, s, i))
  {
    assert s[..j] == s[..i] + s[i..j];
    EndColConcat(f, s[..i], s[i..j], 0);
  }

  // Some character of s takes up room.
  predicate Visible(f: Font, s: seq<char>) {
    exists i :: 0 <= i < |s| && f.CharWidth(s[i], 0) > 0
  }

  lemma {:induction false} VisibleIffWide(f: Font, s: seq<char>, col: nat)
    ensures EndCol(f, s, col) > col <==> Visible(f, s)
  {
    if s != [] {
      var w := f.CharWidth(s[0], col);
      assert w > 0 <==> f.CharWidth(s[0], 0) > 0;
      VisibleIffWide(f, s[1..], col + w);
      if Visible(f, s[1..]) {
        var i :| 0 <= i < |s[1..]| && f.CharWidth(s[1..][i], 0) > 0;
        assert f.CharWidth(s[i + 1], 0) > 0;
      }
      if Visible(f, s) && w == 0 {
        var i :| 0 <= i < |s| && f.CharWidth(s[i], 0) > 0;
        assert s[1..][i - 1] == s[i];
      }
    }
  }

  // --- The character at a column ---------------------------------------------

  // getIndexOfCol, from the boundary p on.
  function IndexFrom(f: Font, s: seq<char>, p: nat, col: nat): (r: nat)
    requires p <= |s|
    ensures p <= r <= |s|
    decreases |s| - p
  {
    if p == |s| then p else
      var q := NextBoundary(f, s, p);
      if PrefixCol(f, s, q) > col then p else IndexFrom(f, s, q, col)
  }

  function IndexOfCol(f: Font, s: seq<char>, col: nat): (r: nat)
    ensures r <= |s|
  {
    IndexFrom(f, s, 0, col)
  }

  /** A place where the cursor can rest: a grapheme boundary that is not followed
      by a grapheme of zero width. */
  predicate Stable(f: Font, s: seq<char>, k: nat) {
    k <= |s| && Boundary(f, s, k) &&
    (k < |s| ==> Visible(f, s[k..NextBoundary(f, s, k)]))
  }

  lemma {:induction false} IndexFromIsLast(f: Font, s: seq<char>, p: nat, col: nat)
    requires p <= |s| && Boundary(f, s, p) && PrefixCol(f, s, p) <= col
    ensures var r := IndexFrom(f, s, p, col);
      p <= r <= |s| && Stable(f, s, r) && PrefixCol(f, s, r) <= col &&
      forall j :: r < j <= |s| && Boundary(f, s, j) ==> col < PrefixCol(f, s, j)
    decreases |s| - p
  {
    if p < |s| {
      var q := NextBoundary(f, s, p);
      NextBoundaryMeans(f, s, p);
      if PrefixCol(f, s, q) > col {
        PrefixColMonotone(f, s, p, q);
        VisibleIffWide(f, s[p..q], PrefixCol(f, s, p));
        forall j | p < j <= |s| && Boundary(f, s, j) ensures col < PrefixCol(f, s, j) {
          PrefixColMonotone(f, s, q, j);
        }
      } else {
        IndexFromIsLast(f, s, q, col);
      }
    }
  }

  /** getIndexOfCol finds the greatest grapheme boundary whose prefix is no wider
      than the column, and the cursor can rest there. */
  lemma IndexOfColIsLast(f: Font, s: seq<char>, col: nat)
    ensures var r := IndexOfCol(f, s, col);
      r <= |s| && Stable(f, s, r) && PrefixCol(f, s, r) <= col &&
      forall j :: r < j <= |s| && Boundary(f, s, j) ==> col < PrefixCol(f, s, j)
  {
    IndexFromIsLast(f, s, 0, col);
  }

  /** Converting an index to a column and back returns the index exactly when the
      cursor can rest there. */
  lemma ColumnRoundTrip(f: Font, s: seq<char>, k: nat)
    requires k <= |s|
    ensures IndexOfCol(f, s, PrefixCol(f, s, k)) == k <==> Stable(f, s, k)
  {
    var r := IndexOfCol(f, s, PrefixCol(f, s, k));
    IndexOfColIsLast(f, s, PrefixCol(f, s, k));
    if Stable(f, s, k) {
      if r > k {
        var q := NextBoundary(f, s, k);
        NextBoundaryMeans(f, s, k);
        PrefixColMonotone(f, s, k, q);
        VisibleIffWide(f, s[k..q], PrefixCol(f, s, k));
        PrefixColMonotone(f, s, q, r);
      }
    }
  }

  lemma RestAtEnd(f: Font, s: seq<char>)
    ensures IndexOfCol(f, s, Width(f, s)) == |s|
  {
    assert s[..|s|] == s;
    ColumnRoundTrip(f, s, |s|);
  }

  /** The cursor rests between two pieces of text placed side by side. */
  predicate Joins(f: Font, a: seq<char>, b: seq<char>) { Stable(f, a + b, |a|) }

  lemma JoinColumn(f: Font, a: seq<char>, b: seq<char>)
    ensures IndexOfCol(f, a + b, Width(f, a)) == |a| <==> Joins(f, a, b)
  {
    assert (a + b)[..|a|] == a;
    ColumnRoundTrip(f, a + b, |a|);
  }

  lemma {:induction false} NextBoundaryShift(f: Font, a: seq<char>, b: seq<char>, i: nat)
    requires i < |b|
    ensures NextBoundary(f, a + b, |a| + i) == |a| + NextBoundary(f, b, i)
    decreases |b| - i
  {
    assert (a + b)[|a| + i] == b[i];
    if i + 1 < |b| {
      assert (a + b)[|a| + i + 1] == b[i + 1];
      if !f.Breaks(b[i], b[i + 1]) {
        NextBoundaryShift(f, a, b, i + 1);
      }
    }
  }

  /** Joins depends only on the last character before and the first grapheme after. */
  lemma JoinsMeans(f: Font, a: seq<char>, b: seq<char>)
    ensures Joins(f, a, b) <==>
      (a != [] && b != [] ==> f.Breaks(a[|a| - 1], b[0])) && Stable(f, b, 0)
  {
    if b != [] {
      NextBoundaryShift(f, a, b, 0);
      var n := NextBoundary(f, b, 0);
      assert (a + b)[|a|..|a| + n] == b[0..n];
    }
  }

  // --- Some fonts ----------------------------------------------------------------

  // An ordinary character.
  predicate Ordinary(f: Font, ch: char) { f.Class(ch) == Any && f.wcwidth(ch) == 1 && ch != '\t' }

  // A combining mark that takes no room of its own.
  predicate Combining(f: Font, ch: char) { f.Class(ch) == Extend && f.wcwidth(ch) == 0 && ch != '\t' }

  // The columns of a text, one character at a time.
  lemma ColumnAfter(f: Font, s: seq<char>, k: nat)
    requires k < |s|
    ensures PrefixCol(f, s, k + 1) == PrefixCol(f, s, k) + f.CharWidth(s[k], PrefixCol(f, s, k))
  {
    assert s[..k + 1] == s[..k] + [s[k]] && [s[k]][1..] == [];
    EndColConcat(f, s[..k], [s[k]], 0);
  }

  // A run of the same letter.
  function Letters(n: nat): (s: seq<char>)
    ensures |s| == n && forall i :: 0 <= i < n ==> s[i] == 'a'
  {
    seq(n, _ => 'a')
  }

  lemma {:induction false} LettersWidth(f: Font, n: nat, col: nat)
    requires Ordinary(f, 'a')
    ensures EndCol(f, Letters(n), col) == col + n
  {
    if n > 0 {
      assert Letters(n)[1..] == Letters(n - 1);
      LettersWidth(f, n - 1, col + 1);
    }
  }
}
