/** Small things about texts that several modules need. */
module Texts {

  datatype Option<T> = None | Some(value: T)

  // Where strings hold bytes.
  predicate Bytes(s: string) { forall i :: 0 <= i < |s| ==> (s[i] as int) < 256 }

  predicate Starts(s: string, prefix: string) { |prefix| <= |s| && s[..|prefix|] == prefix }

  lemma StartsMeans(s: string, prefix: string)
    ensures Starts(s, prefix) <==> |prefix| <= |s| && forall i :: 0 <= i < |prefix| ==> s[i] == prefix[i]
  {
    if |prefix| <= |s| && forall i :: 0 <= i < |prefix| ==> s[i] == prefix[i] {
      assert s[..|prefix|] == prefix;
    }
  }

  // Where the first line ends.
  function LineEnd(s: string): (n: nat)
    ensures n <= |s| && (n < |s| ==> s[n] == '\n')
  {
    if s == "" || s[0] == '\n' then 0 else 1 + LineEnd(s[1..])
  }

  lemma {:induction false} LineEndMeans(s: string)
    ensures '\n' !in s[..LineEnd(s)]
  {
    if s != "" && s[0] != '\n' {
      LineEndMeans(s[1..]);
      assert s[..LineEnd(s)] == [s[0]] + s[1..][..LineEnd(s[1..])];
    }
  }

  lemma {:induction false} LineEnds(w: string, rest: string)
    requires '\n' !in w
    ensures LineEnd(w + "\n" + rest) == |w| && LineEnd(w) == |w|
  {
    if w == "" {
      assert w + "\n" + rest == "\n" + rest;
    } else {
      assert (w + "\n" + rest)[1..] == w[1..] + "\n" + rest;
      LineEnds(w[1..], rest);
    }
  }
}
