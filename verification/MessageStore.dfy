/** The store behind a displayed message: its formatted lines are appended to a display
    file, with an index file of their places, and the last ones are kept in a cache. */
module LineCache {

  datatype CacheState<K(!new), V> = CacheState(hash: map<K, V>, queue: seq<K>)
  {
    // A key that is already there keeps its place in the queue; a new one pushes off the
    // oldest, if the cache is full.
    function Inserted(capacity: nat, k: K, v: V): CacheState<K, V>
      requires capacity > 0
    {
      if k in hash then this.(hash := hash[k := v])
      else if |queue| >= capacity then CacheState((hash - {queue[0]})[k := v], queue[1..] + [k])
      else CacheState(hash[k := v], queue + [k])
    }

    // The queue lists the keys, each once, and does not outgrow the cache.
    ghost predicate Valid(capacity: nat) {
      |queue| <= capacity && (forall i, j :: 0 <= i < j < |queue| ==> queue[i] != queue[j]) &&
      (forall k :: k in hash <==> k in queue)
    }
  }

  class Cache<K(==,!new), V> {
    const cacheSize: nat
    var hash: map<K, V>
    var queue: seq<K>

    ghost function State(): CacheState<K, V>
      reads this
    {
      CacheState(hash, queue)
    }

    constructor (cacheSizeArg: nat := 100)
      ensures cacheSize == cacheSizeArg && State() == CacheState(map[], [])
    {
      cacheSize, hash, queue := cacheSizeArg, map[], [];
    }

    method Clear()
      modifies this
      ensures State() == CacheState(map[], [])
    {
      hash, queue := map[], [];
    }

    method Insert(k: K, v: V)
      requires cacheSize > 0 && State().Valid(cacheSize)
      modifies this
      ensures State() == old(State()).Inserted(cacheSize, k, v)
      ensures State().Valid(cacheSize) && k in hash && hash[k] == v
    {
      ghost var s := State();
      if k !in hash {
        if |queue| >= cacheSize {
          hash := hash - {queue[0]};
          queue := queue[1..];
        }
        queue := queue + [k];
      } else {
        hash := hash - {k};
      }
      hash := hash[k := v];
      InsertedValid(s, cacheSize, k, v);
      assert hash == s.Inserted(cacheSize, k, v).hash;
    }

    method Count(k: K) returns (n: nat)
      ensures n == if k in hash then 1 else 0
    {
      n := if k in hash then 1 else 0;
    }

    method Find(k: K) returns (v: V)
      requires k in hash
      ensures v == hash[k]
    {
      v := hash[k];
    }
  }

  /** The cache never outgrows its size, and its two parts agree. */
  lemma InsertedValid<K(!new), V>(s: CacheState<K, V>, capacity: nat, k: K, v: V)
    requires capacity > 0 && s.Valid(capacity)
    ensures s.Inserted(capacity, k, v).Valid(capacity)
  {
    var t := s.Inserted(capacity, k, v);
    if k !in s.hash && |s.queue| >= capacity {
      assert s.queue == [s.queue[0]] + s.queue[1..];
      forall x ensures x in t.hash <==> x in t.queue {
        if x in s.queue[1..] {
          assert x in s.queue;
        }
      }
    }
  }
}

module MessageStore {
  import opened LineCache

  datatype Flags = NORMAL | ATTRIBUTES

  datatype Line = Line(flags: Flags, text: string)

  // What the index file says of a line.
  datatype LineIndex = LineIndex(whence: nat, nbytes: nat, flags: Flags)

  datatype Image = Nothing | Shown(line: Line)

  // --- Files -----------------------------------------------------------------------------

  // A file opened for reading and writing: both go on from one position.
  datatype FileState<T> = FileState(data: seq<T>, pos: nat)
  {
    // Writing past the end leaves a hole of `blank`.
    function Written(xs: seq<T>, blank: T): FileState<T> {
      var before := if pos <= |data| then data[..pos] else data + seq(pos - |data|, _ => blank);
      var after := if pos + |xs| <= |data| then data[pos + |xs|..] else [];
      FileState(before + xs + after, pos + |xs|)
    }

    function CanRead(n: nat): bool { pos + n <= |data| }

    function Read(n: nat): FileState<T> {
      this.(pos := if CanRead(n) then pos + n else if pos < |data| then |data| else pos)
    }
  }

  class File<T> {
    const blank: T
    var data: seq<T>
    var pos: nat

    ghost function State(): FileState<T>
      reads this
    {
      FileState(data, pos)
    }

    constructor (blank_: T)
      ensures blank == blank_ && State() == FileState([], 0)
    {
      blank, data, pos := blank_, [], 0;
    }

    method Seek(p: nat)
      modifies this
      ensures State() == old(State()).(pos := p)
    {
      pos := p;
    }

    method Write(xs: seq<T>)
      modifies this
      ensures State() == old(State()).Written(xs, blank)
    {
      var s := FileState(data, pos).Written(xs, blank);
      data, pos := s.data, s.pos;
    }

    method Read(n: nat) returns (ok: bool, xs: seq<T>)
      modifies this
      ensures State() == old(State()).Read(n) && ok == old(State()).CanRead(n)
      ensures ok ==> xs == old(data)[old(pos)..old(pos) + n]
    {
      ok := pos + n <= |data|;
      xs := if ok then data[pos..pos + n] else [];
      pos := if ok then pos + n else if pos < |data| then |data| else pos;
    }
  }

  // --- The store, as a value ---------------------------------------------------------------

  const BLANK := LineIndex(0, 0, NORMAL)

  datatype Store = Store(index: FileState<LineIndex>, display: FileState<char>, cache: CacheState<nat, Line>,
                         capacity: nat, nlines: nat, whence: nat)

  function Begun(capacity: nat): Store {
    Store(FileState([], 0), FileState([], 0), CacheState(map[], []), capacity, 0, 0)
  }

  // reformatAddLine.
  function Added(s: Store, l: Line): Store
    requires s.capacity > 0
  {
    Store(s.index.Written([LineIndex(s.whence, |l.text|, l.flags)], BLANK),
          if |l.text| > 0 then s.display.Written(l.text, ' ') else s.display,
          s.cache.Inserted(s.capacity, s.nlines, l), s.capacity, s.nlines + 1, s.whence + |l.text|)
  }

  // getLineImage: whether the line comes from the files.
  function Misses(s: Store, i: nat): bool { i < s.nlines && i !in s.cache.hash }

  function Looked(s: Store, i: nat): Store {
    if !Misses(s, i) then s
    else
      var index := s.index.(pos := i);
      if !index.CanRead(1) then s.(index := index.Read(1))
      else
        var li := index.data[i];
        var display := s.display.(pos := li.whence);
        s.(index := index.Read(1), display := if li.nbytes > 0 then display.Read(li.nbytes) else display)
  }

  // What it gives.
  function LineImage(s: Store, i: nat): Image {
    if i >= s.nlines then Nothing
    else if i in s.cache.hash then Shown(s.cache.hash[i])
    else if i >= |s.index.data| then Shown(Line(NORMAL, ""))
    else
      var li := s.index.data[i];
      if li.nbytes == 0 then Shown(Line(li.flags, ""))
      else if li.whence + li.nbytes > |s.display.data| then Shown(Line(NORMAL, ""))
      else Shown(Line(li.flags, s.display.data[li.whence..li.whence + li.nbytes]))
  }

  // --- What the files and the cache hold ---

  function Text(lines: seq<Line>): string {
    if lines == [] then "" else Text(lines[..|lines| - 1]) + lines[|lines| - 1].text
  }

  function IndexOf(lines: seq<Line>): seq<LineIndex> {
    if lines == [] then []
    else
      var n := |lines| - 1;
      IndexOf(lines[..n]) + [LineIndex(|Text(lines[..n])|, |lines[n].text|, lines[n].flags)]
  }

  // The first line in the cache.
  function FirstKept(n: nat, capacity: nat): nat { if n <= capacity then 0 else n - capacity }

  // The cache holds exactly the last lines, in the order they came.
  ghost predicate CacheHolds(s: Store, lines: seq<Line>) {
    var n, first := |lines|, FirstKept(|lines|, s.capacity);
    |s.cache.queue| == n - first && (forall j :: 0 <= j < n - first ==> s.cache.queue[j] == first + j) &&
    (forall k :: k in s.cache.hash <==> first <= k < n) &&
    (forall k :: k in s.cache.hash ==> first <= k < n && s.cache.hash[k] == lines[k])
  }

  // The store holds the lines, wherever the file positions are.
  ghost predicate Intact(s: Store, lines: seq<Line>) {
    s.capacity > 0 && s.nlines == |lines| && s.whence == |Text(lines)| &&
    s.index.data == IndexOf(lines) && s.display.data == Text(lines) && CacheHolds(s, lines)
  }

  lemma LastLine(lines: seq<Line>)
    requires lines != []
    ensures var n := |lines| - 1;
      Text(lines) == Text(lines[..n]) + lines[n].text &&
      IndexOf(lines) == IndexOf(lines[..n]) + [LineIndex(|Text(lines[..n])|, |lines[n].text|, lines[n].flags)]
  {
  }

  lemma {:induction false} IndexLength(lines: seq<Line>)
    ensures |IndexOf(lines)| == |lines|
    decreases |lines|
  {
    if lines != [] {
      IndexLength(lines[..|lines| - 1]);
    }
  }

  lemma {:induction false} IndexAt(lines: seq<Line>, i: nat)
    requires i < |lines|
    ensures |IndexOf(lines)| == |lines|
    ensures var li := IndexOf(lines)[i];
      li == LineIndex(|Text(lines[..i])|, |lines[i].text|, lines[i].flags) &&
      li.whence + li.nbytes <= |Text(lines)| && Text(lines)[li.whence..li.whence + li.nbytes] == lines[i].text
    decreases |lines|
  {
    hide Text, IndexOf;
    var n := |lines| - 1;
    LastLine(lines);
    IndexLength(lines);
    IndexLength(lines[..n]);
    if i < n {
      IndexAt(lines[..n], i);
      assert lines[..n][..i] == lines[..i];
    }
  }

  // --- Adding ---

  lemma CacheAdd(s: Store, lines: seq<Line>, l: Line)
    requires s.capacity > 0 && s.nlines == |lines| && CacheHolds(s, lines)
    ensures CacheHolds(Added(s, l), lines + [l])
  {
    var n, s' := |lines|, Added(s, l);
    var first, first' := FirstKept(n, s.capacity), FirstKept(n + 1, s.capacity);
    assert n !in s.cache.hash;
    if n >= s.capacity {
      assert s.cache.queue[0] == first && first' == first + 1;
      forall j | 0 <= j < n + 1 - first' ensures s'.cache.queue[j] == first' + j {
        assert j < n - first - 1 ==> s'.cache.queue[j] == s.cache.queue[j + 1];
      }
    }
    forall k | k in s'.cache.hash ensures s'.cache.hash[k] == (lines + [l])[k] {
    }
  }

  /** Adding a line keeps the store intact exactly when the positions of the files are at
      their ends; only an empty line does not need it of the display file. */
  lemma AddKeepsIntact(s: Store, lines: seq<Line>, l: Line)
    requires Intact(s, lines)
    ensures Intact(Added(s, l), lines + [l])
      <==> s.index.pos == |s.index.data| && (l.text == "" || s.display.pos == |s.display.data|)
  {
    hide Text, IndexOf, CacheHolds;
    var lines' := lines + [l];
    CacheAdd(s, lines, l);
    IndexLength(lines);
    IndexLength(lines');
    LastLine(lines');
    assert lines'[..|lines|] == lines;
    WrittenAtEnd(s.index, [LineIndex(s.whence, |l.text|, l.flags)], BLANK);
    WrittenAtEnd(s.display, l.text, ' ');
  }

  // The file grows by what is written just if its position is at the end.
  lemma WrittenAtEnd<T>(f: FileState<T>, xs: seq<T>, blank: T)
    ensures f.pos == |f.data| ==> f.Written(xs, blank).data == f.data + xs
    ensures f.pos != |f.data| && xs != [] ==> |f.Written(xs, blank).data| != |f.data + xs|
  {
  }

  // --- Looking ---

  /** Looking at a line of an intact store shows that line, from the cache or from the files,
      and changes nothing but the positions, and those only if the line is not in the cache. */
  lemma LookSees(s: Store, lines: seq<Line>, i: nat)
    requires Intact(s, lines)
    ensures LineImage(s, i) == if i < |lines| then Shown(lines[i]) else Nothing
    ensures Intact(Looked(s, i), lines)
    ensures Misses(s, i) <==> i < FirstKept(|lines|, s.capacity)
    ensures if Misses(s, i) then Looked(s, i).index.pos == i + 1 < s.nlines else Looked(s, i) == s
  {
    if i < |lines| {
      IndexAt(lines, i);
    }
  }

  // --- Runs ---

  datatype Op = Add(line: Line) | Look(i: nat)

  function Step(s: Store, op: Op): Store
    requires s.capacity > 0
  {
    if op.Add? then Added(s, op.line) else Looked(s, op.i)
  }

  function Run(capacity: nat, ops: seq<Op>): (s: Store)
    requires capacity > 0
    ensures s.capacity == capacity
  {
    if ops == [] then Begun(capacity) else Step(Run(capacity, ops[..|ops| - 1]), ops[|ops| - 1])
  }

  function Lines(ops: seq<Op>): seq<Line> {
    if ops == [] then []
    else
      var op := ops[|ops| - 1];
      Lines(ops[..|ops| - 1]) + if op.Add? then [op.line] else []
  }

  // Some look went for a line that was no longer in the cache.
  predicate LookedBack(ops: seq<Op>, capacity: nat) {
    ops != [] &&
    var n := |ops| - 1;
    LookedBack(ops[..n], capacity) || (ops[n].Look? && ops[n].i < FirstKept(|Lines(ops[..n])|, capacity))
  }

  // No line is added after that.
  predicate AddsFirst(ops: seq<Op>, capacity: nat) {
    ops == [] ||
    var n := |ops| - 1;
    AddsFirst(ops[..n], capacity) && (ops[n].Add? ==> !LookedBack(ops[..n], capacity))
  }

  // The index file is behind, and stays behind.
  ghost predicate Behind(s: Store) { |s.index.data| < s.nlines && s.index.pos < s.nlines }

  ghost predicate AtEnds(s: Store) { s.index.pos == |s.index.data| && s.display.pos == |s.display.data| }

  lemma StaysBehind(s: Store, lines: seq<Line>, op: Op)
    requires s.capacity > 0 && s.nlines == |lines| && CacheHolds(s, lines) && Behind(s)
    ensures Behind(Step(s, op))
    ensures var lines' := if op.Add? then lines + [op.line] else lines;
      Step(s, op).nlines == |lines'| && CacheHolds(Step(s, op), lines')
  {
    if op.Add? {
      CacheAdd(s, lines, op.line);
    }
  }

  lemma AddsAtEnds(s: Store, lines: seq<Line>, l: Line)
    requires Intact(s, lines) && AtEnds(s)
    ensures Intact(Added(s, l), lines + [l]) && AtEnds(Added(s, l))
  {
    AddKeepsIntact(s, lines, l);
  }

  lemma AddsBehind(s: Store, lines: seq<Line>, l: Line)
    requires Intact(s, lines) && s.index.pos < s.nlines
    ensures Behind(Added(s, l)) && Added(s, l).nlines == |lines + [l]| && CacheHolds(Added(s, l), lines + [l])
  {
    CacheAdd(s, lines, l);
    IndexLength(lines);
  }

  // The three states of a run.
  lemma {:induction false} RunStates(capacity: nat, ops: seq<Op>)
    requires capacity > 0
    ensures var s, lines := Run(capacity, ops), Lines(ops);
      s.nlines == |lines| && CacheHolds(s, lines) &&
      if !AddsFirst(ops, capacity) then Behind(s)
      else Intact(s, lines) && if LookedBack(ops, capacity) then s.index.pos < s.nlines else AtEnds(s)
    decreases |ops|
  {
    hide Added, Looked, CacheHolds, Text, IndexOf;
    if ops == [] {
      BegunIntact(capacity);
    } else {
      var n := |ops| - 1;
      var s, lines, op := Run(capacity, ops[..n]), Lines(ops[..n]), ops[n];
      RunStates(capacity, ops[..n]);
      assert Lines(ops) == if op.Add? then lines + [op.line] else lines;
      if !AddsFirst(ops[..n], capacity) {
        StaysBehind(s, lines, op);
      } else if op.Look? {
        LookSees(s, lines, op.i);
        LookCounts(s, op.i);
      } else if LookedBack(ops[..n], capacity) {
        AddsBehind(s, lines, op.line);
      } else {
        AddsAtEnds(s, lines, op.line);
      }
    }
  }

  lemma BegunIntact(capacity: nat)
    requires capacity > 0
    ensures Intact(Begun(capacity), []) && AtEnds(Begun(capacity))
  {
  }

  lemma LookCounts(s: Store, i: nat)
    ensures Looked(s, i).nlines == s.nlines && Looked(s, i).cache == s.cache && Looked(s, i).capacity == s.capacity
  {
  }

  /** From an empty store, after any mix of adding lines and looking at lines, the store holds
      exactly the lines added if and only if no line was added after a look that went to
      the files: reading and writing share one position, and nothing moves it back. */
  lemma RunIntact(capacity: nat, ops: seq<Op>)
    requires capacity > 0
    ensures Intact(Run(capacity, ops), Lines(ops)) <==> AddsFirst(ops, capacity)
  {
    RunStates(capacity, ops);
    IndexLength(Lines(ops));
  }

  /** And then every line can be looked at. */
  lemma RunSees(capacity: nat, ops: seq<Op>, i: nat)
    requires capacity > 0 && AddsFirst(ops, capacity)
    ensures LineImage(Run(capacity, ops), i) == if i < |Lines(ops)| then Shown(Lines(ops)[i]) else Nothing
  {
    RunIntact(capacity, ops);
    LookSees(Run(capacity, ops), Lines(ops), i);
  }

  /** A run after which a line is shown wrongly: with room for one line in the cache, the first
      of two is looked at before a third is added. */
  lemma AddAfterLookBreaks(a: Line, b: Line, c: Line)
    requires b.text != "" && c.text != ""
    ensures LineImage(Run(1, [Add(a), Add(b), Look(0), Add(c)]), 1) == Shown(Line(NORMAL, ""))
  {
    var ops := [Add(a), Add(b), Look(0), Add(c)];
    ThreeOps(a, b);
    assert ops[..3] == [Add(a), Add(b), Look(0)];
    var s := Looked(Added(Added(Begun(1), a), b), 0);
    assert s.index.pos == 1 && s.display.pos == |a.text|;
  }

  lemma ThreeOps(a: Line, b: Line)
    ensures Run(1, [Add(a), Add(b), Look(0)]) == Looked(Added(Added(Begun(1), a), b), 0)
  {
    hide Added, Looked;
    var ops := [Add(a), Add(b), Look(0)];
    assert ops[..2] == [Add(a), Add(b)] && ops[..2][..1] == [Add(a)] && [Add(a)][..0] == [];
    assert Run(1, []) == Begun(1);
    assert Run(1, [Add(a)]) == Added(Begun(1), a);
    assert Run(1, ops[..2]) == Added(Run(1, [Add(a)]), b);
  }

  // --- The store, as an object -----------------------------------------------------------

  class DisplayStore {
    const lineCache: Cache<nat, Line>
    var displayFile: File<char>
    var indexFile: File<LineIndex>
    var nlines: nat
    var reformatWhence: nat

    ghost function State(): Store
      reads this, lineCache, displayFile, indexFile
    {
      Store(indexFile.State(), displayFile.State(), lineCache.State(), lineCache.cacheSize, nlines, reformatWhence)
    }

    ghost predicate Valid()
      reads this, lineCache, displayFile, indexFile
    {
      lineCache.cacheSize > 0 && lineCache.State().Valid(lineCache.cacheSize) &&
      displayFile.blank == ' ' && indexFile.blank == BLANK &&
      ({lineCache as object} !! {displayFile as object} !! {indexFile as object})
    }

    constructor (capacity: nat := 100)
      requires capacity > 0
      ensures Valid() && State() == Begun(capacity) && fresh(lineCache) && fresh(displayFile) && fresh(indexFile)
    {
      lineCache := new Cache(capacity);
      displayFile := new File(' ');
      indexFile := new File(BLANK);
      nlines, reformatWhence := 0, 0;
    }

    /** Start over, with empty files. */
    method BeginReformat()
      requires Valid()
      modifies this, lineCache
      ensures Valid() && State() == Begun(lineCache.cacheSize) && fresh(displayFile) && fresh(indexFile)
    {
      lineCache.Clear();
      nlines := 0;
      displayFile := new File(' ');
      indexFile := new File(BLANK);
      reformatWhence := 0;
    }

    method ReformatAddLine(l: string, flags: Flags)
      requires Valid()
      modifies this, lineCache, displayFile, indexFile
      ensures Valid() && displayFile == old(displayFile) && indexFile == old(indexFile)
      ensures State() == Added(old(State()), Line(flags, l))
    {
      var li := LineIndex(reformatWhence, |l|, flags);
      reformatWhence := reformatWhence + li.nbytes;
      indexFile.Write([li]);
      if |l| > 0 {
        displayFile.Write(l);
      }
      lineCache.Insert(nlines, Line(flags, l));
      nlines := nlines + 1;
    }

    method GetLineImage(lineNum: nat) returns (line: Image)
      requires Valid()
      modifies displayFile, indexFile
      ensures Valid() && State() == Looked(old(State()), lineNum) && line == LineImage(old(State()), lineNum)
    {
      if lineNum >= nlines {
        return Nothing;
      }
      var count := lineCache.Count(lineNum);
      if count > 0 {
        var v := lineCache.Find(lineNum);
        return Shown(v);
      }
      line := Shown(Line(NORMAL, ""));
      indexFile.Seek(lineNum);
      var ok, record := indexFile.Read(1);
      if ok {
        var li := record[0];
        displayFile.Seek(li.whence);
        var s := "";
        if li.nbytes > 0 {
          ok, s := displayFile.Read(li.nbytes);
        }
        if ok {
          line := Shown(Line(li.flags, s));
        }
      }
    }
  }
}
