/** The variant built on the MapReduce-MPI library: every rank reads the whole
    edge list, map task `r` of `size` emits one slice of it as (destination,
    source) pairs, the library groups the pairs by key, and rank 0 records
    each gathered group as the incoming list of its page. Keys and values
    travel as raw bytes. */
module BaseMapReduce {
  import opened Text
  import opened Graph
  import opened Groups
  import opened EdgeList

  // ---------------------------------------------------------------------------
  // Reading the edge list
  // ---------------------------------------------------------------------------

  /** What `main` holds after its read loop. */
  datatype Loaded = Loaded(hyperlink: seq<Edge>, numOutgoing: map<nat, nat>, websize: nat)

  /** The read loop's state after the first `i` lines: all of them accepted,
      one edge each, and the counters of those edges. */
  ghost predicate ReadSoFar(lines: seq<string>, i: nat, hyperlink: seq<Edge>, top: nat, numOutgoing: map<nat, nat>)
  {
    && i <= |lines| && |hyperlink| == i
    && (forall j :: 0 <= j < i ==> LineOk(lines[j]) && hyperlink[j] == ParseLine(lines[j]))
    && Counted(hyperlink, i, top, numOutgoing)
  }

  /** One accepted line keeps `ReadSoFar`. */
  lemma ReadStep(lines: seq<string>, i: nat, hyperlink: seq<Edge>, top: nat, numOutgoing: map<nat, nat>)
    requires ReadSoFar(lines, i, hyperlink, top, numOutgoing) && i < |lines| && LineOk(lines[i])
    ensures var e := ParseLine(lines[i]);
      ReadSoFar(lines, i + 1, hyperlink + [e], Max(Max(top, e.src), e.dst),
                numOutgoing[e.src := OutDegree(numOutgoing, e.src) + 1])
  {
    var e := ParseLine(lines[i]);
    var h := hyperlink + [e];
    assert Counted(h, i + 1, Max(Max(top, e.src), e.dst), numOutgoing[e.src := OutDegree(numOutgoing, e.src) + 1]) by {
      CountAppend(hyperlink, e, top, numOutgoing);
    }
    assert forall j :: 0 <= j < i + 1 ==> LineOk(lines[j]) && h[j] == ParseLine(lines[j]) by {
      forall j | 0 <= j < i + 1
        ensures LineOk(lines[j]) && h[j] == ParseLine(lines[j])
      {
        if j < i {
          assert h[j] == hyperlink[j];
        }
      }
    }
  }

  /** `main`'s read loop. `file` is `None` when the file cannot be opened: the
      program reports it and carries on with no edges and `websize` still 0.
      Otherwise each line is checked against the grammar (the first failure
      aborts with its 1-based number), its pair is appended, the source's
      out-degree is incremented and `websize` tracks the largest id; one is
      added once the file is exhausted. */
  method ReadInput(file: Option<seq<string>>) returns (r: Parsed<Loaded>)
    ensures file.None? ==> r == Ok(Loaded([], map[], 0))
    ensures file.Some? ==> (r.Ok? <==> ParseEdges(file.value).Ok?)
    ensures file.Some? && r.Ok? ==>
      && r.value.hyperlink == ParseEdges(file.value).value
      && r.value.websize == Websize(r.value.hyperlink)
      && r.value.numOutgoing.Keys == Sources(r.value.hyperlink)
      && forall s :: OutDegree(r.value.numOutgoing, s) == Outgoing(r.value.hyperlink, s)
    ensures file.Some? && !r.Ok? ==>
      && r.lineNumber == ParseEdges(file.value).lineNumber
      && (r.Invalid? <==> ParseEdges(file.value).Invalid?)
  {
    if file.None? {
      return Ok(Loaded([], map[], 0));
    }
    var lines := file.value;
    var hyperlink: seq<Edge> := [];
    var numOutgoing: map<nat, nat> := map[];
    var top: nat := 0;
    var i := 0;
    assert hyperlink[..0] == [];
    while i < |lines|
      invariant ReadSoFar(lines, i, hyperlink, top, numOutgoing)
    {
      if !LineOk(lines[i]) {
        FirstBadLine(lines, i);
        if !IsEdgeLine(lines[i]) {
          return Invalid(i + 1);
        }
        return Overflow(i + 1);
      }
      var e := ParseLine(lines[i]);
      ReadStep(lines, i, hyperlink, top, numOutgoing);
      hyperlink := hyperlink + [e];
      numOutgoing := numOutgoing[e.src := OutDegree(numOutgoing, e.src) + 1];
      ghost var before := top;
      if top < e.src {
        top := e.src;
      }
      if top < e.dst {
        top := e.dst;
      }
      assert top == Max(Max(before, e.src), e.dst);
      i := i + 1;
    }
    ParseEdgesOk(lines);
    assert hyperlink == ParseEdges(lines).value;
    assert hyperlink[..i] == hyperlink;
    return Ok(Loaded(hyperlink, numOutgoing, top + 1));
  }

  /** An empty file still gives one page. */
  lemma EmptyFileHasOnePage()
    ensures ParseEdges([]) == Ok([]) && Websize([]) == 1
  {
  }

  // ---------------------------------------------------------------------------
  // Words as bytes
  // ---------------------------------------------------------------------------

  type Byte = b: nat | b < 256

  /** A `uint32_t` as its four bytes in memory, least significant first. */
  function EncodeWord(w: Word): (bytes: seq<Byte>)
    ensures |bytes| == 4
  {
    [w % 256, w / 256 % 256, w / 65536 % 256, w / 16777216]
  }

  /** Reading a `uint32_t` through a pointer to its first byte. */
  function DecodeWord(bytes: seq<Byte>): Word
    requires |bytes| >= 4
  {
    var b0, b1, b2, b3: int := bytes[0], bytes[1], bytes[2], bytes[3];
    b0 + 256 * b1 + 65536 * b2 + 16777216 * b3
  }

  lemma DecodeEncodeWord(w: Word)
    ensures DecodeWord(EncodeWord(w)) == w
  {
    var a, b, c := w / 256, w / 65536, w / 16777216;
    assert w == 256 * a + w % 256;
    assert a == 256 * (a / 256) + a % 256;
    assert a / 256 == b;
    assert b == 256 * (b / 256) + b % 256;
    assert b / 256 == c;
  }

  lemma EncodeDecodeWord(bytes: seq<Byte>)
    requires |bytes| == 4
    ensures EncodeWord(DecodeWord(bytes)) == bytes
  {
    var w := DecodeWord(bytes);
    var b0, b1, b2, b3: int := bytes[0], bytes[1], bytes[2], bytes[3];
    assert w == b0 + 256 * (b1 + 256 * (b2 + 256 * b3));
    assert w % 256 == b0 && w / 256 == b1 + 256 * (b2 + 256 * b3);
    assert w / 65536 == (w / 256) / 256;
    assert w / 65536 == b2 + 256 * b3;
    assert w / 16777216 == (w / 65536) / 256;
  }

  /** A buffer of words, as the library stores a multivalue. */
  function EncodeWords(ws: seq<Word>): (bytes: seq<Byte>)
    ensures |bytes| == 4 * |ws|
  {
    if |ws| == 0 then [] else EncodeWord(ws[0]) + EncodeWords(ws[1..])
  }

  /** The whole words of a byte buffer, `valuebytes / sizeof(uint32_t)` of them. */
  function DecodeWords(bytes: seq<Byte>): (ws: seq<Word>)
    ensures |ws| == |bytes| / 4
  {
    if |bytes| < 4 then [] else [DecodeWord(bytes)] + DecodeWords(bytes[4..])
  }

  /** Words stored in a buffer read back unchanged. */
  lemma {:induction false} DecodeEncodeWords(ws: seq<Word>)
    ensures DecodeWords(EncodeWords(ws)) == ws
  {
    if |ws| > 0 {
      var bytes := EncodeWords(ws);
      assert bytes[..4] == EncodeWord(ws[0]);
      assert bytes[4..] == EncodeWords(ws[1..]);
      DecodeEncodeWord(ws[0]);
      DecodeEncodeWords(ws[1..]);
    }
  }

  /** Conversely, a buffer of whole words is the encoding of what it holds. */
  lemma {:induction false} EncodeDecodeWords(bytes: seq<Byte>)
    requires |bytes| % 4 == 0
    ensures EncodeWords(DecodeWords(bytes)) == bytes
  {
    if |bytes| >= 4 {
      var ws := DecodeWords(bytes);
      assert ws[1..] == DecodeWords(bytes[4..]);
      EncodeDecodeWord(bytes[..4]);
      EncodeDecodeWords(bytes[4..]);
      assert bytes == bytes[..4] + bytes[4..];
    }
  }

  // ---------------------------------------------------------------------------
  // The map phase: `fileread`
  // ---------------------------------------------------------------------------

  lemma MulMono(a: nat, b: nat, c: nat)
    requires a <= b
    ensures a * c <= b * c
  {
  }

  /** The end of task `rank`'s slice, `(rank+1)*(h/size)`, stays inside the list. */
  lemma SliceEndFits(h: nat, size: nat, rank: nat)
    requires size >= 1 && rank < size
    ensures rank * (h / size) <= (rank + 1) * (h / size) <= size * (h / size) <= h
  {
    MulMono(rank + 1, size, h / size);
  }

  /** `fileread` for map task `rank`: the pairs of the indices
      `[rank*(h/size), (rank+1)*(h/size))`, each with the destination as key
      and the source as value. */
  function FileRead(hyperlink: seq<Edge>, size: nat, rank: nat): (kv: seq<(nat, nat)>)
    requires size >= 1 && rank < size
    ensures |kv| == |hyperlink| / size
  {
    var q := |hyperlink| / size;
    SliceEndFits(|hyperlink|, size, rank);
    ReverseLinks(hyperlink[rank * q..(rank + 1) * q])
  }

  /** Index `i` lies in the slice of task `rank`. */
  predicate InSlice(h: nat, size: nat, rank: nat, i: nat)
    requires size >= 1
  {
    rank * (h / size) <= i < (rank + 1) * (h / size)
  }

  /** Task `rank` emits, in order, the reversed pair of each index of its slice. */
  lemma FileReadContents(hyperlink: seq<Edge>, size: nat, rank: nat, i: nat)
    requires size >= 1 && rank < size && InSlice(|hyperlink|, size, rank, i)
    ensures i < |hyperlink|
    ensures FileRead(hyperlink, size, rank)[i - rank * (|hyperlink| / size)] == (hyperlink[i].dst, hyperlink[i].src)
  {
    SliceEndFits(|hyperlink|, size, rank);
  }

  /** Different tasks read different indices. */
  lemma SlicesDisjoint(h: nat, size: nat, r1: nat, r2: nat, i: nat)
    requires size >= 1 && r1 != r2 && InSlice(h, size, r1, i)
    ensures !InSlice(h, size, r2, i)
  {
    var q := h / size;
    if r1 < r2 {
      MulMono(r1 + 1, r2, q);
    } else {
      MulMono(r2 + 1, r1, q);
    }
  }

  lemma DivBounds(i: nat, q: nat)
    requires q >= 1
    ensures (i / q) * q <= i < (i / q + 1) * q
  {
    assert i == q * (i / q) + i % q;
  }

  /** An index below `size*(h/size)` lies in the slice of task `i/(h/size)`. */
  lemma SliceOf(h: nat, size: nat, i: nat) returns (r: nat)
    requires size >= 1 && i < size * (h / size)
    ensures r < size && InSlice(h, size, r, i)
  {
    var q := h / size;
    assert q >= 1;
    r := i / q;
    DivBounds(i, q);
    assert r < size by {
      if r >= size {
        MulMono(size, r, q);
      }
    }
  }

  /** Every slice ends by `size*(h/size)`. */
  lemma InSliceBelow(h: nat, size: nat, r: nat, i: nat)
    requires size >= 1 && r < size && InSlice(h, size, r, i)
    ensures i < size * (h / size)
  {
    MulMono(r + 1, size, h / size);
  }

  /** The tasks together read exactly the indices below `size*(h/size)`. */
  lemma SlicesCover(h: nat, size: nat, i: nat)
    requires size >= 1
    ensures (exists r :: 0 <= r < size && InSlice(h, size, r, i)) <==> i < size * (h / size)
  {
    if i < size * (h / size) {
      var r := SliceOf(h, size, i);
    }
    if exists r :: 0 <= r < size && InSlice(h, size, r, i) {
      var r :| 0 <= r < size && InSlice(h, size, r, i);
      InSliceBelow(h, size, r, i);
    }
  }

  /** The pairs of map tasks `0..n-1`, in task order. */
  function MapTasks(hyperlink: seq<Edge>, size: nat, n: nat): seq<(nat, nat)>
    requires size >= 1 && n <= size
  {
    if n == 0 then [] else MapTasks(hyperlink, size, n - 1) + FileRead(hyperlink, size, n - 1)
  }

  /** `mr->map(size, fileread)`: every rank's tasks together, as emitted. */
  function MapPhase(hyperlink: seq<Edge>, size: nat): seq<(nat, nat)>
    requires size >= 1
  {
    MapTasks(hyperlink, size, size)
  }

  lemma {:induction false} MapTasksPrefix(hyperlink: seq<Edge>, size: nat, n: nat)
    requires size >= 1 && n <= size
    ensures n * (|hyperlink| / size) <= |hyperlink|
    ensures MapTasks(hyperlink, size, n) == ReverseLinks(hyperlink[..n * (|hyperlink| / size)])
  {
    var q := |hyperlink| / size;
    MulMono(n, size, q);
    if n > 0 {
      MapTasksPrefix(hyperlink, size, n - 1);
      SliceEndFits(|hyperlink|, size, n - 1);
      var a, b := (n - 1) * q, n * q;
      NextSlice(n, q);
      assert FileRead(hyperlink, size, n - 1) == ReverseLinks(hyperlink[a..b]);
      PrefixThenSlice(hyperlink, a, b);
    }
  }

  lemma NextSlice(n: nat, q: nat)
    requires n >= 1
    ensures (n - 1 + 1) * q == n * q == (n - 1) * q + q
  {
  }

  /** Reversing a prefix and then the next slice reverses the longer prefix. */
  lemma PrefixThenSlice(hyperlink: seq<Edge>, a: nat, b: nat)
    requires a <= b <= |hyperlink|
    ensures ReverseLinks(hyperlink[..b]) == ReverseLinks(hyperlink[..a]) + ReverseLinks(hyperlink[a..b])
  {
    assert hyperlink[..b] == hyperlink[..a] + hyperlink[a..b];
    ReverseLinksAppend(hyperlink[..a], hyperlink[a..b]);
  }

  /** The map phase emits the reversed pairs of the first `size*(h/size)`
      edges only: the last `h mod size` edges are never emitted. */
  lemma MapPhaseEmits(hyperlink: seq<Edge>, size: nat)
    requires size >= 1
    ensures |hyperlink| - |hyperlink| % size <= |hyperlink|
    ensures MapPhase(hyperlink, size) == ReverseLinks(hyperlink[..|hyperlink| - |hyperlink| % size])
  {
    var h := |hyperlink|;
    assert h == size * (h / size) + h % size;
    MapTasksPrefix(hyperlink, size, size);
  }

  /** Two ranks and one edge: the only task slices are empty, and the edge
      is lost. */
  lemma MapPhaseDropsTail()
    ensures MapPhase([Edge(0, 1)], 2) == []
    ensures ReverseLinks([Edge(0, 1)]) == [(1, 0)]
  {
    MapPhaseEmits([Edge(0, 1)], 2);
  }

  /** The evidently intended split: the last task also takes the remainder. */
  function SliceEndBalanced(h: nat, size: nat, rank: nat): nat
    requires size >= 1 && rank < size
  {
    if rank == size - 1 then h else (rank + 1) * (h / size)
  }

  function FileReadBalanced(hyperlink: seq<Edge>, size: nat, rank: nat): (kv: seq<(nat, nat)>)
    requires size >= 1 && rank < size
    ensures |kv| == SliceEndBalanced(|hyperlink|, size, rank) - rank * (|hyperlink| / size)
  {
    var q := |hyperlink| / size;
    SliceEndFits(|hyperlink|, size, rank);
    ReverseLinks(hyperlink[rank * q..SliceEndBalanced(|hyperlink|, size, rank)])
  }

  function MapTasksBalanced(hyperlink: seq<Edge>, size: nat, n: nat): seq<(nat, nat)>
    requires size >= 1 && n <= size
  {
    if n == 0 then [] else MapTasksBalanced(hyperlink, size, n - 1) + FileReadBalanced(hyperlink, size, n - 1)
  }

  function MapPhaseBalanced(hyperlink: seq<Edge>, size: nat): seq<(nat, nat)>
    requires size >= 1
  {
    MapTasksBalanced(hyperlink, size, size)
  }

  lemma {:induction false} MapTasksBalancedPrefix(hyperlink: seq<Edge>, size: nat, n: nat)
    requires size >= 1 && n < size
    ensures MapTasksBalanced(hyperlink, size, n) == MapTasks(hyperlink, size, n)
  {
    if n > 0 {
      MapTasksBalancedPrefix(hyperlink, size, n - 1);
    }
  }

  /** With the remainder given to the last task, the map phase emits every
      edge exactly once, in order. */
  lemma MapPhaseBalancedEmitsAll(hyperlink: seq<Edge>, size: nat)
    requires size >= 1
    ensures MapPhaseBalanced(hyperlink, size) == ReverseLinks(hyperlink)
  {
    var h, q := |hyperlink|, |hyperlink| / size;
    MapTasksBalancedPrefix(hyperlink, size, size - 1);
    MapTasksPrefix(hyperlink, size, size - 1);
    SliceEndFits(h, size, size - 1);
    assert hyperlink == hyperlink[..(size - 1) * q] + hyperlink[(size - 1) * q..h];
    ReverseLinksAppend(hyperlink[..(size - 1) * q], hyperlink[(size - 1) * q..h]);
  }

  // ---------------------------------------------------------------------------
  // `collect` and `collect_incoming`
  // ---------------------------------------------------------------------------

  /** `collect`: re-emit a key with its multivalue, `nvalues` words long. */
  function Collect(key: seq<Byte>, multivalue: seq<Byte>, nvalues: nat): (seq<Byte>, seq<Byte>)
    requires 4 * nvalues <= |multivalue|
  {
    (key, multivalue[..4 * nvalues])
  }

  /** A multivalue holding `nvalues` words is passed on whole. */
  lemma CollectKeepsGroup(key: seq<Byte>, ws: seq<Word>)
    ensures Collect(key, EncodeWords(ws), |ws|) == (key, EncodeWords(ws))
  {
    assert EncodeWords(ws)[..4 * |ws|] == EncodeWords(ws);
  }

  /** Rank 0's `incoming` and `incoming_nval` arrays: for each page, the value
      buffer its pointer refers to (empty where no buffer has been stored) and
      its count. */
  datatype RootIndex = RootIndex(incoming: seq<seq<Byte>>, nval: seq<nat>)

  /** Both arrays have `websize` slots, and each count is the number of whole
      words in its buffer. */
  predicate Consistent(index: RootIndex, websize: nat)
  {
    && |index.incoming| == websize && |index.nval| == websize
    && forall d :: 0 <= d < websize ==> index.nval[d] == |index.incoming[d]| / 4
  }

  /** After `new[]` and `memset`: zero counts. The `memset` of the pointer
      array clears only `4 * websize` bytes of it, but a pointer is read only
      where its count is non-zero, so every page reads as holding no words. */
  function EmptyIndex(websize: nat): (index: RootIndex)
    ensures Consistent(index, websize)
    ensures forall d :: 0 <= d < websize ==> index.nval[d] == 0
  {
    RootIndex(seq(websize, _ => []), seq(websize, _ => 0))
  }

  /** The words the solver reads for page `d`: `incoming_nval[d]` of them. */
  function Words(index: RootIndex, d: nat): (ws: seq<Word>)
    requires d < |index.incoming| && d < |index.nval| && index.nval[d] == |index.incoming[d]| / 4
    ensures |ws| == index.nval[d]
  {
    DecodeWords(index.incoming[d])
  }

  /** `collect_incoming`: a no-op on every rank but 0. On rank 0 the page
      named by the key's first four bytes gets the value buffer, its count
      becomes `valuebytes / 4`, and the pair is emitted again. */
  function CollectIncoming(rank: int, index: RootIndex, websize: nat, key: seq<Byte>, value: seq<Byte>)
    : (r: (RootIndex, seq<(seq<Byte>, seq<Byte>)>))
    requires |key| >= 4 && Consistent(index, websize)
    requires rank == 0 ==> DecodeWord(key) < websize
    ensures rank != 0 ==> r.0 == index && r.1 == []
    ensures rank == 0 ==> Consistent(r.0, websize) && r.1 == [(key, value)]
    ensures rank == 0 ==> Words(r.0, DecodeWord(key)) == DecodeWords(value)
    ensures rank == 0 ==> forall d :: 0 <= d < websize && d != DecodeWord(key) ==>
              r.0.incoming[d] == index.incoming[d] && r.0.nval[d] == index.nval[d]
  {
    if rank != 0 then (index, [])
    else
      var k := DecodeWord(key);
      (RootIndex(index.incoming[k := value], index.nval[k := |value| / 4]), [(key, value)])
  }

  /** Keys and values of the groups fit in 32 bits. */
  predicate WordEntries(entries: seq<Entry>)
  {
    && (forall i :: 0 <= i < |entries| ==> entries[i].0 < 0x1_0000_0000)
    && (forall i, j :: 0 <= i < |entries| && 0 <= j < |entries[i].1| ==> entries[i].1[j] < 0x1_0000_0000)
  }

  /** The groups as `collect` emits them and `mr->gather(1)` brings them to
      rank 0: the key's bytes and the multivalue's bytes. */
  function Gathered(entries: seq<Entry>): (pairs: seq<(seq<Byte>, seq<Byte>)>)
    requires WordEntries(entries)
    ensures |pairs| == |entries|
  {
    seq(|entries|, i requires 0 <= i < |entries| => (EncodeWord(entries[i].0), EncodeWords(entries[i].1)))
  }

  /** Every key of `pairs` is four bytes naming a page below `websize`. */
  predicate KeysBelow(pairs: seq<(seq<Byte>, seq<Byte>)>, websize: nat)
  {
    forall i :: 0 <= i < |pairs| ==> |pairs[i].0| >= 4 && DecodeWord(pairs[i].0) < websize
  }

  /** `mr->map(mr, collect_incoming, &rank)` over the pairs a rank holds, in order. */
  function CollectAll(rank: int, index: RootIndex, websize: nat, pairs: seq<(seq<Byte>, seq<Byte>)>): (r: RootIndex)
    requires Consistent(index, websize) && KeysBelow(pairs, websize)
    ensures Consistent(r, websize)
  {
    if |pairs| == 0 then index
    else
      var p := pairs[..|pairs| - 1];
      var last := pairs[|pairs| - 1];
      assert KeysBelow(p, websize) by {
        assert forall i :: 0 <= i < |p| ==> p[i] == pairs[i];
      }
      CollectIncoming(rank, CollectAll(rank, index, websize, p), websize, last.0, last.1).0
  }

  lemma KeysBelowPrefix(pairs: seq<(seq<Byte>, seq<Byte>)>, websize: nat)
    requires |pairs| > 0 && KeysBelow(pairs, websize)
    ensures KeysBelow(pairs[..|pairs| - 1], websize)
  {
    var p := pairs[..|pairs| - 1];
    assert forall i :: 0 <= i < |p| ==> p[i] == pairs[i];
  }

  /** Off rank 0 the whole pass changes nothing. */
  lemma {:induction false} CollectAllOffRoot(rank: int, index: RootIndex, websize: nat, pairs: seq<(seq<Byte>, seq<Byte>)>)
    requires rank != 0 && Consistent(index, websize) && KeysBelow(pairs, websize)
    ensures CollectAll(rank, index, websize, pairs) == index
  {
    if |pairs| > 0 {
      KeysBelowPrefix(pairs, websize);
      CollectAllOffRoot(rank, index, websize, pairs[..|pairs| - 1]);
    }
  }

  lemma GatheredKeys(entries: seq<Entry>, websize: nat)
    requires WordEntries(entries)
    requires forall i :: 0 <= i < |entries| ==> entries[i].0 < websize
    ensures KeysBelow(Gathered(entries), websize)
  {
    forall i | 0 <= i < |entries|
      ensures DecodeWord(Gathered(entries)[i].0) < websize
    {
      DecodeEncodeWord(entries[i].0);
    }
  }

  lemma GatheredPrefix(entries: seq<Entry>)
    requires |entries| > 0 && WordEntries(entries)
    ensures WordEntries(entries[..|entries| - 1])
    ensures Gathered(entries)[..|entries| - 1] == Gathered(entries[..|entries| - 1])
  {
    var p := entries[..|entries| - 1];
    assert forall i :: 0 <= i < |p| ==> p[i] == entries[i];
  }

  /** On rank 0, collecting groups with distinct keys into the cleared arrays
      leaves each page with the words of its group, or none. */
  lemma {:induction false} CollectAllGroups(entries: seq<Entry>, websize: nat, d: nat)
    requires WordEntries(entries) && DistinctKeys(entries) && d < websize
    requires forall i :: 0 <= i < |entries| ==> entries[i].0 < websize
    ensures KeysBelow(Gathered(entries), websize)
    ensures Words(CollectAll(0, EmptyIndex(websize), websize, Gathered(entries)), d) == GroupsFor(entries, d)
  {
    GatheredKeys(entries, websize);
    if |entries| > 0 {
      var n := |entries| - 1;
      var p, last := entries[..n], entries[n];
      var empty := EmptyIndex(websize);
      GatheredPrefix(entries);
      LastKeyIsNew(entries);
      assert forall i :: 0 <= i < |p| ==> p[i].0 < websize by {
        assert forall i :: 0 <= i < |p| ==> p[i] == entries[i];
      }
      var prev := CollectAll(0, empty, websize, Gathered(p));
      assert Words(prev, d) == GroupsFor(p, d) by {
        CollectAllGroups(p, websize, d);
      }
      DecodeEncodeWord(last.0);
      var cur := CollectIncoming(0, prev, websize, EncodeWord(last.0), EncodeWords(last.1)).0;
      assert CollectAll(0, empty, websize, Gathered(entries)) == cur by {
        CollectAllLast(0, empty, websize, Gathered(entries));
      }
      assert GroupsFor(entries, d) == GroupsFor(p, d) + (if last.0 == d then last.1 else []);
      if last.0 == d {
        DecodeEncodeWords(last.1);
        KeySetMembers(p, d);
        GroupsForAbsent(p, d);
        assert Words(cur, d) == last.1;
      } else {
        assert Words(cur, d) == Words(prev, d);
      }
    }
  }

  /** `CollectAll` ends with the last pair. */
  lemma CollectAllLast(rank: int, index: RootIndex, websize: nat, pairs: seq<(seq<Byte>, seq<Byte>)>)
    requires Consistent(index, websize) && KeysBelow(pairs, websize) && |pairs| > 0
    ensures KeysBelow(pairs[..|pairs| - 1], websize)
    ensures CollectAll(rank, index, websize, pairs)
         == CollectIncoming(rank, CollectAll(rank, index, websize, pairs[..|pairs| - 1]), websize,
                            pairs[|pairs| - 1].0, pairs[|pairs| - 1].1).0
  {
    KeysBelowPrefix(pairs, websize);
  }

  // ---------------------------------------------------------------------------
  // The whole job
  // ---------------------------------------------------------------------------

  /** Groups of the reversed links of in-range edges carry 32-bit words and
      name pages below `websize`. */
  lemma EntriesOfEdges(edges: seq<Edge>, t: Table, entries: seq<Entry>)
    requires EdgesInRange(edges)
    requires Collates(ReverseLinks(edges), t) && Enumerates(entries, t)
    ensures WordEntries(entries)
    ensures forall i :: 0 <= i < |entries| ==> entries[i].0 < Websize(edges)
  {
    ReverseLinkKeys(edges);
    WebsizeIsMaxPlusOne(edges);
    forall i | 0 <= i < |entries|
      ensures entries[i].0 < Websize(edges) && entries[i].0 < 0x1_0000_0000
    {
      var k := entries[i].0;
      var j := DestinationIndex(edges, k);
      assert InRange(edges[j]) && edges[j] in edges;
    }
    forall i, j | 0 <= i < |entries| && 0 <= j < |entries[i].1|
      ensures entries[i].1[j] < 0x1_0000_0000
    {
      var k, v := entries[i].0, entries[i].1[j];
      assert v in multiset(t[k]);
      ValuesOfReverseLinks(edges, k);
      IncomingMembers(edges, k, v);
      var m :| 0 <= m < |edges| && edges[m] == Edge(v, k);
      assert InRange(edges[m]);
    }
  }

  /** Whatever grouping the library produces for the reversed links of
      `edges`, and in whatever order the groups reach rank 0, page `d` ends up
      with the sources of the edges into it, up to order. */
  lemma GatherBuildsIncoming(edges: seq<Edge>, t: Table, entries: seq<Entry>, websize: nat, d: nat)
    requires EdgesInRange(edges) && Websize(edges) <= websize && d < websize
    requires Collates(ReverseLinks(edges), t) && Enumerates(entries, t)
    ensures WordEntries(entries) && KeysBelow(Gathered(entries), websize)
    ensures multiset(Words(CollectAll(0, EmptyIndex(websize), websize, Gathered(entries)), d))
         == multiset(Incoming(edges, d))
  {
    EntriesOfEdges(edges, t, entries);
    CollectAllGroups(entries, websize, d);
    CollatedGroups(ReverseLinks(edges), t, entries, d);
    ValuesOfReverseLinks(edges, d);
  }

  /** The job as written: only the first `h - h mod size` edges reach the
      index. */
  lemma JobBuildsPrefixIndex(edges: seq<Edge>, size: nat, t: Table, entries: seq<Entry>, d: nat)
    requires EdgesInRange(edges) && size >= 1 && d < Websize(edges)
    requires Collates(MapPhase(edges, size), t) && Enumerates(entries, t)
    ensures |edges| - |edges| % size <= |edges|
    ensures WordEntries(entries) && KeysBelow(Gathered(entries), Websize(edges))
    ensures multiset(Words(CollectAll(0, EmptyIndex(Websize(edges)), Websize(edges), Gathered(entries)), d))
         == multiset(Incoming(edges[..|edges| - |edges| % size], d))
  {
    MapPhaseEmits(edges, size);
    var n := |edges| - |edges| % size;
    WebsizePrefix(edges, n);
    assert EdgesInRange(edges[..n]) by {
      assert forall i :: 0 <= i < n ==> edges[..n][i] == edges[i];
    }
    GatherBuildsIncoming(edges[..n], t, entries, Websize(edges), d);
  }

  /** With the remainder given to the last map task the index is complete. */
  lemma BalancedJobBuildsIndex(edges: seq<Edge>, size: nat, t: Table, entries: seq<Entry>, d: nat)
    requires EdgesInRange(edges) && size >= 1 && d < Websize(edges)
    requires Collates(MapPhaseBalanced(edges, size), t) && Enumerates(entries, t)
    ensures WordEntries(entries) && KeysBelow(Gathered(entries), Websize(edges))
    ensures multiset(Words(CollectAll(0, EmptyIndex(Websize(edges)), Websize(edges), Gathered(entries)), d))
         == multiset(Incoming(edges, d))
  {
    MapPhaseBalancedEmitsAll(edges, size);
    GatherBuildsIncoming(edges, t, entries, Websize(edges), d);
  }
}
