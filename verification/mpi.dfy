/** The hand-rolled map-reduce of the MPI program that builds the reverse-link
    index. Rank 0 is the coordinator, rank 1 the single mapper, ranks
    `2..size-1` the reducers. MPI point-to-point traffic is modelled as the
    sequence of sends a rank performs; the messages one receiver gets from
    one sender are the sends addressed to it, in send order. */
module MpiMapReduce {
  import opened Text
  import opened Graph
  import opened Groups
  import opened EdgeList

  // ---------------------------------------------------------------------------
  // Input and the coordinator's tables
  // ---------------------------------------------------------------------------

  /** `parse_hlfile`: the hyperlink vector holds, line by line, the source id
      followed by the destination id. */
  function ParseHlfile(lines: seq<string>): (r: Parsed<seq<nat>>)
    ensures r.Ok? <==> forall i :: 0 <= i < |lines| ==> LineOk(lines[i])
    ensures r.Ok? ==> |r.value| == 2 * |lines| && AllIds(r.value)
    ensures r.Ok? ==> forall i :: 0 <= i < |lines| ==>
              r.value[2 * i] == ParseLine(lines[i]).src && r.value[2 * i + 1] == ParseLine(lines[i]).dst
    ensures !r.Ok? ==> 1 <= r.lineNumber <= |lines| && !LineOk(lines[r.lineNumber - 1])
    ensures !r.Ok? ==> forall i :: 0 <= i < r.lineNumber - 1 ==> LineOk(lines[i])
    ensures r.Invalid? <==> (!r.Ok? && !IsEdgeLine(lines[r.lineNumber - 1]))
  {
    ParseEdgesOk(lines);
    match ParseEdges(lines)
    case Ok(edges) =>
      FlattenLines(lines);
      Ok(Flatten(edges))
    case Invalid(n) =>
      ParseEdgesError(lines);
      Invalid(n)
    case Overflow(n) =>
      ParseEdgesError(lines);
      Overflow(n)
  }

  /** The hyperlink vector of a file the read loop accepts. */
  lemma FlattenLines(lines: seq<string>)
    requires forall i :: 0 <= i < |lines| ==> LineOk(lines[i])
    ensures ParseEdges(lines).Ok?
    ensures var h := Flatten(ParseEdges(lines).value);
      && |h| == 2 * |lines| && AllIds(h)
      && forall i :: 0 <= i < |lines| ==>
           LineOk(lines[i]) && h[2 * i] == ParseLine(lines[i]).src && h[2 * i + 1] == ParseLine(lines[i]).dst
  {
    ParseEdgesOk(lines);
    var edges := ParseEdges(lines).value;
    assert EdgesInRange(edges);
    FlattenIds(edges);
  }

  lemma PairAt(hyperlink: seq<nat>, k: nat)
    requires |hyperlink| % 2 == 0 && 2 * k + 1 < |hyperlink|
    ensures Pairs(hyperlink)[k] == Edge(hyperlink[2 * k], hyperlink[2 * k + 1])
  {
  }

  /** Rank 0's pass over the hyperlink vector: count each source's outgoing
      links and track the largest id, then add one to obtain `websize`. */
  method CountLinks(hyperlink: seq<nat>) returns (websize: nat, numOutgoing: map<nat, nat>)
    requires |hyperlink| % 2 == 0
    ensures websize == Websize(Pairs(hyperlink))
    ensures numOutgoing.Keys == Sources(Pairs(hyperlink))
    ensures forall s :: OutDegree(numOutgoing, s) == Outgoing(Pairs(hyperlink), s)
  {
    ghost var edges := Pairs(hyperlink);
    var top: nat := 0;
    numOutgoing := map[];
    var i := 0;
    ghost var k := 0;
    assert edges[..0] == [];
    while i < |hyperlink|
      invariant i == 2 * k && k <= |edges|
      invariant Counted(edges, k, top, numOutgoing)
    {
      PairAt(hyperlink, k);
      CountStep(edges, k, top, numOutgoing);
      numOutgoing := numOutgoing[hyperlink[i] := OutDegree(numOutgoing, hyperlink[i]) + 1];
      if top < hyperlink[i] {
        top := hyperlink[i];
      }
      if top < hyperlink[i + 1] {
        top := hyperlink[i + 1];
      }
      i := i + 2;
      k := k + 1;
    }
    assert edges[..k] == edges;
    websize := top + 1;
  }

  // ---------------------------------------------------------------------------
  // Partitioning
  // ---------------------------------------------------------------------------

  /** `mapreduce::hash`: 32-bit multiply-xor-shift mixing, wrapping on overflow. */
  function Hash(x: bv32): bv32
  {
    var a := ((x >> 16) ^ x) * 0x45d9f3b;
    var b := ((a >> 16) ^ a) * 0x45d9f3b;
    (b >> 16) ^ b
  }

  /** The mixing is not the identity and sends 0 to 0. */
  lemma HashValues()
    ensures Hash(0) == 0
    ensures Hash(1) == 0x31251ba7
    ensures Hash(2) == 0x66a79298
    ensures Hash(5) == 0x23531b52
  {
  }

  function HashWord(w: Word): nat
  {
    Hash(w as bv32) as nat
  }

  /** Ranks beyond coordinator and mapper become reducers; fewer than three
      processes abort before any message is sent. */
  function ReducerCount(size: int): (r: Option<nat>)
    ensures r.Some? <==> size >= 3
    ensures r.Some? ==> r.value >= 1 && r.value + 2 == size
  {
    if size - 2 <= 0 then None else Some(size - 2)
  }

  /** The reducer rank that owns destination `d`: `hash(d) % num_reduce + 2`. */
  function Route(d: Word, numReduce: nat): (rank: nat)
    requires numReduce >= 1
    ensures 2 <= rank <= numReduce + 1
  {
    HashWord(d) % numReduce + 2
  }

  /** With three reducers, pages 0, 1 and 5 go to three different ranks. */
  lemma RouteExamples()
    ensures Route(0, 3) == 2 && Route(1, 3) == 3 && Route(5, 3) == 4
  {
    HashValues();
    assert HashWord(0) == 0;
    assert HashWord(1) == 0x31251ba7;
    assert HashWord(5) == 0x23531b52;
  }

  // ---------------------------------------------------------------------------
  // Messages and channels
  // ---------------------------------------------------------------------------

  /** A data message carries `(destination, source)` as two unsigned words;
      the end-of-stream message is the single `int` -1. */
  datatype Message = Pair(key: Word, value: Word) | Stop

  /** One `MPI_Send` performed by a rank: the destination rank and the message. */
  datatype Send = Send(to: nat, msg: Message)

  /** The messages rank `rank` receives from the sender of `sends`, in send order. */
  function Channel(sends: seq<Send>, rank: nat): seq<Message>
  {
    if |sends| == 0 then []
    else
      var last := sends[|sends| - 1];
      Channel(sends[..|sends| - 1], rank) + (if last.to == rank then [last.msg] else [])
  }

  /** Point-to-point order: the channel of two send phases is the first
      phase's channel followed by the second's. */
  lemma {:induction false} ChannelAppend(a: seq<Send>, b: seq<Send>, rank: nat)
    ensures Channel(a + b, rank) == Channel(a, rank) + Channel(b, rank)
    decreases |b|
  {
    if |b| == 0 {
      assert a + b == a;
    } else {
      var n := |b| - 1;
      assert (a + b)[..|a + b| - 1] == a + b[..n];
      ChannelAppend(a, b[..n], rank);
    }
  }

  /** Every entry of the hyperlink vector is an id `stoi` produced. */
  predicate AllIds(hyperlink: seq<nat>)
  {
    forall i :: 0 <= i < |hyperlink| ==> hyperlink[i] <= IdMax
  }

  /** What the mapper sends: one `(destination, source)` message per edge, in
      edge order, to the reducer owning the destination; then one end-of-stream
      message to each reducer rank `2..numReduce+1`, in rank order. */
  predicate IsMapperOutput(hyperlink: seq<nat>, numReduce: nat, sends: seq<Send>)
    requires |hyperlink| % 2 == 0 && AllIds(hyperlink) && numReduce >= 1
  {
    var n := |hyperlink| / 2;
    && |sends| == n + numReduce
    && (forall i :: 0 <= i < n ==>
          sends[i] == Send(Route(hyperlink[2 * i + 1], numReduce), Pair(hyperlink[2 * i + 1], hyperlink[2 * i])))
    && (forall j :: n <= j < |sends| ==> sends[j] == Send(j - n + 2, Stop))
  }

  /** `map_task::run_task`: the send loop over the hyperlink vector, then the
      loop that sends -1 to every reducer. */
  method RunMapTask(hyperlink: seq<nat>, numReduce: nat) returns (sends: seq<Send>)
    requires |hyperlink| % 2 == 0 && AllIds(hyperlink) && numReduce >= 1
    ensures IsMapperOutput(hyperlink, numReduce, sends)
  {
    sends := [];
    var i := 0;
    while i < |hyperlink|
      invariant i % 2 == 0 && i <= |hyperlink|
      invariant |sends| == i / 2
      invariant forall k :: 0 <= k < i / 2 ==>
                  sends[k] == Send(Route(hyperlink[2 * k + 1], numReduce), Pair(hyperlink[2 * k + 1], hyperlink[2 * k]))
    {
      var key: Word := hyperlink[i + 1];
      var value: Word := hyperlink[i];
      sends := sends + [Send(Route(key, numReduce), Pair(key, value))];
      i := i + 2;
    }
    var n := |hyperlink| / 2;
    var j := 0;
    while j < numReduce
      invariant j <= numReduce
      invariant |sends| == n + j
      invariant forall k :: 0 <= k < n ==>
                  sends[k] == Send(Route(hyperlink[2 * k + 1], numReduce), Pair(hyperlink[2 * k + 1], hyperlink[2 * k]))
      invariant forall k :: n <= k < |sends| ==> sends[k] == Send(k - n + 2, Stop)
    {
      sends := sends + [Send(j + 2, Stop)];
      j := j + 1;
    }
  }

  // ---------------------------------------------------------------------------
  // Reducers
  // ---------------------------------------------------------------------------

  /** An unsigned word read back through the reducer's `int` buffer. */
  function Signed(w: Word): (v: int)
    ensures -0x8000_0000 <= v <= IdMax
    ensures v == w || v == w - 0x1_0000_0000
    ensures v >= 0 <==> w <= IdMax
  {
    if w <= IdMax then w else w - 0x1_0000_0000
  }

  /** `recvbuf[0]` after receiving `m`. */
  function ReadKey(m: Message): int
  {
    match m
    case Pair(k, _) => Signed(k)
    case Stop => -1
  }

  /** The reducer's loop condition `res != -1` fails on this message. */
  predicate EndsStream(m: Message)
  {
    ReadKey(m) == -1
  }

  function Lookup(t: Table, k: nat): seq<nat>
  {
    if k in t then t[k] else []
  }

  /** `part_incoming` after the reducer has handled `msgs`: each message whose
      first word reads as a non-negative `int` appends its value under its key. */
  function Absorb(msgs: seq<Message>): Table
  {
    if |msgs| == 0 then map[]
    else
      var t := Absorb(msgs[..|msgs| - 1]);
      var m := msgs[|msgs| - 1];
      if m.Pair? && ReadKey(m) >= 0 then t[m.key := Lookup(t, m.key) + [m.value]]
      else t
  }

  /** Index of the first message that ends the stream, or `|ch|` if none does. */
  function FirstEnd(ch: seq<Message>): (n: nat)
    ensures n <= |ch|
    ensures forall i :: 0 <= i < n ==> !EndsStream(ch[i])
    ensures n < |ch| ==> EndsStream(ch[n])
  {
    if |ch| == 0 then 0
    else if EndsStream(ch[0]) then 0
    else
      var n := 1 + FirstEnd(ch[1..]);
      assert forall i :: 1 <= i < n ==> ch[i] == ch[1..][i - 1];
      n
  }

  /** A reducer either finishes with its table, or, if no end-of-stream message
      ever arrives, waits forever in `MPI_Recv` holding what it has so far. */
  datatype ReducerRun = Finished(table: Table) | Blocked(table: Table)

  /** `reduce_task::run_task`: receive from the mapper until the first word is
      -1; the messages after it are never read. */
  function RunReducer(ch: seq<Message>): (r: ReducerRun)
    ensures r.Finished? <==> exists i :: 0 <= i < |ch| && EndsStream(ch[i])
  {
    var n := FirstEnd(ch);
    if n < |ch| then Finished(Absorb(ch[..n])) else Blocked(Absorb(ch))
  }

  /** Keys of the data messages among `msgs`. */
  function KeysOf(msgs: seq<Message>): set<nat>
  {
    if |msgs| == 0 then {}
    else
      var m := msgs[|msgs| - 1];
      KeysOf(msgs[..|msgs| - 1]) + (if m.Pair? then {m.key as nat} else {})
  }

  /** Values of the data messages keyed `k`, in arrival order. */
  function ValuesFor(msgs: seq<Message>, k: nat): seq<nat>
  {
    if |msgs| == 0 then []
    else
      var m := msgs[|msgs| - 1];
      ValuesFor(msgs[..|msgs| - 1], k) + (if m.Pair? && m.key == k then [m.value as nat] else [])
  }

  /** Reference grouping: each key of `msgs` with its values in arrival order. */
  function GroupOf(msgs: seq<Message>): Table
  {
    map k | k in KeysOf(msgs) :: ValuesFor(msgs, k)
  }

  /** Data messages whose keys fit a non-negative `int`. */
  predicate SmallKeys(msgs: seq<Message>)
  {
    forall i :: 0 <= i < |msgs| ==> msgs[i].Pair? && msgs[i].key <= IdMax
  }

  lemma {:induction false} AbsorbGroups(msgs: seq<Message>)
    requires SmallKeys(msgs)
    ensures Absorb(msgs).Keys == KeysOf(msgs)
    ensures forall k :: Lookup(Absorb(msgs), k) == ValuesFor(msgs, k)
  {
    if |msgs| > 0 {
      var p := msgs[..|msgs| - 1];
      assert forall i :: 0 <= i < |p| ==> p[i] == msgs[i];
      AbsorbGroups(p);
    }
  }

  /** What the reducer keeps is the reference grouping of its messages. */
  lemma AbsorbIsGroupOf(msgs: seq<Message>)
    requires SmallKeys(msgs)
    ensures Absorb(msgs) == GroupOf(msgs)
  {
    AbsorbGroups(msgs);
    forall k | k in Absorb(msgs)
      ensures Absorb(msgs)[k] == GroupOf(msgs)[k]
    {
      assert Lookup(Absorb(msgs), k) == ValuesFor(msgs, k);
    }
  }

  /** A reducer fed data messages and then -1 ends with each key's values in
      arrival order; whatever follows the -1 is ignored. */
  lemma ReducerGroupsMessages(data: seq<Message>, rest: seq<Message>)
    requires SmallKeys(data)
    ensures RunReducer(data + [Stop] + rest) == Finished(GroupOf(data))
  {
    var ch := data + [Stop] + rest;
    assert ch[|data|] == Stop;
    assert forall i :: 0 <= i < |data| ==> ch[i] == data[i];
    assert FirstEnd(ch) == |data|;
    assert ch[..|data|] == data;
    AbsorbIsGroupOf(data);
  }

  /** A reducer whose first message is -1 ends with an empty table. */
  lemma ReducerWithoutData(rest: seq<Message>)
    ensures RunReducer([Stop] + rest) == Finished(map[])
  {
    ReducerGroupsMessages([], rest);
    assert [] + [Stop] + rest == [Stop] + rest;
    assert KeysOf([]) == {};
  }

  /** Keys at or above 2^31 read back as negative: they are skipped, and the
      key 0xFFFFFFFF reads as -1 and ends the stream early, losing what follows. */
  lemma SentinelCollision()
    ensures RunReducer([Pair(0x8000_0000, 3), Pair(0xFFFF_FFFF, 7), Pair(1, 2), Stop]) == Finished(map[])
  {
    var ch: seq<Message> := [Pair(0x8000_0000, 3), Pair(0xFFFF_FFFF, 7), Pair(1, 2), Stop];
    assert !EndsStream(ch[0]) && EndsStream(ch[1]);
    assert FirstEnd(ch) == 1;
    assert ch[..1] == [ch[0]] && [ch[0]][..0] == [];
  }

  // ---------------------------------------------------------------------------
  // The channel each reducer sees
  // ---------------------------------------------------------------------------

  /** The message the mapper sends for edge `e`. */
  function EdgeMessage(e: Edge): Message
    requires InRange(e)
  {
    Pair(e.dst, e.src)
  }

  /** The data messages the mapper routes to `rank`, in edge order. */
  function DataFor(edges: seq<Edge>, numReduce: nat, rank: nat): (msgs: seq<Message>)
    requires EdgesInRange(edges) && numReduce >= 1
    ensures SmallKeys(msgs)
  {
    if |edges| == 0 then []
    else
      var e := edges[|edges| - 1];
      assert InRange(e);
      var p := DataFor(edges[..|edges| - 1], numReduce, rank);
      p + (if Route(e.dst, numReduce) == rank then [EdgeMessage(e)] else [])
  }

  /** The data part of the mapper's sends, edge by edge. */
  function DataSends(edges: seq<Edge>, numReduce: nat): seq<Send>
    requires EdgesInRange(edges) && numReduce >= 1
  {
    if |edges| == 0 then []
    else
      var e := edges[|edges| - 1];
      assert InRange(e);
      DataSends(edges[..|edges| - 1], numReduce) + [Send(Route(e.dst, numReduce), EdgeMessage(e))]
  }

  lemma {:induction false} DataSendsAt(edges: seq<Edge>, numReduce: nat)
    requires EdgesInRange(edges) && numReduce >= 1
    ensures |DataSends(edges, numReduce)| == |edges|
    ensures forall i :: 0 <= i < |edges| ==>
              DataSends(edges, numReduce)[i] == Send(Route(edges[i].dst, numReduce), EdgeMessage(edges[i]))
  {
    if |edges| > 0 {
      var p := edges[..|edges| - 1];
      assert forall i :: 0 <= i < |p| ==> p[i] == edges[i];
      DataSendsAt(p, numReduce);
    }
  }

  /** End-of-stream messages to ranks `2..n+1`. */
  function StopSends(n: nat): seq<Send>
  {
    if n == 0 then [] else StopSends(n - 1) + [Send(n + 1, Stop)]
  }

  lemma {:induction false} StopSendsAt(n: nat)
    ensures |StopSends(n)| == n
    ensures forall j :: 0 <= j < n ==> StopSends(n)[j] == Send(j + 2, Stop)
  {
    if n > 0 {
      StopSendsAt(n - 1);
    }
  }

  lemma {:induction false} DataChannel(edges: seq<Edge>, numReduce: nat, rank: nat)
    requires EdgesInRange(edges) && numReduce >= 1
    ensures Channel(DataSends(edges, numReduce), rank) == DataFor(edges, numReduce, rank)
  {
    if |edges| > 0 {
      var p := edges[..|edges| - 1];
      var e := edges[|edges| - 1];
      InRangeDropLast(edges);
      DataChannel(p, numReduce, rank);
      var last := Send(Route(e.dst, numReduce), EdgeMessage(e));
      var s := DataSends(edges, numReduce);
      assert s == DataSends(p, numReduce) + [last];
      assert s[..|s| - 1] == DataSends(p, numReduce);
      assert s[|s| - 1] == last;
    }
  }

  lemma InRangeDropLast(edges: seq<Edge>)
    requires |edges| > 0 && EdgesInRange(edges)
    ensures EdgesInRange(edges[..|edges| - 1]) && InRange(edges[|edges| - 1])
  {
    var p := edges[..|edges| - 1];
    assert forall i :: 0 <= i < |p| ==> p[i] == edges[i];
  }

  lemma {:induction false} StopChannel(n: nat, rank: nat)
    ensures Channel(StopSends(n), rank) == if 2 <= rank <= n + 1 then [Stop] else []
  {
    if n > 0 {
      StopChannel(n - 1, rank);
      var s := StopSends(n);
      assert s[..|s| - 1] == StopSends(n - 1);
      assert s[|s| - 1] == Send(n + 1, Stop);
      assert Channel(s, rank) == Channel(StopSends(n - 1), rank) + (if rank == n + 1 then [Stop] else []);
      if rank == n + 1 {
        assert Channel(StopSends(n - 1), rank) == [];
      } else if 2 <= rank <= n {
        assert Channel(StopSends(n - 1), rank) == [Stop];
      }
    }
  }

  /** Ids of in-range edges, flattened, are all ids `stoi` can produce. */
  lemma FlattenIds(edges: seq<Edge>)
    requires EdgesInRange(edges)
    ensures AllIds(Flatten(edges))
  {
    var h := Flatten(edges);
    forall i | 0 <= i < |h|
      ensures h[i] <= IdMax
    {
      var k := i / 2;
      assert InRange(edges[k]);
      assert i == 2 * k || i == 2 * k + 1;
    }
  }

  /** The mapper's sends for `edges`: both of its loops in order. */
  function MapperSends(edges: seq<Edge>, numReduce: nat): seq<Send>
    requires EdgesInRange(edges) && numReduce >= 1
  {
    DataSends(edges, numReduce) + StopSends(numReduce)
  }

  /** The mapper's output on the hyperlink vector of `edges` is exactly
      `MapperSends`: the send loop is deterministic. */
  lemma MapperOutputUnique(edges: seq<Edge>, numReduce: nat, sends: seq<Send>)
    requires EdgesInRange(edges) && numReduce >= 1
    requires AllIds(Flatten(edges)) && IsMapperOutput(Flatten(edges), numReduce, sends)
    ensures sends == MapperSends(edges, numReduce)
  {
    var h := Flatten(edges);
    var d, s := DataSends(edges, numReduce), StopSends(numReduce);
    DataSendsAt(edges, numReduce);
    StopSendsAt(numReduce);
    forall i | 0 <= i < |sends|
      ensures sends[i] == (d + s)[i]
    {
      if i < |edges| {
        assert h[2 * i + 1] == edges[i].dst && h[2 * i] == edges[i].src;
      }
    }
  }

  /** Reducer rank `r` receives exactly the data messages routed to it, in
      edge order, followed by one -1. */
  lemma MapperChannel(edges: seq<Edge>, numReduce: nat, sends: seq<Send>, rank: nat)
    requires EdgesInRange(edges) && numReduce >= 1 && 2 <= rank <= numReduce + 1
    requires sends == MapperSends(edges, numReduce)
    ensures Channel(sends, rank) == DataFor(edges, numReduce, rank) + [Stop]
  {
    ChannelAppend(DataSends(edges, numReduce), StopSends(numReduce), rank);
    DataChannel(edges, numReduce, rank);
    StopChannel(numReduce, rank);
  }

  lemma {:induction false} KeysHaveValues(msgs: seq<Message>, k: nat)
    ensures k in KeysOf(msgs) <==> ValuesFor(msgs, k) != []
  {
    if |msgs| > 0 {
      KeysHaveValues(msgs[..|msgs| - 1], k);
    }
  }

  /** The values routed to `rank` for destination `d` are the sources of all
      edges into `d` when `rank` owns `d`, and nothing otherwise. */
  lemma {:induction false} RoutedValues(edges: seq<Edge>, numReduce: nat, rank: nat, d: Word)
    requires EdgesInRange(edges) && numReduce >= 1
    ensures ValuesFor(DataFor(edges, numReduce, rank), d) ==
              if Route(d, numReduce) == rank then Incoming(edges, d) else []
  {
    if |edges| > 0 {
      var p := edges[..|edges| - 1];
      var e := edges[|edges| - 1];
      assert forall i :: 0 <= i < |p| ==> p[i] == edges[i];
      assert InRange(e);
      RoutedValues(p, numReduce, rank, d);
      var dp := DataFor(p, numReduce, rank);
      if Route(e.dst, numReduce) == rank {
        assert DataFor(edges, numReduce, rank) == dp + [EdgeMessage(e)];
        assert (dp + [EdgeMessage(e)])[..|dp|] == dp;
      } else {
        assert DataFor(edges, numReduce, rank) == dp;
      }
    }
  }

  lemma {:induction false} KeyIsId(msgs: seq<Message>, k: nat)
    requires SmallKeys(msgs) && k in KeysOf(msgs)
    ensures k <= IdMax
  {
    var p := msgs[..|msgs| - 1];
    assert forall i :: 0 <= i < |p| ==> p[i] == msgs[i];
    if k in KeysOf(p) {
      KeyIsId(p, k);
    }
  }

  /** Reducer `rank` terminates, holding the reference grouping of the data
      messages routed to it. */
  lemma ReducerFinishes(edges: seq<Edge>, numReduce: nat, sends: seq<Send>, rank: nat)
    requires EdgesInRange(edges) && numReduce >= 1 && 2 <= rank <= numReduce + 1
    requires sends == MapperSends(edges, numReduce)
    ensures RunReducer(Channel(sends, rank)) == Finished(GroupOf(DataFor(edges, numReduce, rank)))
  {
    var data := DataFor(edges, numReduce, rank);
    MapperChannel(edges, numReduce, sends, rank);
    ReducerGroupsMessages(data, []);
    assert data + [Stop] + [] == data + [Stop];
  }

  /** The table reducer `rank` ends with holds page `d` exactly when `rank`
      owns `d` and some edge points to `d`, and then it holds the sources of
      the edges into `d`, in edge order. */
  lemma ReducerTable(edges: seq<Edge>, numReduce: nat, sends: seq<Send>, rank: nat, d: nat)
    requires EdgesInRange(edges) && numReduce >= 1 && 2 <= rank <= numReduce + 1
    requires sends == MapperSends(edges, numReduce)
    ensures RunReducer(Channel(sends, rank)).Finished?
    ensures d in RunReducer(Channel(sends, rank)).table <==>
              d <= IdMax && Route(d, numReduce) == rank && Incoming(edges, d) != []
    ensures d in RunReducer(Channel(sends, rank)).table ==>
              RunReducer(Channel(sends, rank)).table[d] == Incoming(edges, d)
  {
    var data := DataFor(edges, numReduce, rank);
    ReducerFinishes(edges, numReduce, sends, rank);
    KeysHaveValues(data, d);
    if d in KeysOf(data) {
      KeyIsId(data, d);
    }
    if d <= IdMax {
      RoutedValues(edges, numReduce, rank, d);
    }
  }

  // ---------------------------------------------------------------------------
  // Coordinator
  // ---------------------------------------------------------------------------

  /** The reducers' runs, reducer rank `i + 2` at index `i`. */
  function ReducerRuns(sends: seq<Send>, numReduce: nat): (runs: seq<ReducerRun>)
    ensures |runs| == numReduce
    ensures forall i :: 0 <= i < numReduce ==> runs[i] == RunReducer(Channel(sends, i + 2))
  {
    seq(numReduce, i requires 0 <= i < numReduce => RunReducer(Channel(sends, i + 2)))
  }

  function Tables(runs: seq<ReducerRun>): (tables: seq<Table>)
    ensures |tables| == |runs|
    ensures forall i :: 0 <= i < |runs| ==> tables[i] == runs[i].table
  {
    seq(|runs|, i requires 0 <= i < |runs| => runs[i].table)
  }

  /** `num_recv`: the `MPI_SUM` reduction of every rank's `num_send`; the
      coordinator and the mapper contribute 0, each reducer its key count. */
  function GroupCount(runs: seq<ReducerRun>): nat
  {
    TotalSize(Tables(runs))
  }

  /** The state of `incoming` after the coordinator has appended each
      received group, in arrival order, to the list of its page. */
  function Deposit(websize: nat, arrivals: seq<Entry>): (incoming: seq<seq<nat>>)
    requires forall i :: 0 <= i < |arrivals| ==> arrivals[i].0 < websize
    ensures |incoming| == websize
    ensures forall d :: 0 <= d < websize ==> incoming[d] == GroupsFor(arrivals, d)
  {
    if |arrivals| == 0 then seq(websize, _ => [])
    else
      var p := arrivals[..|arrivals| - 1];
      var last := arrivals[|arrivals| - 1];
      var incoming := Deposit(websize, p);
      incoming[last.0 := incoming[last.0] + last.1]
  }

  /** Outcome of the coordinator's collection loop. `Truncated(i)`: the `i`-th
      group did not fit the receive buffer and MPI aborts the run. */
  datatype CollateOutcome = Collated(incoming: seq<seq<nat>>) | Waiting | Truncated(index: nat)

  /** The coordinator's loop with a receive buffer as large as each group: it
      receives exactly `numRecv` groups, blocking if fewer ever arrive, and
      appends each one to the list of its page. */
  function Collate(websize: nat, numRecv: nat, arrivals: seq<Entry>): (r: CollateOutcome)
    requires forall i :: 0 <= i < |arrivals| && i < numRecv ==> arrivals[i].0 < websize
    ensures !r.Truncated?
    ensures r.Collated? <==> numRecv <= |arrivals|
    ensures r.Collated? ==> (|r.incoming| == websize &&
              forall d :: 0 <= d < websize ==> r.incoming[d] == GroupsFor(arrivals[..numRecv], d))
  {
    if |arrivals| < numRecv then Waiting else Collated(Deposit(websize, arrivals[..numRecv]))
  }

  /** Index of the first of the first `n` groups longer than `cap`, or `n`. */
  function FirstOversize(arrivals: seq<Entry>, cap: nat, n: nat): (i: nat)
    requires n <= |arrivals|
    ensures i <= n
    ensures forall j :: 0 <= j < i ==> |arrivals[j].1| <= cap
    ensures i < n ==> |arrivals[i].1| > cap
  {
    if n == 0 then 0
    else
      var i := FirstOversize(arrivals, cap, n - 1);
      if i < n - 1 then i else if |arrivals[n - 1].1| > cap then n - 1 else n
  }

  /** The coordinator's loop as written: each group is received into a buffer
      of `websize` words, so a longer group aborts the run. */
  function CollateAsWritten(websize: nat, numRecv: nat, arrivals: seq<Entry>): (r: CollateOutcome)
    requires forall i :: 0 <= i < |arrivals| && i < numRecv ==> arrivals[i].0 < websize
    ensures r.Truncated? <==> exists i :: 0 <= i < |arrivals| && i < numRecv && |arrivals[i].1| > websize
    ensures r.Truncated? ==> (r.index < |arrivals| && |arrivals[r.index].1| > websize &&
              forall j :: 0 <= j < r.index ==> |arrivals[j].1| <= websize)
    ensures !r.Truncated? ==> r == Collate(websize, numRecv, arrivals)
  {
    var n := if numRecv < |arrivals| then numRecv else |arrivals|;
    var i := FirstOversize(arrivals, websize, n);
    if i < n then Truncated(i) else Collate(websize, numRecv, arrivals)
  }

  // ---------------------------------------------------------------------------
  // The whole pipeline
  // ---------------------------------------------------------------------------

  /** One run of the MPI program on `edges` with `numReduce` reducers: the
      mapper's sends (what `RunMapTask` performs, by `MapperOutputUnique`),
      and the reducers' groups as the coordinator receives them, in any
      interleaving. */
  ghost predicate IsRun(edges: seq<Edge>, numReduce: nat, sends: seq<Send>, arrivals: seq<Entry>)
  {
    && EdgesInRange(edges) && numReduce >= 1
    && sends == MapperSends(edges, numReduce)
    && Enumerates(arrivals, MergeTables(Tables(ReducerRuns(sends, numReduce))))
  }

  lemma NonEmptyIncoming(edges: seq<Edge>, d: nat)
    ensures Incoming(edges, d) != [] <==> d in Destinations(edges)
  {
    if d in Destinations(edges) {
      var e :| e in edges && e.dst == d;
      IncomingMembers(edges, d, e.src);
    } else {
      IncomingOfNonDestination(edges, d);
    }
  }

  /** Reducer tables of different ranks hold different pages. */
  lemma ReducerTablesDisjoint(edges: seq<Edge>, numReduce: nat, sends: seq<Send>)
    requires EdgesInRange(edges) && numReduce >= 1
    requires sends == MapperSends(edges, numReduce)
    ensures DisjointKeys(Tables(ReducerRuns(sends, numReduce)))
  {
    var tables := Tables(ReducerRuns(sends, numReduce));
    forall i, j, k | 0 <= i < |tables| && 0 <= j < |tables| && i != j && k in tables[i]
      ensures k !in tables[j]
    {
      OwnedByOneReducer(edges, numReduce, sends, i, j, k);
    }
  }

  lemma OwnedByOneReducer(edges: seq<Edge>, numReduce: nat, sends: seq<Send>, i: nat, j: nat, k: nat)
    requires EdgesInRange(edges) && numReduce >= 1
    requires sends == MapperSends(edges, numReduce)
    requires i < numReduce && j < numReduce && i != j
    requires k in RunReducer(Channel(sends, i + 2)).table
    ensures k !in RunReducer(Channel(sends, j + 2)).table
  {
    ReducerTable(edges, numReduce, sends, i + 2, k);
    ReducerTable(edges, numReduce, sends, j + 2, k);
  }

  /** A page in the merged reducer tables is one some edge points to, and
      the merge holds the sources of the edges into it. */
  lemma MergedFromDestination(edges: seq<Edge>, numReduce: nat, sends: seq<Send>, d: nat)
    requires EdgesInRange(edges) && numReduce >= 1
    requires sends == MapperSends(edges, numReduce)
    requires d in MergeTables(Tables(ReducerRuns(sends, numReduce)))
    ensures d in Destinations(edges)
    ensures MergeTables(Tables(ReducerRuns(sends, numReduce)))[d] == Incoming(edges, d)
  {
    var tables := Tables(ReducerRuns(sends, numReduce));
    ReducerTablesDisjoint(edges, numReduce, sends);
    var i := MergeOwner(tables, d);
    ReducerTable(edges, numReduce, sends, i + 2, d);
    NonEmptyIncoming(edges, d);
  }

  /** Every page some edge points to reaches the merged reducer tables. */
  lemma DestinationMerged(edges: seq<Edge>, numReduce: nat, sends: seq<Send>, d: nat)
    requires EdgesInRange(edges) && numReduce >= 1
    requires sends == MapperSends(edges, numReduce)
    requires d in Destinations(edges)
    ensures d in MergeTables(Tables(ReducerRuns(sends, numReduce)))
  {
    var tables := Tables(ReducerRuns(sends, numReduce));
    ReducerTablesDisjoint(edges, numReduce, sends);
    NonEmptyIncoming(edges, d);
    var k := DestinationIndex(edges, d);
    assert InRange(edges[k]);
    var i := Route(d, numReduce) - 2;
    ReducerTable(edges, numReduce, sends, i + 2, d);
    MergeKeeps(tables, i, d);
  }

  /** Every reducer receives its -1 and terminates. */
  lemma ReducersFinish(edges: seq<Edge>, numReduce: nat, sends: seq<Send>)
    requires EdgesInRange(edges) && numReduce >= 1
    requires sends == MapperSends(edges, numReduce)
    ensures forall i :: 0 <= i < numReduce ==> ReducerRuns(sends, numReduce)[i].Finished?
  {
    forall i | 0 <= i < numReduce
      ensures ReducerRuns(sends, numReduce)[i].Finished?
    {
      ReducerFinishes(edges, numReduce, sends, i + 2);
    }
  }

  /** The merged reducer tables hold exactly the pages some edge points to,
      each with the sources of the edges into it. */
  lemma MergedReducerTables(edges: seq<Edge>, numReduce: nat, sends: seq<Send>)
    requires EdgesInRange(edges) && numReduce >= 1
    requires sends == MapperSends(edges, numReduce)
    ensures MergeTables(Tables(ReducerRuns(sends, numReduce))).Keys == Destinations(edges)
    ensures forall d :: d in MergeTables(Tables(ReducerRuns(sends, numReduce))) ==>
              MergeTables(Tables(ReducerRuns(sends, numReduce)))[d] == Incoming(edges, d)
  {
    var m := MergeTables(Tables(ReducerRuns(sends, numReduce)));
    forall d
      ensures d in m <==> d in Destinations(edges)
      ensures d in m ==> m[d] == Incoming(edges, d)
    {
      if d in m {
        MergedFromDestination(edges, numReduce, sends, d);
      }
      if d in Destinations(edges) {
        DestinationMerged(edges, numReduce, sends, d);
      }
    }
  }

  /** `num_recv` counts every group the coordinator will be sent: the
      reducers' key counts add up to the size of their merged tables. */
  lemma GroupCountIsMergedSize(edges: seq<Edge>, numReduce: nat, sends: seq<Send>)
    requires EdgesInRange(edges) && numReduce >= 1
    requires sends == MapperSends(edges, numReduce)
    ensures |MergeTables(Tables(ReducerRuns(sends, numReduce)))| == GroupCount(ReducerRuns(sends, numReduce))
  {
    ReducerTablesDisjoint(edges, numReduce, sends);
    MergeSize(Tables(ReducerRuns(sends, numReduce)));
  }

  /** Every page some edge points to is below `websize`. */
  lemma DestinationsBelowWebsize(edges: seq<Edge>, d: nat)
    requires d in Destinations(edges)
    ensures d < Websize(edges)
  {
    WebsizeIsMaxPlusOne(edges);
  }

  /** The key invariant of the MPI program. Every reducer terminates, the
      coordinator expects exactly as many groups as arrive, and whatever the
      arrival order, `incoming[d]` ends up holding the sources of the edges
      into `d`, for every page `d`. */
  lemma PipelineBuildsIncomingIndex(edges: seq<Edge>, numReduce: nat, sends: seq<Send>, arrivals: seq<Entry>)
    requires IsRun(edges, numReduce, sends, arrivals)
    ensures forall i :: 0 <= i < numReduce ==> ReducerRuns(sends, numReduce)[i].Finished?
    ensures GroupCount(ReducerRuns(sends, numReduce)) == |arrivals| == |Destinations(edges)|
    ensures forall i :: 0 <= i < |arrivals| ==> arrivals[i].0 < Websize(edges)
    ensures Collate(Websize(edges), GroupCount(ReducerRuns(sends, numReduce)), arrivals) == Collated(IncomingIndex(edges))
  {
    var m := MergeTables(Tables(ReducerRuns(sends, numReduce)));
    ReducersFinish(edges, numReduce, sends);
    MergedReducerTables(edges, numReduce, sends);
    GroupCountIsMergedSize(edges, numReduce, sends);
    CollateGathers(edges, m, arrivals);
  }

  /** A table holding the incoming lists of exactly the pages some edge points
      to, as a delivery from arbitrarily interleaved senders. */
  ghost predicate DeliversIncoming(edges: seq<Edge>, m: Table, arrivals: seq<Entry>)
  {
    && Enumerates(arrivals, m)
    && m.Keys == Destinations(edges)
    && forall d :: d in m ==> m[d] == Incoming(edges, d)
  }

  /** Whatever the delivery order, collating all groups builds the reference
      index. */
  lemma CollateGathers(edges: seq<Edge>, m: Table, arrivals: seq<Entry>)
    requires DeliversIncoming(edges, m, arrivals)
    ensures |arrivals| == |m| == |Destinations(edges)|
    ensures forall i :: 0 <= i < |arrivals| ==> arrivals[i].0 < Websize(edges)
    ensures Collate(Websize(edges), |arrivals|, arrivals) == Collated(IncomingIndex(edges))
  {
    EnumerationLength(arrivals, m);
    ArrivalsGather(edges, m, arrivals);
    assert arrivals[..|arrivals|] == arrivals;
    IsIncomingIndex(edges, Deposit(Websize(edges), arrivals));
  }

  /** Any delivery order of a table holding the incoming lists of exactly the
      pages some edge points to gathers every page's incoming list. */
  lemma ArrivalsGather(edges: seq<Edge>, m: Table, arrivals: seq<Entry>)
    requires DeliversIncoming(edges, m, arrivals)
    ensures forall i :: 0 <= i < |arrivals| ==> arrivals[i].0 < Websize(edges)
    ensures forall d :: GroupsFor(arrivals, d) == Incoming(edges, d)
  {
    forall i | 0 <= i < |arrivals|
      ensures arrivals[i].0 < Websize(edges)
    {
      DestinationsBelowWebsize(edges, arrivals[i].0);
    }
    forall d
      ensures GroupsFor(arrivals, d) == Incoming(edges, d)
    {
      EnumeratedGroup(arrivals, m, d);
      if d !in m {
        IncomingOfNonDestination(edges, d);
      }
    }
  }

  /** Without repeated edges every group fits the `websize`-word buffer, so the
      program as written computes the intended index. */
  lemma DistinctEdgesFitBuffer(edges: seq<Edge>, numReduce: nat, sends: seq<Send>, arrivals: seq<Entry>)
    requires IsRun(edges, numReduce, sends, arrivals)
    requires NoDuplicates(edges)
    ensures forall i :: 0 <= i < |arrivals| ==> arrivals[i].0 < Websize(edges)
    ensures CollateAsWritten(Websize(edges), GroupCount(ReducerRuns(sends, numReduce)), arrivals)
         == Collated(IncomingIndex(edges))
  {
    PipelineBuildsIncomingIndex(edges, numReduce, sends, arrivals);
    MergedReducerTables(edges, numReduce, sends);
    GroupsFitBuffer(edges, MergeTables(Tables(ReducerRuns(sends, numReduce))), arrivals);
  }

  lemma GroupsFitBuffer(edges: seq<Edge>, m: Table, arrivals: seq<Entry>)
    requires DeliversIncoming(edges, m, arrivals) && NoDuplicates(edges)
    ensures forall i :: 0 <= i < |arrivals| ==> |arrivals[i].1| <= Websize(edges)
  {
    forall i | 0 <= i < |arrivals|
      ensures |arrivals[i].1| <= Websize(edges)
    {
      IncomingFitsWebsize(edges, arrivals[i].0);
    }
  }

  /** A page with more incoming links than `websize` makes the program as
      written abort in the coordinator, whatever the arrival order. */
  lemma OversizeGroupAborts(edges: seq<Edge>, numReduce: nat, sends: seq<Send>, arrivals: seq<Entry>, d: nat)
    requires IsRun(edges, numReduce, sends, arrivals)
    requires |Incoming(edges, d)| > Websize(edges)
    ensures forall i :: 0 <= i < |arrivals| ==> arrivals[i].0 < Websize(edges)
    ensures CollateAsWritten(Websize(edges), GroupCount(ReducerRuns(sends, numReduce)), arrivals).Truncated?
  {
    PipelineBuildsIncomingIndex(edges, numReduce, sends, arrivals);
    MergedReducerTables(edges, numReduce, sends);
    OversizeGroupArrives(edges, MergeTables(Tables(ReducerRuns(sends, numReduce))), arrivals, d);
  }

  lemma OversizeGroupArrives(edges: seq<Edge>, m: Table, arrivals: seq<Entry>, d: nat)
    requires DeliversIncoming(edges, m, arrivals)
    requires |Incoming(edges, d)| > Websize(edges)
    ensures exists i :: 0 <= i < |arrivals| && |arrivals[i].1| > Websize(edges)
  {
    NonEmptyIncoming(edges, d);
    var i :| 0 <= i < |arrivals| && arrivals[i].0 == d;
  }

  /** The input "0 1" three times: websize is 2, but page 1 has three
      incoming links, one more than the coordinator's buffer holds. */
  lemma RepeatedEdgeExceedsWebsize()
    ensures var edges := [Edge(0, 1), Edge(0, 1), Edge(0, 1)];
            Websize(edges) == 2 && Incoming(edges, 1) == [0, 0, 0] && NoDuplicates(edges[..1])
  {
    var edges := [Edge(0, 1), Edge(0, 1), Edge(0, 1)];
    assert edges[..2] == [Edge(0, 1), Edge(0, 1)];
    assert edges[..2][..1] == [Edge(0, 1)];
    assert edges[..2][..1][..0] == [];
    assert MaxId(edges[..2][..1]) == 1;
    assert MaxId(edges[..2]) == 1;
    assert Incoming(edges[..2][..1], 1) == [0];
    assert Incoming(edges[..2], 1) == [0, 0];
  }
}
