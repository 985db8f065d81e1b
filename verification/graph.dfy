/** The hyperlink graph every program builds from its edge list, and the
    reference definitions the pipelines are measured against: the sources of
    the edges into a page, out-degrees, and the page count `websize`. */
module Graph {

  /** One input line: page `src` links to page `dst`. */
  datatype Edge = Edge(src: nat, dst: nat)

  /** Sources of the edges into `d`, in edge order: what `incoming[d]` must hold. */
  function Incoming(edges: seq<Edge>, d: nat): seq<nat>
  {
    if |edges| == 0 then []
    else
      var e := edges[|edges| - 1];
      Incoming(edges[..|edges| - 1], d) + (if e.dst == d then [e.src] else [])
  }

  /** Number of edges whose source is `s`. */
  function Outgoing(edges: seq<Edge>, s: nat): nat
  {
    if |edges| == 0 then 0
    else Outgoing(edges[..|edges| - 1], s) + (if edges[|edges| - 1].src == s then 1 else 0)
  }

  function Sources(edges: seq<Edge>): set<nat>
  {
    set e | e in edges :: e.src
  }

  function Destinations(edges: seq<Edge>): set<nat>
  {
    set e | e in edges :: e.dst
  }

  function Max(a: nat, b: nat): nat { if a < b then b else a }

  /** The largest page id on either end of any edge, 0 for no edges. */
  function MaxId(edges: seq<Edge>): nat
  {
    if |edges| == 0 then 0
    else
      var e := edges[|edges| - 1];
      Max(Max(MaxId(edges[..|edges| - 1]), e.src), e.dst)
  }

  /** The number of pages: one more than the largest id. */
  function Websize(edges: seq<Edge>): nat
  {
    MaxId(edges) + 1
  }

  /** The reverse-link index every program hands to its solver: entry `d`
      lists the sources of the edges into page `d`, for each page below
      `websize`. */
  function IncomingIndex(edges: seq<Edge>): (index: seq<seq<nat>>)
    ensures |index| == Websize(edges)
    ensures forall d :: 0 <= d < |index| ==> index[d] == Incoming(edges, d)
  {
    seq(Websize(edges), d requires 0 <= d => Incoming(edges, d))
  }

  /** Any index agreeing with `Incoming` on every page below `websize` is the
      reverse-link index. */
  lemma IsIncomingIndex(edges: seq<Edge>, index: seq<seq<nat>>)
    requires |index| == Websize(edges)
    requires forall d :: 0 <= d < |index| ==> index[d] == Incoming(edges, d)
    ensures index == IncomingIndex(edges)
  {
  }

  /** The hyperlink vector of the MPI program: source then destination, edge by edge. */
  function Flatten(edges: seq<Edge>): (flat: seq<nat>)
    ensures |flat| == 2 * |edges|
    ensures forall i :: 0 <= i < |edges| ==> flat[2 * i] == edges[i].src && flat[2 * i + 1] == edges[i].dst
  {
    if |edges| == 0 then []
    else
      var e := edges[|edges| - 1];
      var r := Flatten(edges[..|edges| - 1]) + [e.src, e.dst];
      assert forall i :: 0 <= i < |edges| - 1 ==> r[2 * i] == edges[i].src && r[2 * i + 1] == edges[i].dst;
      r
  }

  /** Reading an even-length hyperlink vector back as edges. */
  function Pairs(flat: seq<nat>): (edges: seq<Edge>)
    requires |flat| % 2 == 0
    ensures |edges| == |flat| / 2
    ensures forall i :: 0 <= i < |edges| ==> edges[i] == Edge(flat[2 * i], flat[2 * i + 1])
  {
    if |flat| == 0 then []
    else Pairs(flat[..|flat| - 2]) + [Edge(flat[|flat| - 2], flat[|flat| - 1])]
  }

  /** Reading the flattened vector back as pairs recovers the edges. */
  lemma PairsFlatten(edges: seq<Edge>)
    ensures Pairs(Flatten(edges)) == edges
  {
  }

  /** `incoming[d]` holds `s` exactly when some edge runs from `s` to `d`. */
  lemma {:induction false} IncomingMembers(edges: seq<Edge>, d: nat, s: nat)
    ensures s in Incoming(edges, d) <==> Edge(s, d) in edges
  {
    if |edges| > 0 {
      var p := edges[..|edges| - 1];
      IncomingMembers(p, d, s);
      assert edges == p + [edges[|edges| - 1]];
    }
  }

  /** A page no edge points to has an empty incoming list. */
  lemma {:induction false} IncomingOfNonDestination(edges: seq<Edge>, d: nat)
    requires d !in Destinations(edges)
    ensures Incoming(edges, d) == []
  {
    if |edges| > 0 {
      var p := edges[..|edges| - 1];
      assert forall e :: e in p ==> e in edges;
      assert edges[|edges| - 1] in edges;
      IncomingOfNonDestination(p, d);
    }
  }

  /** `websize` exceeds every id and is one more than an id that occurs
      (or is 1 when there are no edges). */
  lemma {:induction false} WebsizeIsMaxPlusOne(edges: seq<Edge>)
    ensures forall e :: e in edges ==> e.src < Websize(edges) && e.dst < Websize(edges)
    ensures Websize(edges) == 1 || exists e :: e in edges && (e.src == Websize(edges) - 1 || e.dst == Websize(edges) - 1)
  {
    if |edges| > 0 {
      var p := edges[..|edges| - 1];
      WebsizeIsMaxPlusOne(p);
      assert edges == p + [edges[|edges| - 1]];
      assert forall e :: e in p ==> e in edges;
    }
  }

  /** A prefix of the edge list has no more pages than the whole list. */
  lemma WebsizePrefix(edges: seq<Edge>, n: nat)
    requires n <= |edges|
    ensures Websize(edges[..n]) <= Websize(edges)
  {
    var p := edges[..n];
    WebsizeIsMaxPlusOne(p);
    WebsizeIsMaxPlusOne(edges);
    assert forall e :: e in p ==> e in edges;
  }

  /** The position of an edge into a page some edge points to. */
  lemma DestinationIndex(edges: seq<Edge>, d: nat) returns (k: nat)
    requires d in Destinations(edges)
    ensures k < |edges| && edges[k].dst == d
  {
    var e :| e in edges && e.dst == d;
    k :| k < |edges| && edges[k] == e;
  }

  /** Total size of the incoming lists of pages `0..n-1`. */
  function IncomingTotal(edges: seq<Edge>, n: nat): nat
  {
    if n == 0 then 0 else IncomingTotal(edges, n - 1) + |Incoming(edges, n - 1)|
  }

  lemma {:induction false} IncomingTotalStep(edges: seq<Edge>, e: Edge, n: nat)
    ensures IncomingTotal(edges + [e], n) == IncomingTotal(edges, n) + (if e.dst < n then 1 else 0)
  {
    assert (edges + [e])[..|edges|] == edges;
    if n > 0 {
      IncomingTotalStep(edges, e, n - 1);
    }
  }

  /** Every edge lands in exactly one incoming list: over all pages the lists
      hold as many entries as there are edges. */
  lemma {:induction false} IncomingTotalIsEdgeCount(edges: seq<Edge>)
    ensures IncomingTotal(edges, Websize(edges)) == |edges|
  {
    WebsizeIsMaxPlusOne(edges);
    IncomingTotalBelow(edges, Websize(edges));
  }

  lemma {:induction false} IncomingTotalBelow(edges: seq<Edge>, n: nat)
    requires forall e :: e in edges ==> e.dst < n
    ensures IncomingTotal(edges, n) == |edges|
  {
    if |edges| > 0 {
      var p := edges[..|edges| - 1];
      assert forall e :: e in p ==> e in edges;
      assert edges[|edges| - 1] in edges;
      IncomingTotalBelow(p, n);
      assert edges == p + [edges[|edges| - 1]];
      IncomingTotalStep(p, edges[|edges| - 1], n);
    } else {
      IncomingTotalEmpty(n);
    }
  }

  lemma {:induction false} IncomingTotalEmpty(n: nat)
    ensures IncomingTotal([], n) == 0
  {
    if n > 0 { IncomingTotalEmpty(n - 1); }
  }

  // ---------------------------------------------------------------------------
  // The read loop's counters
  // ---------------------------------------------------------------------------

  /** `num_outgoing[s]` as `operator[]` reads it: 0 for an absent key. */
  function OutDegree(numOutgoing: map<nat, nat>, s: nat): nat
  {
    if s in numOutgoing then numOutgoing[s] else 0
  }

  /** The read loop's counters after the first `k` edges: the largest id
      seen so far and each source's out-degree so far. */
  ghost predicate Counted(edges: seq<Edge>, k: nat, top: nat, numOutgoing: map<nat, nat>)
    requires k <= |edges|
  {
    && top == MaxId(edges[..k])
    && numOutgoing.Keys == Sources(edges[..k])
    && forall s :: OutDegree(numOutgoing, s) == Outgoing(edges[..k], s)
  }

  /** One iteration of the counting loop keeps `Counted`. */
  lemma CountStep(edges: seq<Edge>, k: nat, top: nat, numOutgoing: map<nat, nat>)
    requires k < |edges| && Counted(edges, k, top, numOutgoing)
    ensures Counted(edges, k + 1, Max(Max(top, edges[k].src), edges[k].dst),
                    numOutgoing[edges[k].src := OutDegree(numOutgoing, edges[k].src) + 1])
  {
    var p, q := edges[..k], edges[..k + 1];
    var e := edges[k];
    assert q == p + [e];
    assert q[..k] == p;
    assert forall x :: x in q <==> x in p || x == e;
    var n := numOutgoing[e.src := OutDegree(numOutgoing, e.src) + 1];
    forall s
      ensures OutDegree(n, s) == Outgoing(q, s)
    {
      assert Outgoing(q, s) == Outgoing(p, s) + (if e.src == s then 1 else 0);
    }
  }

  /** `CountStep` for a loop that builds the edge list as it goes. */
  lemma CountAppend(edges: seq<Edge>, e: Edge, top: nat, numOutgoing: map<nat, nat>)
    requires Counted(edges, |edges|, top, numOutgoing)
    ensures Counted(edges + [e], |edges| + 1, Max(Max(top, e.src), e.dst),
                    numOutgoing[e.src := OutDegree(numOutgoing, e.src) + 1])
  {
    assert (edges + [e])[..|edges|] == edges == edges[..|edges|];
    CountStep(edges + [e], |edges|, top, numOutgoing);
  }

  // ---------------------------------------------------------------------------
  // Duplicate-free edge lists
  // ---------------------------------------------------------------------------

  predicate NoDuplicates<T(==)>(s: seq<T>)
  {
    forall i, j :: 0 <= i < j < |s| ==> s[i] != s[j]
  }

  /** Without repeated edges, the sources into a page are all different. */
  lemma {:induction false} IncomingDistinct(edges: seq<Edge>, d: nat)
    requires NoDuplicates(edges)
    ensures NoDuplicates(Incoming(edges, d))
  {
    if |edges| > 0 {
      var p := edges[..|edges| - 1];
      var e := edges[|edges| - 1];
      IncomingDistinct(p, d);
      if e.dst == d {
        forall k | 0 <= k < |p|
          ensures p[k] != e
        {
          assert edges[k] == p[k];
        }
        IncomingMembers(p, d, e.src);
      }
    }
  }

  /** The integers `0..n-1` as a set. */
  function Below(n: nat): (r: set<nat>)
    ensures |r| == n
    ensures forall x: nat :: x in r <==> x < n
  {
    if n == 0 then {} else
      var r := Below(n - 1) + {n - 1};
      assert n - 1 !in Below(n - 1);
      r
  }

  function Elements(s: seq<nat>): set<nat> { set x | x in s }

  lemma {:induction false} DistinctElements(s: seq<nat>)
    requires NoDuplicates(s)
    ensures |Elements(s)| == |s|
  {
    if |s| > 0 {
      var p := s[..|s| - 1];
      DistinctElements(p);
      assert s == p + [s[|s| - 1]];
      assert Elements(s) == Elements(p) + {s[|s| - 1]};
      forall k | 0 <= k < |p|
        ensures p[k] != s[|s| - 1]
      {
        assert s[k] == p[k];
      }
      assert s[|s| - 1] !in Elements(p);
    }
  }

  /** Without repeated edges, no page has more incoming sources than there
      are pages. */
  lemma IncomingFitsWebsize(edges: seq<Edge>, d: nat)
    requires NoDuplicates(edges)
    ensures |Incoming(edges, d)| <= Websize(edges)
  {
    var inc := Incoming(edges, d);
    IncomingDistinct(edges, d);
    DistinctElements(inc);
    WebsizeIsMaxPlusOne(edges);
    forall x | x in Elements(inc)
      ensures x in Below(Websize(edges))
    {
      IncomingMembers(edges, d, x);
    }
    assert Elements(inc) <= Below(Websize(edges));
    SubsetCard(Elements(inc), Below(Websize(edges)));
  }

  lemma SubsetCard(a: set<nat>, b: set<nat>)
    requires a <= b
    ensures |a| <= |b|
  {
    assert b == a + (b - a);
  }
}
