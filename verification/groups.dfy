/** Grouped reverse-link tables: a map from a destination page to the list of
    pages linking to it (a reducer's `part_incoming`, a collated key with its
    multivalue), and the sequences in which such groups reach the page that
    merges them. */
module Groups {
  import opened Graph

  /** Destination page id -> the source ids gathered for it. */
  type Table = map<nat, seq<nat>>

  /** One group on the wire: a destination page id and its sources. */
  type Entry = (nat, seq<nat>)

  /** The groups listed for `k`, concatenated in arrival order. */
  function GroupsFor(entries: seq<Entry>, k: nat): seq<nat>
  {
    if |entries| == 0 then []
    else
      var last := entries[|entries| - 1];
      GroupsFor(entries[..|entries| - 1], k) + (if last.0 == k then last.1 else [])
  }

  /** `entries` lists every group of `t` exactly once, in some order: what a
      receiver sees when the owners of `t`'s groups send them one by one and
      messages from different senders interleave arbitrarily. */
  ghost predicate Enumerates(entries: seq<Entry>, t: Table)
  {
    && Agrees(entries, t)
    && DistinctKeys(entries)
    && (forall k :: k in t ==> exists i :: 0 <= i < |entries| && entries[i].0 == k)
  }

  /** The keys of the groups listed in `entries`. */
  function KeySet(entries: seq<Entry>): set<nat>
  {
    if |entries| == 0 then {} else KeySet(entries[..|entries| - 1]) + {entries[|entries| - 1].0}
  }

  lemma {:induction false} KeySetMembers(entries: seq<Entry>, k: nat)
    ensures k in KeySet(entries) <==> exists i :: 0 <= i < |entries| && entries[i].0 == k
  {
    if |entries| > 0 {
      var p := entries[..|entries| - 1];
      KeySetMembers(p, k);
      if exists i :: 0 <= i < |entries| && entries[i].0 == k {
        var i :| 0 <= i < |entries| && entries[i].0 == k;
        if i < |p| {
          assert p[i] == entries[i];
        }
      }
      if exists i :: 0 <= i < |p| && p[i].0 == k {
        var i :| 0 <= i < |p| && p[i].0 == k;
        assert entries[i] == p[i];
      }
    }
  }

  /** Keys listed at most once. */
  predicate DistinctKeys(entries: seq<Entry>)
  {
    forall i, j :: 0 <= i < j < |entries| ==> entries[i].0 != entries[j].0
  }

  /** With distinct keys, the last key is not among the earlier ones. */
  lemma LastKeyIsNew(entries: seq<Entry>)
    requires |entries| > 0 && DistinctKeys(entries)
    ensures DistinctKeys(entries[..|entries| - 1])
    ensures entries[|entries| - 1].0 !in KeySet(entries[..|entries| - 1])
  {
    var p := entries[..|entries| - 1];
    assert forall i :: 0 <= i < |p| ==> p[i] == entries[i];
    KeySetMembers(p, entries[|entries| - 1].0);
  }

  lemma {:induction false} DistinctKeyCount(entries: seq<Entry>)
    requires DistinctKeys(entries)
    ensures |KeySet(entries)| == |entries|
  {
    if |entries| > 0 {
      LastKeyIsNew(entries);
      DistinctKeyCount(entries[..|entries| - 1]);
    }
  }

  /** A delivery of all groups of `t` consists of exactly `|t|` messages. */
  lemma EnumerationLength(entries: seq<Entry>, t: Table)
    requires Enumerates(entries, t)
    ensures |entries| == |t|
  {
    DistinctKeyCount(entries);
    forall k
      ensures k in KeySet(entries) <==> k in t
    {
      KeySetMembers(entries, k);
    }
    assert KeySet(entries) == t.Keys;
  }

  /** Every listed group is the table's group for its key. */
  predicate Agrees(entries: seq<Entry>, t: Table)
  {
    forall i :: 0 <= i < |entries| ==> entries[i].0 in t && entries[i].1 == t[entries[i].0]
  }

  lemma AgreesPrefix(entries: seq<Entry>, t: Table)
    requires |entries| > 0 && Agrees(entries, t)
    ensures Agrees(entries[..|entries| - 1], t)
  {
    var p := entries[..|entries| - 1];
    assert forall i :: 0 <= i < |p| ==> p[i] == entries[i];
  }

  /** Gathering groups listed once each and agreeing with `t` yields `t[k]`
      for a listed key and nothing for any other. */
  lemma {:induction false} GroupsForDistinct(entries: seq<Entry>, t: Table, k: nat)
    requires Agrees(entries, t) && DistinctKeys(entries)
    ensures k in KeySet(entries) ==> k in t && GroupsFor(entries, k) == t[k]
    ensures k !in KeySet(entries) ==> GroupsFor(entries, k) == []
  {
    if |entries| > 0 {
      var p := entries[..|entries| - 1];
      AgreesPrefix(entries, t);
      LastKeyIsNew(entries);
      GroupsForDistinct(p, t, k);
    }
  }

  /** Merging a delivery of `t` key by key reproduces `t`, whatever the
      arrival order: the merge is insensitive to how senders interleave. */
  lemma EnumeratedGroup(entries: seq<Entry>, t: Table, k: nat)
    requires Enumerates(entries, t)
    ensures GroupsFor(entries, k) == if k in t then t[k] else []
  {
    GroupsForDistinct(entries, t, k);
    KeySetMembers(entries, k);
  }

  /** No group arrived for `k`: nothing is gathered for it. */
  lemma {:induction false} GroupsForAbsent(entries: seq<Entry>, k: nat)
    requires forall i :: 0 <= i < |entries| ==> entries[i].0 != k
    ensures GroupsFor(entries, k) == []
  {
    if |entries| > 0 {
      var p := entries[..|entries| - 1];
      assert forall i :: 0 <= i < |p| ==> p[i] == entries[i];
      GroupsForAbsent(p, k);
    }
  }

  // ---------------------------------------------------------------------------
  // Tables held by several owners
  // ---------------------------------------------------------------------------

  /** No key is held by two different tables. */
  ghost predicate DisjointKeys(tables: seq<Table>)
  {
    forall i, j, k :: 0 <= i < |tables| && 0 <= j < |tables| && i != j && k in tables[i] ==> k !in tables[j]
  }

  /** The union of the tables. */
  function MergeTables(tables: seq<Table>): Table
  {
    if |tables| == 0 then map[] else MergeTables(tables[..|tables| - 1]) + tables[|tables| - 1]
  }

  /** Total number of keys over all tables, counted table by table. */
  function TotalSize(tables: seq<Table>): nat
  {
    if |tables| == 0 then 0 else TotalSize(tables[..|tables| - 1]) + |tables[|tables| - 1]|
  }

  lemma DisjointPrefix(tables: seq<Table>, n: nat)
    requires DisjointKeys(tables) && n <= |tables|
    ensures DisjointKeys(tables[..n])
  {
    assert forall i :: 0 <= i < n ==> tables[..n][i] == tables[i];
  }

  /** A group held by one of several disjoint tables survives their merge unchanged. */
  lemma {:induction false} MergeKeeps(tables: seq<Table>, i: nat, k: nat)
    requires DisjointKeys(tables) && i < |tables| && k in tables[i]
    ensures k in MergeTables(tables) && MergeTables(tables)[k] == tables[i][k]
  {
    var n := |tables| - 1;
    if i < n {
      DisjointPrefix(tables, n);
      assert tables[..n][i] == tables[i];
      MergeKeeps(tables[..n], i, k);
      assert k !in tables[n];
    }
  }

  /** A key of the merge of disjoint tables comes from exactly one table,
      whose group it keeps. */
  lemma MergeOwner(tables: seq<Table>, k: nat) returns (i: nat)
    requires DisjointKeys(tables) && k in MergeTables(tables)
    ensures i < |tables| && k in tables[i] && MergeTables(tables)[k] == tables[i][k]
  {
    MergeOnlyFrom(tables, k);
    i :| 0 <= i < |tables| && k in tables[i];
    MergeKeeps(tables, i, k);
  }

  /** The merge holds no key that none of the tables holds. */
  lemma {:induction false} MergeOnlyFrom(tables: seq<Table>, k: nat)
    requires k in MergeTables(tables)
    ensures exists i :: 0 <= i < |tables| && k in tables[i]
  {
    var n := |tables| - 1;
    if k !in tables[n] {
      MergeOnlyFrom(tables[..n], k);
      var i :| 0 <= i < n && k in tables[..n][i];
      assert tables[..n][i] == tables[i];
    }
  }

  /** Merging disjoint tables loses no key: the merge has as many keys as
      the tables together. */
  lemma {:induction false} MergeSize(tables: seq<Table>)
    requires DisjointKeys(tables)
    ensures |MergeTables(tables)| == TotalSize(tables)
  {
    if |tables| > 0 {
      var n := |tables| - 1;
      DisjointPrefix(tables, n);
      MergeSize(tables[..n]);
      var m := MergeTables(tables[..n]);
      forall k | k in m
        ensures k !in tables[n]
      {
        MergeOnlyFrom(tables[..n], k);
        var i :| 0 <= i < n && k in tables[..n][i];
        assert tables[..n][i] == tables[i];
      }
      assert (m + tables[n]).Keys == m.Keys + tables[n].Keys;
      assert m.Keys !! tables[n].Keys;
      assert |m.Keys + tables[n].Keys| == |m.Keys| + |tables[n].Keys|;
    }
  }

  // ---------------------------------------------------------------------------
  // Key/value lists grouped by a map-reduce library
  // ---------------------------------------------------------------------------

  /** The values paired with `k`, in list order. */
  function ValuesOf(kv: seq<(nat, nat)>, k: nat): seq<nat>
  {
    if |kv| == 0 then []
    else
      var last := kv[|kv| - 1];
      ValuesOf(kv[..|kv| - 1], k) + (if last.0 == k then [last.1] else [])
  }

  function PairKeys(kv: seq<(nat, nat)>): set<nat>
  {
    set p | p in kv :: p.0
  }

  /** `t` is a grouping of `kv` by key: one group per key that occurs, holding
      that key's values in an order the library does not promise. */
  ghost predicate Collates(kv: seq<(nat, nat)>, t: Table)
  {
    && t.Keys == PairKeys(kv)
    && forall k :: k in t ==> multiset(t[k]) == multiset(ValuesOf(kv, k))
  }

  /** A key that does not occur has no values. */
  lemma {:induction false} ValuesOfAbsent(kv: seq<(nat, nat)>, k: nat)
    requires k !in PairKeys(kv)
    ensures ValuesOf(kv, k) == []
  {
    if |kv| > 0 {
      var p := kv[..|kv| - 1];
      assert kv[|kv| - 1] in kv;
      assert forall x :: x in p ==> x in kv;
      ValuesOfAbsent(p, k);
    }
  }

  /** However the groups of a grouping of `kv` are then delivered, gathering
      them key by key yields each key's values, up to order. */
  lemma CollatedGroups(kv: seq<(nat, nat)>, t: Table, entries: seq<Entry>, k: nat)
    requires Collates(kv, t) && Enumerates(entries, t)
    ensures multiset(GroupsFor(entries, k)) == multiset(ValuesOf(kv, k))
  {
    EnumeratedGroup(entries, t, k);
    if k !in t {
      ValuesOfAbsent(kv, k);
    }
  }

  /** Each edge as the pair (destination, source): what every map phase emits. */
  function ReverseLinks(edges: seq<Edge>): (kv: seq<(nat, nat)>)
    ensures |kv| == |edges|
    ensures forall i :: 0 <= i < |edges| ==> kv[i] == (edges[i].dst, edges[i].src)
  {
    seq(|edges|, i requires 0 <= i < |edges| => (edges[i].dst, edges[i].src))
  }

  /** Reversing two runs of edges reverses their concatenation. */
  lemma ReverseLinksAppend(a: seq<Edge>, b: seq<Edge>)
    ensures ReverseLinks(a + b) == ReverseLinks(a) + ReverseLinks(b)
  {
  }

  /** The keys of the reversed links are the pages some edge points to. */
  lemma ReverseLinkKeys(edges: seq<Edge>)
    ensures PairKeys(ReverseLinks(edges)) == Destinations(edges)
  {
    var kv := ReverseLinks(edges);
    forall k | k in Destinations(edges)
      ensures k in PairKeys(kv)
    {
      var e :| e in edges && e.dst == k;
      var i :| 0 <= i < |edges| && edges[i] == e;
      assert kv[i] in kv;
    }
  }

  /** Grouping the reversed links by key gathers, for each page, the sources
      of the edges into it. */
  lemma {:induction false} ValuesOfReverseLinks(edges: seq<Edge>, d: nat)
    ensures ValuesOf(ReverseLinks(edges), d) == Incoming(edges, d)
  {
    if |edges| > 0 {
      var p := edges[..|edges| - 1];
      ValuesOfReverseLinks(p, d);
      var kv := ReverseLinks(edges);
      assert kv[..|kv| - 1] == ReverseLinks(p);
    }
  }
}
