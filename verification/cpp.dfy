/** The variant built on a header-only C++ map-reduce library: a data source
    whose `get_data` yields the whole edge list for any key, a map operator
    that emits (destination, source) for every pair it is given, and a reduce
    operator that emits its key with the list of its values. The source
    declares the `job` type over these but never runs it; the job-level
    lemma below assumes the map operator is applied once, to the data
    `get_data` yields. */
module CppMapReduce {
  import opened Text
  import opened Graph
  import opened Groups
  import opened EdgeList

  /** `parse_hlfile`: one (source, destination) pair per line, in file order.
      The first line that does not match the grammar ends the program with
      `exit(1)` after reporting its 1-based number, and an id `stoi` cannot
      represent ends it with an uncaught exception; no partial list is
      returned either way. */
  function ParseHlfile(lines: seq<string>): (r: Parsed<seq<Edge>>)
    ensures r.Ok? <==> forall i :: 0 <= i < |lines| ==> LineOk(lines[i])
    ensures r.Ok? ==> |r.value| == |lines| && EdgesInRange(r.value)
    ensures r.Ok? ==> forall i :: 0 <= i < |lines| ==> r.value[i] == ParseLine(lines[i])
    ensures !r.Ok? ==> 1 <= r.lineNumber <= |lines| && !LineOk(lines[r.lineNumber - 1])
    ensures !r.Ok? ==> forall i :: 0 <= i < r.lineNumber - 1 ==> LineOk(lines[i])
    ensures r.Invalid? <==> (!r.Ok? && !IsEdgeLine(lines[r.lineNumber - 1]))
  {
    ParseEdgesOk(lines);
    var r := ParseEdges(lines);
    if !r.Ok? then ParseEdgesError(lines); r else r
  }

  /** The data source: the file name and the parsed edge list, moved in. */
  datatype Datasource = Datasource(filename: string, hyperlink: seq<Edge>)

  /** `setup_key`: always succeeds and names the map task after the file. */
  function SetupKey(ds: Datasource): (bool, string)
  {
    (true, ds.filename)
  }

  /** `get_data`: always succeeds and yields the whole edge list, whatever
      the key. */
  function GetData(ds: Datasource, key: string): (bool, seq<Edge>)
  {
    (true, ds.hyperlink)
  }

  /** `map_task::operator()`: for each pair of the value, in order, emit
      `(val.second, val.first)`: the destination as key, the source as value. */
  method MapOperator(value: seq<Edge>) returns (emitted: seq<(nat, nat)>)
    ensures |emitted| == |value|
    ensures forall i :: 0 <= i < |value| ==> emitted[i] == (value[i].dst, value[i].src)
  {
    emitted := [];
    for i := 0 to |value|
      invariant |emitted| == i
      invariant forall j :: 0 <= j < i ==> emitted[j] == (value[j].dst, value[j].src)
    {
      emitted := emitted + [(value[i].dst, value[i].src)];
    }
  }

  /** `reduce_task::operator()`: copy the values from the iterator range into
      `pages` and emit `(key, pages)` once. */
  method ReduceOperator(key: nat, values: seq<nat>) returns (emitted: seq<Entry>)
    ensures |emitted| == 1 && emitted[0].0 == key
    ensures multiset(emitted[0].1) == multiset(values) && |emitted[0].1| == |values|
    ensures forall j :: 0 <= j < |values| ==> emitted[0].1[j] == values[j]
  {
    var pages: seq<nat> := [];
    for i := 0 to |values|
      invariant pages == values[..i]
    {
      pages := pages + [values[i]];
    }
    assert values[..|values|] == values;
    emitted := [(key, pages)];
  }

  /** The input a map call receives: the key `setup_key` chose and the data
      `get_data` returned for it, read from an accepted file. */
  lemma MapInputIsFile(filename: string, lines: seq<string>)
    requires ParseHlfile(lines).Ok?
    ensures var ds := Datasource(filename, ParseHlfile(lines).value);
      && SetupKey(ds) == (true, filename)
      && GetData(ds, SetupKey(ds).1) == (true, ParseHlfile(lines).value)
      && |GetData(ds, SetupKey(ds).1).1| == |lines|
  {
  }

  /** Emitting the reversed pairs one per edge is `ReverseLinks`. */
  lemma MapOutputIsReverseLinks(value: seq<Edge>, emitted: seq<(nat, nat)>)
    requires |emitted| == |value|
    requires forall i :: 0 <= i < |value| ==> emitted[i] == (value[i].dst, value[i].src)
    ensures emitted == ReverseLinks(value)
  {
  }

  /** The reduce results of a job over `edges`, taking the map output to be
      one application of the map operator to the whole list: however the
      library groups it and in whatever order it runs the reduce calls, the
      results gathered for page `d` are the sources of the edges into `d`, up
      to order. */
  lemma JobGroupsIncoming(edges: seq<Edge>, t: Table, results: seq<Entry>, d: nat)
    requires Collates(ReverseLinks(edges), t) && Enumerates(results, t)
    ensures multiset(GroupsFor(results, d)) == multiset(Incoming(edges, d))
  {
    CollatedGroups(ReverseLinks(edges), t, results, d);
    ValuesOfReverseLinks(edges, d);
  }
}
