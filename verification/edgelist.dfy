/** The edge-list input format shared by the three PageRank programs: one edge
    per line, `(0|[1-9][0-9]*)\s(0|[1-9][0-9]*)`, i.e. two canonical page ids
    separated by one whitespace character. The first line that does not match
    aborts the run with its 1-based line number. */
module EdgeList {
  import opened Text
  import opened Graph

  /** Outcome of reading an input file: the parsed value, or the 1-based
      number of the first line the grammar rejects, or of the first line
      holding an id too large for `std::stoi`. */
  datatype Parsed<T> = Ok(value: T) | Invalid(lineNumber: nat) | Overflow(lineNumber: nat)

  /** An unsigned 32-bit word, the element type of the hyperlink vector and
      of every message buffer. */
  type Word = w: nat | w < 0x1_0000_0000

  /** The largest id `std::stoi` accepts; a longer digit string throws. */
  const IdMax: nat := 0x7FFF_FFFF

  /** `line` consists of a canonical id, the whitespace character at `p`,
      and another canonical id. */
  predicate SeparatedAt(line: string, p: nat)
  {
    p < |line| && IsCanonicalId(line[..p]) && IsSpace(line[p]) && IsCanonicalId(line[p + 1..])
  }

  /** The edge-line grammar `(0|[1-9][0-9]*)\s(0|[1-9][0-9]*)`, matched
      against the whole line. */
  predicate IsEdgeLine(line: string)
  {
    exists p :: 0 <= p < |line| && SeparatedAt(line, p)
  }

  /** Where an accepted line has its whitespace: right after the leading digits. */
  function Separator(line: string): nat
  {
    DigitRun(line)
  }

  lemma CanonicalDigits(s: string)
    requires IsCanonicalId(s)
    ensures AllDigits(s)
  {
    if s == "0" { assert s[0] == '0'; }
  }

  /** The grammar is unambiguous: an accepted line splits at exactly one
      place, the end of its leading digits. */
  lemma EdgeLineShape(line: string)
    ensures IsEdgeLine(line) <==> SeparatedAt(line, Separator(line))
  {
    if IsEdgeLine(line) {
      var p :| 0 <= p < |line| && SeparatedAt(line, p);
      CanonicalDigits(line[..p]);
      var k := DigitRun(line);
      forall i | 0 <= i < p
        ensures IsDigit(line[i])
      {
        assert line[..p][i] == line[i];
      }
      forall i | 0 <= i < k
        ensures IsDigit(line[i])
      {
        assert line[..k][i] == line[i];
      }
      assert !IsDigit(line[p]);
      assert k == p;
    }
  }

  /** The edge an accepted line denotes: the two ids around the separator. */
  function ParseLine(line: string): (e: Edge)
    requires IsEdgeLine(line)
    ensures Decimal(e.src) == line[..Separator(line)]
    ensures Decimal(e.dst) == line[Separator(line) + 1..]
  {
    EdgeLineShape(line);
    var p := Separator(line);
    CanonicalDigits(line[..p]);
    CanonicalDigits(line[p + 1..]);
    CanonicalRoundTrip(line[..p]);
    CanonicalRoundTrip(line[p + 1..]);
    Edge(NumeralValue(line[..p]), NumeralValue(line[p + 1..]))
  }

  /** The line an edge is written as, with a single space. */
  function FormatEdge(e: Edge): string
  {
    Decimal(e.src) + " " + Decimal(e.dst)
  }

  lemma NoSpaceInDigits(s: string)
    requires AllDigits(s)
    ensures ' ' !in s && DigitRun(s) == |s|
  {
    assert forall i :: 0 <= i < |s| ==> s[i] != ' ' by {
      forall i | 0 <= i < |s| ensures s[i] != ' ' { assert IsDigit(s[i]); }
    }
  }

  /** Every edge written as a line is accepted and parses back to itself. */
  lemma FormatEdgeParses(e: Edge)
    ensures IsEdgeLine(FormatEdge(e)) && ParseLine(FormatEdge(e)) == e
  {
    var a, b := Decimal(e.src), Decimal(e.dst);
    var line := FormatEdge(e);
    DecimalRoundTrip(e.src);
    DecimalRoundTrip(e.dst);
    assert line[..|a|] == a && line[|a|] == ' ' && line[|a| + 1..] == b;
    assert SeparatedAt(line, |a|);
    EdgeLineShape(line);
    assert Separator(line) == |a|;
  }

  /** Conversely, an accepted line whose separator is a space is exactly the
      rendering of the edge it parses to. */
  lemma ParseLineFormats(line: string)
    requires IsEdgeLine(line) && line[Separator(line)] == ' '
    ensures FormatEdge(ParseLine(line)) == line
  {
    EdgeLineShape(line);
    var p := Separator(line);
    assert line == line[..p] + " " + line[p + 1..];
  }

  /** `parse_hlfile` as written: cut the line at spaces with `split` and read
      `link[0]` and `link[1]` with `stoi`. `None` marks a read of `link[1]`
      past the end of the vector (undefined behaviour in the program). */
  function ParseLineAsWritten(line: string): (r: Option<Edge>)
    requires IsEdgeLine(line)
    ensures r.None? <==> ' ' !in line
  {
    SplitCount(line, ' ');
    OccurrencesPositive(line, ' ');
    var link := Split(line, ' ');
    if |link| < 2 then None
    else Some(Edge(LeadingValue(link[0]), LeadingValue(link[1])))
  }

  /** Two digit strings joined by a space split back into the two. */
  lemma SplitDigitPair(a: string, b: string)
    requires AllDigits(a) && AllDigits(b)
    ensures Split(a + [' '] + b, ' ') == [a, b]
  {
    NoSpaceInDigits(a);
    NoSpaceInDigits(b);
    assert Join([a, b], ' ') == a + [' '] + Join([b], ' ');
    SplitJoin([a, b], ' ');
  }

  /** On space-separated lines the program reads the intended edge. */
  lemma ParseLineAsWrittenOnSpace(line: string)
    requires IsEdgeLine(line) && line[Separator(line)] == ' '
    ensures ParseLineAsWritten(line) == Some(ParseLine(line))
  {
    EdgeLineShape(line);
    var p := Separator(line);
    var a, b := line[..p], line[p + 1..];
    CanonicalDigits(a);
    CanonicalDigits(b);
    assert line == a + [' '] + b;
    SplitDigitPair(a, b);
    LeadingValueOfNumeral(a);
    LeadingValueOfNumeral(b);
  }

  /** The regular expression admits a tab between the ids, but `split` cuts
      only at spaces: "0\t1" passes validation and then yields one field. */
  lemma TabSeparatedLineHasOneField()
    ensures IsEdgeLine("0\t1")
    ensures ParseLineAsWritten("0\t1") == None
  {
    var line := "0\t1";
    assert line[..1] == "0" && line[2..] == "1";
    assert SeparatedAt(line, 1);
    assert ' ' !in line;
    SplitWithout(line, ' ');
  }

  /** Both ids fit the range `stoi` accepts. */
  predicate InRange(e: Edge)
  {
    e.src <= IdMax && e.dst <= IdMax
  }

  /** Every edge's ids fit the range `stoi` accepts. */
  predicate EdgesInRange(edges: seq<Edge>)
  {
    forall i :: 0 <= i < |edges| ==> InRange(edges[i])
  }

  /** A line the read loop gets past: it matches the grammar and `stoi`
      accepts both of its ids. */
  predicate LineOk(line: string)
  {
    IsEdgeLine(line) && InRange(ParseLine(line))
  }

  /** How the read loop fails on a line that is not `LineOk`. */
  function LineError(line: string, number: nat): Parsed<seq<Edge>>
    requires !LineOk(line)
  {
    if !IsEdgeLine(line) then Invalid(number) else Overflow(number)
  }

  /** The parse loop shared by the three programs: every line must match the
      grammar and contributes its edge in file order. The first line that does
      not match aborts with its 1-based number; an id beyond `IdMax` makes
      `stoi` throw, which also ends the run. No partial result survives. */
  function ParseEdges(lines: seq<string>): (r: Parsed<seq<Edge>>)
    ensures r.Ok? ==> |r.value| == |lines|
    ensures !r.Ok? ==> 1 <= r.lineNumber <= |lines|
  {
    if |lines| == 0 then Ok([])
    else if !LineOk(lines[0]) then LineError(lines[0], 1)
    else
      match ParseEdges(lines[1..])
      case Ok(es) => Ok([ParseLine(lines[0])] + es)
      case Invalid(n) => Invalid(n + 1)
      case Overflow(n) => Overflow(n + 1)
  }

  /** The read loop succeeds exactly when every line is `LineOk`, and then
      yields the edge of each line, in file order. */
  lemma {:induction false} ParseEdgesOk(lines: seq<string>)
    ensures ParseEdges(lines).Ok? <==> forall i :: 0 <= i < |lines| ==> LineOk(lines[i])
    ensures ParseEdges(lines).Ok? ==> forall i :: 0 <= i < |lines| ==>
              ParseEdges(lines).value[i] == ParseLine(lines[i]) && InRange(ParseEdges(lines).value[i])
  {
    if |lines| > 0 {
      ParseEdgesOk(lines[1..]);
      TailIndices(lines);
    }
  }

  /** A failed read names the first line that is not `LineOk`, and says
      whether the grammar or `stoi` rejected it. */
  lemma {:induction false} ParseEdgesError(lines: seq<string>)
    requires !ParseEdges(lines).Ok?
    ensures forall i :: 0 <= i < ParseEdges(lines).lineNumber - 1 ==> LineOk(lines[i])
    ensures !LineOk(lines[ParseEdges(lines).lineNumber - 1])
    ensures ParseEdges(lines) == LineError(lines[ParseEdges(lines).lineNumber - 1], ParseEdges(lines).lineNumber)
  {
    if LineOk(lines[0]) {
      var r, t := ParseEdges(lines), ParseEdges(lines[1..]);
      assert !t.Ok? && r.lineNumber == t.lineNumber + 1;
      ParseEdgesError(lines[1..]);
      TailIndices(lines);
      assert lines[r.lineNumber - 1] == lines[1..][t.lineNumber - 1];
    }
  }

  /** The loop reports the first line it cannot get past, with its kind. */
  lemma {:induction false} FirstBadLine(lines: seq<string>, i: nat)
    requires i < |lines| && !LineOk(lines[i])
    requires forall j :: 0 <= j < i ==> LineOk(lines[j])
    ensures ParseEdges(lines) == LineError(lines[i], i + 1)
  {
    if i > 0 {
      assert LineOk(lines[0]);
      TailIndices(lines);
      FirstBadLine(lines[1..], i - 1);
    }
  }

  /** In an accepted line the only place a space can be is the separator. */
  lemma SpaceIsSeparator(line: string)
    requires IsEdgeLine(line) && ' ' in line
    ensures line[Separator(line)] == ' '
  {
    EdgeLineShape(line);
    var p := Separator(line);
    CanonicalDigits(line[..p]);
    CanonicalDigits(line[p + 1..]);
  }

  /** Where the grammar's reading and the program's `split`/`stoi` reading
      meet: when every line of an accepted file holds a space, the program
      reads exactly the edges `ParseEdges` yields. Only lines whose single
      separator is another whitespace character tell them apart. */
  lemma ParseEdgesOnSpaces(lines: seq<string>)
    requires ParseEdges(lines).Ok?
    requires forall i :: 0 <= i < |lines| ==> ' ' in lines[i]
    ensures forall i :: 0 <= i < |lines| ==>
              IsEdgeLine(lines[i]) && ParseLineAsWritten(lines[i]) == Some(ParseEdges(lines).value[i])
  {
    ParseEdgesOk(lines);
    forall i | 0 <= i < |lines|
      ensures IsEdgeLine(lines[i]) && ParseLineAsWritten(lines[i]) == Some(ParseEdges(lines).value[i])
    {
      SpaceIsSeparator(lines[i]);
      ParseLineAsWrittenOnSpace(lines[i]);
    }
  }

  lemma TailIndices(lines: seq<string>)
    requires |lines| >= 1
    ensures forall i :: 1 <= i < |lines| ==> lines[1..][i - 1] == lines[i]
  {
  }
}
