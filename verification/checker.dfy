/** The output checker: two result files, lines `<label> = <number>` with the
    label a page id or `s` (the checksum line), are compared line by line.
    A malformed line aborts the comparison; values whose difference exceeds
    the tolerance are reported and the scan goes on. */
module Checker {
  import opened Text

  // ---------------------------------------------------------------------------
  // The result-line grammar `((0|[1-9][0-9]*)|s)\s=\s([0-9]*[.])?[0-9]+(e[+|-]?[0-9]+)?`
  // ---------------------------------------------------------------------------

  /** A label: a canonical page id or the checksum label `s`. */
  predicate IsLabel(s: string)
  {
    IsCanonicalId(s) || s == "s"
  }

  /** `([0-9]*[.])?[0-9]+`: digits, or digits, a point and at least one digit. */
  predicate IsMantissa(m: string)
  {
    || IsNumeral(m)
    || exists q :: 0 <= q < |m| && m[q] == '.' && AllDigits(m[..q]) && IsNumeral(m[q + 1..])
  }

  /** The bracket `[+|-]` lists `|` as well as the two signs. */
  predicate IsSign(c: char)
  {
    c == '+' || c == '|' || c == '-'
  }

  /** `e[+|-]?[0-9]+` */
  predicate IsExponent(x: string)
  {
    |x| >= 2 && x[0] == 'e' && (IsNumeral(x[1..]) || (IsSign(x[1]) && IsNumeral(x[2..])))
  }

  /** `([0-9]*[.])?[0-9]+(e[+|-]?[0-9]+)?` */
  predicate IsNumber(s: string)
  {
    || IsMantissa(s)
    || exists e :: 0 < e < |s| && IsMantissa(s[..e]) && IsExponent(s[e..])
  }

  /** `line` is a label ending at `p`, a whitespace character, `=`, another
      whitespace character, and a number. */
  predicate ShapedAt(line: string, p: nat)
  {
    p + 3 <= |line| && IsLabel(line[..p]) && IsSpace(line[p]) && line[p + 1] == '=' && IsSpace(line[p + 2])
    && IsNumber(line[p + 3..])
  }

  /** The whole line matches the grammar. */
  predicate IsResultLine(line: string)
  {
    exists p :: 0 <= p <= |line| && ShapedAt(line, p)
  }

  /** Where an accepted line's label ends: after the `s`, or after the leading digits. */
  function LabelEnd(line: string): nat
  {
    if |line| > 0 && line[0] == 's' then 1 else DigitRun(line)
  }

  lemma LabelDigits(s: string)
    requires IsCanonicalId(s)
    ensures AllDigits(s) && |s| >= 1
  {
    if s == "0" { assert s[0] == '0'; }
  }

  /** A label followed by whitespace ends where `LabelEnd` says. */
  lemma LabelEndAt(line: string, p: nat)
    requires p < |line| && IsLabel(line[..p]) && IsSpace(line[p])
    ensures LabelEnd(line) == p
  {
    if line[..p] == "s" {
      assert line[0] == 's';
    } else {
      LabelDigits(line[..p]);
      assert line[0] == line[..p][0];
      DigitRunAt(line, p);
    }
  }

  /** A run of `p` digits followed by a non-digit is the leading digit run. */
  lemma DigitRunAt(s: string, p: nat)
    requires p < |s| && AllDigits(s[..p]) && !IsDigit(s[p])
    ensures DigitRun(s) == p
  {
    var k := DigitRun(s);
    forall i | 0 <= i < p
      ensures IsDigit(s[i])
    {
      assert s[..p][i] == s[i];
    }
    forall i | 0 <= i < k
      ensures IsDigit(s[i])
    {
      assert s[..k][i] == s[i];
    }
  }

  /** The grammar is unambiguous: an accepted line has its label exactly up
      to `LabelEnd`. */
  lemma ResultLineShape(line: string)
    ensures IsResultLine(line) <==> ShapedAt(line, LabelEnd(line))
  {
    if IsResultLine(line) {
      var p :| 0 <= p <= |line| && ShapedAt(line, p);
      LabelEndAt(line, p);
    }
  }

  /** The label of an accepted line. */
  function ResultLabel(line: string): (name: string)
    requires IsResultLine(line)
    ensures IsLabel(name)
  {
    ResultLineShape(line);
    line[..LabelEnd(line)]
  }

  /** The number of an accepted line: everything after the second whitespace. */
  function ResultValue(line: string): (value: string)
    requires IsResultLine(line)
    ensures IsNumber(value)
  {
    ResultLineShape(line);
    line[LabelEnd(line) + 3..]
  }

  /** The two whitespace characters around the `=` of an accepted line. */
  function Gaps(line: string): (gaps: (char, char))
    requires IsResultLine(line)
    ensures IsSpace(gaps.0) && IsSpace(gaps.1)
  {
    ResultLineShape(line);
    (line[LabelEnd(line)], line[LabelEnd(line) + 2])
  }

  /** A result line as the programs write it: `label = value`. */
  function FormatResult(name: string, value: string): string
  {
    name + " = " + value
  }

  lemma NoSpaceInLabel(name: string)
    requires IsLabel(name)
    ensures ' ' !in name && '=' !in name
  {
    if name != "s" {
      LabelDigits(name);
      forall i | 0 <= i < |name|
        ensures name[i] != ' ' && name[i] != '='
      {
        assert IsDigit(name[i]);
      }
    }
  }

  lemma NoSpaceInDigitRun(s: string)
    requires AllDigits(s)
    ensures ' ' !in s
  {
    forall i | 0 <= i < |s|
      ensures s[i] != ' '
    {
      assert IsDigit(s[i]);
    }
  }

  lemma NoSpaceInMantissa(m: string)
    requires IsMantissa(m)
    ensures ' ' !in m
  {
    if IsNumeral(m) {
      NoSpaceInDigitRun(m);
    } else {
      var q :| 0 <= q < |m| && m[q] == '.' && AllDigits(m[..q]) && IsNumeral(m[q + 1..]);
      NoSpaceInDigitRun(m[..q]);
      NoSpaceInDigitRun(m[q + 1..]);
      NoSpaceAround(m, q);
    }
  }

  lemma NoSpaceInExponent(x: string)
    requires IsExponent(x)
    ensures ' ' !in x
  {
    if IsNumeral(x[1..]) {
      NoSpaceInDigitRun(x[1..]);
      assert x == [x[0]] + x[1..];
    } else {
      NoSpaceInDigitRun(x[2..]);
      assert x == [x[0], x[1]] + x[2..];
    }
  }

  /** A number contains no space. */
  lemma NoSpaceInNumber(s: string)
    requires IsNumber(s)
    ensures ' ' !in s
  {
    if IsMantissa(s) {
      NoSpaceInMantissa(s);
    } else {
      var e :| 0 < e < |s| && IsMantissa(s[..e]) && IsExponent(s[e..]);
      NoSpaceInMantissa(s[..e]);
      NoSpaceInExponent(s[e..]);
      NoSpaceInParts(s, e);
    }
  }

  lemma NoSpaceAround(s: string, q: nat)
    requires q < |s| && s[q] != ' ' && ' ' !in s[..q] && ' ' !in s[q + 1..]
    ensures ' ' !in s
  {
    assert s == s[..q] + [s[q]] + s[q + 1..];
  }

  lemma NoSpaceInParts(s: string, e: nat)
    requires e <= |s| && ' ' !in s[..e] && ' ' !in s[e..]
    ensures ' ' !in s
  {
    assert s == s[..e] + s[e..];
  }

  /** Every written result line is accepted and reads back as its label and value. */
  lemma FormatResultParses(name: string, value: string)
    requires IsLabel(name) && IsNumber(value)
    ensures IsResultLine(FormatResult(name, value))
    ensures ResultLabel(FormatResult(name, value)) == name
    ensures ResultValue(FormatResult(name, value)) == value
  {
    var line := FormatResult(name, value);
    var p := |name|;
    assert line[..p] == name && line[p] == ' ' && line[p + 1] == '=' && line[p + 2] == ' ';
    assert line[p + 3..] == value;
    assert ShapedAt(line, p);
    LabelEndAt(line, p);
  }

  /** Conversely, an accepted line with spaces around `=` is exactly the
      rendering of its label and value. */
  lemma ResultLineFormats(line: string)
    requires IsResultLine(line)
    requires Gaps(line) == (' ', ' ')
    ensures FormatResult(ResultLabel(line), ResultValue(line)) == line
  {
    ResultLineShape(line);
    Reassemble(line, LabelEnd(line));
  }

  /** A line with ` = ` at `p` is the text before it, ` = `, and the text after. */
  lemma Reassemble(line: string, p: nat)
    requires p + 3 <= |line| && line[p] == ' ' && line[p + 1] == '=' && line[p + 2] == ' '
    ensures line[..p] + " = " + line[p + 3..] == line
  {
    assert line == line[..p] + [line[p], line[p + 1], line[p + 2]] + line[p + 3..];
  }

  /** The exponent bracket admits `|`: "0 = 1e|5" is accepted. */
  lemma BarExponentAccepted()
    ensures IsResultLine("0 = 1e|5")
  {
    var line := "0 = 1e|5";
    var v := line[4..];
    assert v[..1] == "1" && v[1..] == "e|5";
    assert IsMantissa(v[..1]);
    assert IsExponent(v[1..]) by {
      assert "e|5"[2..] == "5";
    }
    assert IsNumber(v);
    assert line[..1] == "0";
    assert ShapedAt(line, 1);
  }

  // ---------------------------------------------------------------------------
  // The value field as the checker reads it
  // ---------------------------------------------------------------------------

  /** `split(line, ' ')[2]`: `None` marks a read past the end of the vector
      (undefined behaviour in the program). */
  function ValueField(line: string): (r: Option<string>)
  {
    var fields := Split(line, ' ');
    if |fields| >= 3 then Some(fields[2]) else None
  }

  /** A written result line splits at its spaces into label, `=` and value. */
  lemma SplitFormatted(name: string, value: string)
    requires IsLabel(name) && IsNumber(value)
    ensures Split(FormatResult(name, value), ' ') == [name, "=", value]
  {
    NoSpaceInLabel(name);
    NoSpaceInNumber(value);
    var pieces := [name, "=", value];
    assert pieces[1..] == ["=", value] && pieces[1..][1..] == [value];
    assert Join(["=", value], ' ') == "=" + [' '] + value;
    assert Join(pieces, ' ') == name + [' '] + ("=" + [' '] + value);
    assert FormatResult(name, value) == Join(pieces, ' ');
    SplitJoin(pieces, ' ');
  }

  /** On space-separated lines the checker reads the intended number. */
  lemma ValueFieldOnSpaces(line: string)
    requires IsResultLine(line)
    requires Gaps(line) == (' ', ' ')
    ensures ValueField(line) == Some(ResultValue(line))
  {
    ResultLineFormats(line);
    SplitFormatted(ResultLabel(line), ResultValue(line));
  }

  /** The grammar admits tabs around `=`, but `split` cuts only at spaces:
      "0\t=\t1" is accepted and then yields a single field. */
  lemma TabSeparatedResultHasOneField()
    ensures IsResultLine("0\t=\t1")
    ensures ValueField("0\t=\t1") == None
  {
    var line := "0\t=\t1";
    assert line[..1] == "0" && line[4..] == "1";
    assert IsNumber(line[4..]);
    assert ShapedAt(line, 1);
    assert ' ' !in line;
    SplitWithout(line, ' ');
  }

  // ---------------------------------------------------------------------------
  // The scan
  // ---------------------------------------------------------------------------

  /** The checker's result: one of the files could not be opened; a line
      failed the grammar (exit status 1, with its 1-based number); or the scan
      finished ("check passed successfully"). `mismatches` holds the 1-based
      numbers of the lines whose values differ beyond the tolerance, in the
      order they were reported, up to the end of the scan or up to the line
      that aborted it. */
  datatype Verdict = CannotOpen | Aborted(lineNumber: nat, mismatches: seq<nat>) | Passed(mismatches: seq<nat>)

  /** What the loop takes from one line: its number when the line matches
      the grammar, `None` when it does not. */
  function Read(line: string): Option<string>
  {
    if IsResultLine(line) then Some(ResultValue(line)) else None
  }

  /** Both lines of pair `j` are readable. */
  predicate PairOk(a: seq<string>, b: seq<string>, read: string -> Option<string>, j: nat)
    requires j < |a| && j < |b|
  {
    read(a[j]).Some? && read(b[j]).Some?
  }

  /** The number of line pairs the loop reads: it stops when either file ends. */
  function PairCount(a: seq<string>, b: seq<string>): nat
  {
    if |a| < |b| then |a| else |b|
  }

  /** Index of the first of the first `n` pairs that is not `PairOk`, or `n`. */
  function FirstMalformed(a: seq<string>, b: seq<string>, read: string -> Option<string>, n: nat): (k: nat)
    requires n <= |a| && n <= |b|
    ensures k <= n
    ensures forall j :: 0 <= j < k ==> read(a[j]).Some? && read(b[j]).Some?
    ensures k < n ==> !PairOk(a, b, read, k)
  {
    if n == 0 then 0
    else
      var k := FirstMalformed(a, b, read, n - 1);
      if k < n - 1 then k else if PairOk(a, b, read, n - 1) then n else n - 1
  }

  /** The 1-based numbers of the first `n` pairs whose values `differ`, in
      increasing order. */
  function MismatchLines(a: seq<string>, b: seq<string>, read: string -> Option<string>,
                         differ: (string, string) -> bool, n: nat): seq<nat>
    requires n <= |a| && n <= |b|
    requires forall j :: 0 <= j < n ==> read(a[j]).Some? && read(b[j]).Some?
  {
    if n == 0 then []
    else
      MismatchLines(a, b, read, differ, n - 1)
      + (if differ(read(a[n - 1]).value, read(b[n - 1]).value) then [n] else [])
  }

  /** Reference verdict for two opened files, read with `read`. */
  function Scan(a: seq<string>, b: seq<string>, read: string -> Option<string>, differ: (string, string) -> bool): Verdict
  {
    var n := PairCount(a, b);
    var k := FirstMalformed(a, b, read, n);
    if k < n then Aborted(k + 1, MismatchLines(a, b, read, differ, k)) else Passed(MismatchLines(a, b, read, differ, n))
  }

  /** `main`'s scan. `None` stands for a file that cannot be opened; `differ`
      stands for `fabs(stod(v1) - stod(v2)) > 1e-4` on the two value fields. */
  method CompareFiles(file1: Option<seq<string>>, file2: Option<seq<string>>, differ: (string, string) -> bool)
    returns (v: Verdict)
    ensures file1.None? || file2.None? ==> v == CannotOpen
    ensures file1.Some? && file2.Some? ==> v == Scan(file1.value, file2.value, Read, differ)
  {
    if file1.None? || file2.None? {
      return CannotOpen;
    }
    v := ScanLines(file1.value, file2.value, Read, differ);
  }

  /** The loop of `main`: read both files a line at a time until either
      ends, stop at the first line that is not readable, and note the line
      numbers whose values differ. */
  method ScanLines(a: seq<string>, b: seq<string>, read: string -> Option<string>, differ: (string, string) -> bool)
    returns (v: Verdict)
    ensures v == Scan(a, b, read, differ)
  {
    var mismatches: seq<nat> := [];
    var i := 0;
    while i < |a| && i < |b|
      invariant i <= PairCount(a, b)
      invariant FirstMalformed(a, b, read, i) == i
      invariant mismatches == MismatchLines(a, b, read, differ, i)
    {
      var r1, r2 := read(a[i]), read(b[i]);
      if r1.None? || r2.None? {
        MalformedStaysFirst(a, b, read, i, PairCount(a, b));
        return Aborted(i + 1, mismatches);
      }
      if differ(r1.value, r2.value) {
        mismatches := mismatches + [i + 1];
      }
      i := i + 1;
    }
    return Passed(mismatches);
  }

  /** A malformed pair after well-formed ones is the first, however many
      pairs are considered. */
  lemma {:induction false} MalformedStaysFirst(a: seq<string>, b: seq<string>, read: string -> Option<string>, i: nat, n: nat)
    requires i < n <= |a| && n <= |b|
    requires FirstMalformed(a, b, read, i) == i && !PairOk(a, b, read, i)
    ensures FirstMalformed(a, b, read, n) == i
  {
    if n > i + 1 {
      MalformedStaysFirst(a, b, read, i, n - 1);
    }
  }

  /** The reported lines are exactly those whose values differ. */
  lemma {:induction false} MismatchMembers(a: seq<string>, b: seq<string>, read: string -> Option<string>,
                                           differ: (string, string) -> bool, n: nat, m: nat)
    requires n <= |a| && n <= |b|
    requires forall j :: 0 <= j < n ==> read(a[j]).Some? && read(b[j]).Some?
    ensures m in MismatchLines(a, b, read, differ, n) <==>
              1 <= m <= n && differ(read(a[m - 1]).value, read(b[m - 1]).value)
  {
    if n > 0 {
      MismatchMembers(a, b, read, differ, n - 1, m);
    }
  }

  /** ... and they are reported in increasing order, each once. */
  lemma {:induction false} MismatchesIncrease(a: seq<string>, b: seq<string>, read: string -> Option<string>,
                                              differ: (string, string) -> bool, n: nat)
    requires n <= |a| && n <= |b|
    requires forall j :: 0 <= j < n ==> read(a[j]).Some? && read(b[j]).Some?
    ensures forall i, j :: 0 <= i < j < |MismatchLines(a, b, read, differ, n)| ==>
              MismatchLines(a, b, read, differ, n)[i] < MismatchLines(a, b, read, differ, n)[j]
  {
    if n > 0 {
      var p := MismatchLines(a, b, read, differ, n - 1);
      var r := MismatchLines(a, b, read, differ, n);
      MismatchesIncrease(a, b, read, differ, n - 1);
      forall i, j | 0 <= i < j < |r|
        ensures r[i] < r[j]
      {
        assert r[i] == p[i];
        if j < |p| {
          assert r[j] == p[j];
        } else {
          MismatchMembers(a, b, read, differ, n - 1, p[i]);
        }
      }
    }
  }

  /** Lines beyond the end of the shorter file are never read. */
  lemma SurplusIgnored(a: seq<string>, b: seq<string>, extra: seq<string>,
                       read: string -> Option<string>, differ: (string, string) -> bool)
    requires |a| <= |b|
    ensures Scan(a, b + extra, read, differ) == Scan(a, b, read, differ)
    ensures Scan(b + extra, a, read, differ) == Scan(b, a, read, differ)
  {
    var n := |a|;
    assert PairCount(a, b + extra) == PairCount(a, b) == n;
    SamePrefixSameScan(a, b + extra, a, b, read, differ, n);
    SamePrefixSameScan(b + extra, a, b, a, read, differ, n);
    var k := FirstMalformed(a, b, read, n);
    assert (b + extra)[..k] == b[..k];
    SamePrefixSameMismatches(a, b + extra, a, b, read, differ, k);
    SamePrefixSameMismatches(b + extra, a, b, a, read, differ, k);
  }

  /** The mismatches among the first `m` readable pairs depend only on those pairs. */
  lemma {:induction false} SamePrefixSameMismatches(a: seq<string>, b: seq<string>, a': seq<string>, b': seq<string>,
                                                    read: string -> Option<string>, differ: (string, string) -> bool, m: nat)
    requires m <= |a| && m <= |b| && m <= |a'| && m <= |b'|
    requires a[..m] == a'[..m] && b[..m] == b'[..m]
    requires forall j :: 0 <= j < m ==> read(a[j]).Some? && read(b[j]).Some?
    ensures forall j :: 0 <= j < m ==> read(a'[j]).Some? && read(b'[j]).Some?
    ensures MismatchLines(a, b, read, differ, m) == MismatchLines(a', b', read, differ, m)
  {
    assert forall j :: 0 <= j < m ==> a'[j] == a[..m][j] == a[j] && b'[j] == b[..m][j] == b[j];
    if m > 0 {
      assert a[..m - 1] == a[..m][..m - 1] && a'[..m - 1] == a'[..m][..m - 1];
      assert b[..m - 1] == b[..m][..m - 1] && b'[..m - 1] == b'[..m][..m - 1];
      SamePrefixSameMismatches(a, b, a', b', read, differ, m - 1);
    }
  }

  /** The scan of the first `n` pairs depends only on those pairs. */
  lemma {:induction false} SamePrefixSameScan(a: seq<string>, b: seq<string>, a': seq<string>, b': seq<string>,
                                              read: string -> Option<string>, differ: (string, string) -> bool, n: nat)
    requires n <= |a| && n <= |b| && n <= |a'| && n <= |b'|
    requires a[..n] == a'[..n] && b[..n] == b'[..n]
    ensures FirstMalformed(a, b, read, n) == FirstMalformed(a', b', read, n)
    ensures FirstMalformed(a, b, read, n) == n ==>
              MismatchLines(a, b, read, differ, n) == MismatchLines(a', b', read, differ, n)
  {
    if n > 0 {
      assert a[n - 1] == a[..n][n - 1] == a'[n - 1];
      assert b[n - 1] == b[..n][n - 1] == b'[n - 1];
      assert a[..n - 1] == a'[..n - 1] && b[..n - 1] == b'[..n - 1];
      SamePrefixSameScan(a, b, a', b', read, differ, n - 1);
    }
  }

  /** A mismatch reported before a malformed line stays reported: line 1
      differs, line 2 fails the grammar, and the run stops at line 2. */
  lemma MismatchBeforeAbort()
    ensures Scan(["0 = 1", "x"], ["0 = 2", "x"], Read, (x: string, y: string) => x != y) == Aborted(2, [1])
  {
    ReadExamples();
    ScanAbortAtSecond(["0 = 1", "x"], ["0 = 2", "x"], Read, (x: string, y: string) => x != y);
  }

  /** A mismatch is reported but does not stop the scan: the check still
      passes. */
  lemma PassedDespiteMismatch()
    ensures Scan(["0 = 1"], ["0 = 2"], Read, (x: string, y: string) => x != y) == Passed([1])
  {
    ReadExamples();
    ScanOnePair(["0 = 1"], ["0 = 2"], Read, (x: string, y: string) => x != y);
  }

  /** How the example lines read. */
  lemma ReadExamples()
    ensures Read("0 = 1") == Some("1") && Read("0 = 2") == Some("2") && Read("x") == None
  {
    ReadFormatted("0", "1");
    ReadFormatted("0", "2");
    assert FormatResult("0", "1") == "0 = 1" && FormatResult("0", "2") == "0 = 2";
    assert !IsResultLine("x");
  }

  /** Two pairs, the first readable and the second not: the scan stops at
      line 2, having reported line 1 iff its values differ. */
  lemma ScanAbortAtSecond(a: seq<string>, b: seq<string>, read: string -> Option<string>, differ: (string, string) -> bool)
    requires |a| == 2 && |b| == 2 && read(a[0]).Some? && read(b[0]).Some? && read(a[1]).None?
    ensures Scan(a, b, read, differ) == Aborted(2, if differ(read(a[0]).value, read(b[0]).value) then [1] else [])
  {
    assert FirstMalformed(a, b, read, 1) == 1;
    assert FirstMalformed(a, b, read, 2) == 1;
    assert MismatchLines(a, b, read, differ, 0) == [];
  }

  /** The scan of one pair of readable lines. */
  lemma ScanOnePair(a: seq<string>, b: seq<string>, read: string -> Option<string>, differ: (string, string) -> bool)
    requires |a| == 1 && |b| == 1 && read(a[0]).Some? && read(b[0]).Some?
    ensures Scan(a, b, read, differ) == Passed(if differ(read(a[0]).value, read(b[0]).value) then [1] else [])
  {
    assert FirstMalformed(a, b, read, 1) == 1;
    assert MismatchLines(a, b, read, differ, 0) == [];
  }

  /** A written result line reads as its value. */
  lemma ReadFormatted(name: string, value: string)
    requires IsLabel(name) && IsNumber(value)
    ensures Read(FormatResult(name, value)) == Some(value)
  {
    FormatResultParses(name, value);
  }
}
