/** Character-level helpers shared by all four programs: the hand-written
    `split` (one identical copy in every source file), decimal digits, and the
    canonical page-id numerals the input grammars accept. */
module Text {

  /** A value that may be missing. */
  datatype Option<T> = None | Some(value: T)

  // ---------------------------------------------------------------------------
  // split
  // ---------------------------------------------------------------------------

  /** Number of occurrences of `c` in `s`. */
  function Occurrences(s: string, c: char): nat
  {
    if |s| == 0 then 0 else (if s[0] == c then 1 else 0) + Occurrences(s[1..], c)
  }

  /** Reference definition of splitting `s` at every `sep`: the pieces between
      consecutive separators, from the first character to the last. */
  function Split(s: string, sep: char): (pieces: seq<string>)
    ensures |pieces| >= 1
  {
    if |s| == 0 then [""]
    else
      var rest := Split(s[1..], sep);
      if s[0] == sep then [""] + rest
      else [[s[0]] + rest[0]] + rest[1..]
  }

  /** The pieces glued back together with one `sep` between neighbours. */
  function Join(pieces: seq<string>, sep: char): string
    requires |pieces| >= 1
  {
    if |pieces| == 1 then pieces[0] else pieces[0] + [sep] + Join(pieces[1..], sep)
  }

  /** `std::string::find(c, from)`: the first index at or after `from` that
      holds `c`, or -1 standing for `npos`. */
  function Find(s: string, c: char, from: nat): (r: int)
    requires from <= |s|
    ensures r == -1 || (from <= r < |s| && s[r] == c && c !in s[from..r])
    ensures r == -1 <==> c !in s[from..]
    decreases |s| - from
  {
    if from == |s| then -1
    else if s[from] == c then from
    else
      var r := Find(s, c, from + 1);
      assert s[from..] == [s[from]] + s[from + 1..];
      assert r != -1 ==> s[from..r] == [s[from]] + s[from + 1..r];
      r
  }

  /** The `split` loop: repeatedly `find` the next separator from `pos`, push
      `substr(prev_pos, pos - prev_pos)`, and step past it; the text after the
      last separator is pushed once the search reports `npos`. */
  method SplitString(s: string, sep: char) returns (output: seq<string>)
    ensures output == Split(s, sep)
  {
    output := [];
    var prev: nat := 0;
    var pos := Find(s, sep, 0);
    while pos != -1
      invariant prev <= |s|
      invariant pos == Find(s, sep, prev)
      invariant output + Split(s[prev..], sep) == Split(s, sep)
      decreases |s| - prev
    {
      SplitFrom(s, sep, prev, pos);
      output := output + [s[prev..pos]];
      prev := pos + 1;
      pos := Find(s, sep, prev);
    }
    SplitWithout(s[prev..], sep);
    output := output + [s[prev..]];
  }

  /** Splitting a separator-free prefix onto `t` only extends the first piece. */
  lemma {:induction false} SplitPrefix(p: string, t: string, sep: char)
    requires sep !in p
    ensures Split(p + t, sep) == [p + Split(t, sep)[0]] + Split(t, sep)[1..]
    decreases |p|
  {
    if |p| > 0 {
      assert (p + t)[1..] == p[1..] + t;
      SplitPrefix(p[1..], t, sep);
      assert [p[0]] + (p[1..] + Split(t, sep)[0]) == p + Split(t, sep)[0];
    } else {
      assert p + t == t;
      assert p + Split(t, sep)[0] == Split(t, sep)[0];
      assert [Split(t, sep)[0]] + Split(t, sep)[1..] == Split(t, sep);
    }
  }

  /** A string without the separator is a single piece. */
  lemma SplitWithout(t: string, sep: char)
    requires sep !in t
    ensures Split(t, sep) == [t]
  {
    SplitPrefix(t, "", sep);
    assert t + "" == t;
  }

  /** The first separator at index `j` cuts off exactly `t[..j]`. */
  lemma SplitAtFirst(t: string, sep: char, j: nat)
    requires j < |t| && t[j] == sep && sep !in t[..j]
    ensures Split(t, sep) == [t[..j]] + Split(t[j + 1..], sep)
  {
    assert t == t[..j] + t[j..];
    SplitPrefix(t[..j], t[j..], sep);
    assert t[j..][1..] == t[j + 1..];
    assert t[..j] + "" == t[..j];
  }

  /** The loop step of `SplitString`: the next separator at `pos` cuts off
      `s[prev..pos]` from the rest of the split. */
  lemma SplitFrom(s: string, sep: char, prev: nat, pos: nat)
    requires prev <= pos < |s| && s[pos] == sep && sep !in s[prev..pos]
    ensures Split(s[prev..], sep) == [s[prev..pos]] + Split(s[pos + 1..], sep)
  {
    var t := s[prev..];
    assert t[..pos - prev] == s[prev..pos];
    assert t[pos - prev + 1..] == s[pos + 1..];
    SplitAtFirst(t, sep, pos - prev);
  }

  /** `split` yields one more piece than there are separators. */
  lemma {:induction false} SplitCount(s: string, sep: char)
    ensures |Split(s, sep)| == Occurrences(s, sep) + 1
    decreases |s|
  {
    if |s| > 0 {
      SplitCount(s[1..], sep);
    }
  }

  /** A character occurs at least once exactly when it is in the string. */
  lemma {:induction false} OccurrencesPositive(s: string, c: char)
    ensures Occurrences(s, c) > 0 <==> c in s
    decreases |s|
  {
    if |s| > 0 {
      OccurrencesPositive(s[1..], c);
      assert s == [s[0]] + s[1..];
    }
  }

  /** No piece contains the separator. */
  lemma {:induction false} SplitPiecesAvoidSeparator(s: string, sep: char)
    ensures forall i :: 0 <= i < |Split(s, sep)| ==> sep !in Split(s, sep)[i]
    decreases |s|
  {
    if |s| > 0 {
      SplitPiecesAvoidSeparator(s[1..], sep);
      var rest := Split(s[1..], sep);
      if s[0] != sep {
        assert sep !in rest[0];
        assert forall x :: x in [s[0]] + rest[0] ==> x == s[0] || x in rest[0];
      }
    }
  }

  /** Joining the pieces with the separator gives back the input. */
  lemma {:induction false} JoinSplit(s: string, sep: char)
    ensures Join(Split(s, sep), sep) == s
    decreases |s|
  {
    if |s| > 0 {
      JoinSplit(s[1..], sep);
      var rest := Split(s[1..], sep);
      if s[0] == sep {
        assert ([""] + rest)[1..] == rest;
        assert s == [sep] + s[1..];
      } else if |rest| == 1 {
        assert s == [s[0]] + s[1..];
      } else {
        var pieces := [[s[0]] + rest[0]] + rest[1..];
        assert pieces[1..] == rest[1..];
        assert Join(rest, sep) == rest[0] + [sep] + Join(rest[1..], sep);
        assert s == [s[0]] + s[1..];
      }
    }
  }

  /** Conversely, pieces free of the separator survive a join followed by a
      split unchanged. */
  lemma {:induction false} SplitJoin(pieces: seq<string>, sep: char)
    requires |pieces| >= 1
    requires forall i :: 0 <= i < |pieces| ==> sep !in pieces[i]
    ensures Split(Join(pieces, sep), sep) == pieces
    decreases |pieces|
  {
    if |pieces| == 1 {
      SplitWithout(pieces[0], sep);
    } else {
      var tail := Join(pieces[1..], sep);
      SplitJoin(pieces[1..], sep);
      assert pieces[0] + [sep] + tail == pieces[0] + ([sep] + tail);
      SplitPrefix(pieces[0], [sep] + tail, sep);
      assert ([sep] + tail)[1..] == tail;
      assert Split([sep] + tail, sep) == [""] + pieces[1..];
      assert pieces[0] + "" == pieces[0];
      assert pieces == [pieces[0]] + pieces[1..];
    }
  }

  // ---------------------------------------------------------------------------
  // Digits, whitespace and canonical decimal numerals
  // ---------------------------------------------------------------------------

  predicate IsDigit(c: char) { '0' <= c <= '9' }

  /** The characters the regular-expression class `\s` matches in the C locale. */
  predicate IsSpace(c: char)
  {
    c == ' ' || c == '\t' || c == '\n' || c == '\r' || c as int == 0x0B || c as int == 0x0C
  }

  predicate AllDigits(s: string) { forall i :: 0 <= i < |s| ==> IsDigit(s[i]) }

  /** `[0-9]+` */
  predicate IsNumeral(s: string) { |s| >= 1 && AllDigits(s) }

  /** `0|[1-9][0-9]*`: a decimal numeral without leading zeros. */
  predicate IsCanonicalId(s: string)
  {
    s == "0" || (|s| >= 1 && '1' <= s[0] <= '9' && AllDigits(s))
  }

  function DigitValue(c: char): nat
    requires IsDigit(c)
  {
    (c as int) - ('0' as int)
  }

  function DigitChar(d: nat): (c: char)
    requires d < 10
    ensures IsDigit(c) && DigitValue(c) == d
  {
    (('0' as int) + d) as char
  }

  /** The value of a digit string, most significant digit first. */
  function NumeralValue(s: string): nat
    requires AllDigits(s)
  {
    if |s| == 0 then 0 else 10 * NumeralValue(s[..|s| - 1]) + DigitValue(s[|s| - 1])
  }

  /** The decimal rendering of `n`, as an output stream prints it. */
  function Decimal(n: nat): string
  {
    if n < 10 then [DigitChar(n)] else Decimal(n / 10) + [DigitChar(n % 10)]
  }

  /** Length of the run of digits that starts `s`. */
  function DigitRun(s: string): (k: nat)
    ensures k <= |s| && AllDigits(s[..k]) && (k < |s| ==> !IsDigit(s[k]))
    ensures AllDigits(s) ==> k == |s|
  {
    if |s| == 0 || !IsDigit(s[0]) then 0
    else
      var k := 1 + DigitRun(s[1..]);
      assert s[..k] == [s[0]] + s[1..][..k - 1];
      k
  }

  /** `std::stoi` on a string that starts with a digit: the value of the
      leading digit run; trailing text is ignored. */
  function LeadingValue(s: string): nat
  {
    NumeralValue(s[..DigitRun(s)])
  }

  /** Every numeral `Decimal` produces is canonical and denotes `n`. */
  lemma {:induction false} DecimalRoundTrip(n: nat)
    ensures IsCanonicalId(Decimal(n)) && NumeralValue(Decimal(n)) == n
    ensures n >= 1 ==> Decimal(n)[0] != '0'
    decreases n
  {
    if n >= 10 {
      DecimalRoundTrip(n / 10);
      var d := Decimal(n);
      assert d[..|d| - 1] == Decimal(n / 10);
    }
  }

  /** A canonical numeral other than "0" denotes a positive value. */
  lemma {:induction false} CanonicalPositive(s: string)
    requires IsCanonicalId(s) && s != "0"
    ensures NumeralValue(s) >= 1
    decreases |s|
  {
    if |s| > 1 {
      CanonicalPositive(s[..|s| - 1]);
    }
  }

  /** Printing the value of a canonical numeral gives the numeral back. */
  lemma {:induction false} CanonicalRoundTrip(s: string)
    requires IsCanonicalId(s)
    ensures Decimal(NumeralValue(s)) == s
    decreases |s|
  {
    if |s| > 1 {
      var p := s[..|s| - 1];
      CanonicalRoundTrip(p);
      CanonicalPositive(p);
      var v := NumeralValue(s);
      assert v / 10 == NumeralValue(p) && v % 10 == DigitValue(s[|s| - 1]);
      assert s == p + [s[|s| - 1]];
    } else if s != "0" {
      assert s == [s[0]];
    }
  }

  /** A canonical numeral is all digits, so `stoi` reads all of it. */
  lemma LeadingValueOfNumeral(s: string)
    requires AllDigits(s)
    ensures LeadingValue(s) == NumeralValue(s)
  {
    assert s[..|s|] == s;
  }
}
