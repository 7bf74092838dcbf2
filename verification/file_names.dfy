/** The expected planning file names: one name per year in the half-open
    range [FirstYear, EndYear), each the fixed prefix, the year in decimal
    and the ".xlsx" suffix. An upload is accepted only by exact membership. */
module FileNames {
  import opened Wrappers
  import opened Seqs

  const Prefix: string := "Consultation du planning des af "
  const Suffix: string := ".xlsx"
  const FirstYear: nat := 2015
  const EndYear: nat := 2025

  predicate IsDigit(c: char) {
    '0' <= c <= '9'
  }

  predicate AllDigits(s: string) {
    forall i :: 0 <= i < |s| ==> IsDigit(s[i])
  }

  function DigitChar(d: nat): (c: char)
    requires d < 10
  {
    ('0' as int + d) as char
  }

  function DigitValue(c: char): (d: nat)
    requires IsDigit(c)
  {
    c as int - '0' as int
  }

  /** The decimal rendering of a non-negative integer, as Python's `str` gives it:
      no sign, no leading zeros. */
  function DecimalText(n: nat): (s: string)
    ensures s != [] && AllDigits(s)
    decreases n
  {
    if n < 10 then [DigitChar(n)] else DecimalText(n / 10) + [DigitChar(n % 10)]
  }

  /** Reads a string of decimal digits back as a number. */
  function ParseDecimal(s: string): nat
    requires AllDigits(s)
    decreases |s|
  {
    if s == [] then 0 else ParseDecimal(s[..|s| - 1]) * 10 + DigitValue(s[|s| - 1])
  }

  /** Reading back the decimal rendering gives the number. */
  lemma {:induction false} ParseDecimalText(n: nat)
    ensures ParseDecimal(DecimalText(n)) == n
    decreases n
  {
    var s := DecimalText(n);
    if n >= 10 {
      ParseDecimalText(n / 10);
      assert s[..|s| - 1] == DecimalText(n / 10);
    }
  }

  /** A four-digit year renders as four characters. */
  lemma FourDigitYear(y: nat)
    requires 1000 <= y < 10000
    ensures |DecimalText(y)| == 4
  {
    assert DecimalText(y) == DecimalText(y / 10) + [DigitChar(y % 10)];
    assert DecimalText(y / 10) == DecimalText(y / 100) + [DigitChar(y / 10 % 10)];
    assert DecimalText(y / 100) == DecimalText(y / 1000) + [DigitChar(y / 100 % 10)];
  }

  function ExpectedName(year: nat): string {
    Prefix + DecimalText(year) + Suffix
  }

  /** The list of expected names: the names for FirstYear, FirstYear + 1, ..., EndYear - 1. */
  function ExpectedFiles(): seq<string> {
    seq(EndYear - FirstYear, i requires 0 <= i < EndYear - FirstYear => ExpectedName(FirstYear + i))
  }

  /** Acceptance test of the upload loop: exact string membership. */
  predicate IsExpected(name: string) {
    name in ExpectedFiles()
  }

  /** Recovers the year from a name of the expected shape, and nothing from any other name. */
  function YearOf(name: string): Option<nat> {
    if |name| > |Prefix| + |Suffix|
       && name[..|Prefix|] == Prefix
       && name[|name| - |Suffix|..] == Suffix
       && AllDigits(name[|Prefix|..|name| - |Suffix|])
    then
      var middle := name[|Prefix|..|name| - |Suffix|];
      assert name == Prefix + middle + Suffix;
      Some(ParseDecimal(middle))
    else None
  }

  /** The year can be read back from its expected name. */
  lemma YearOfExpectedName(y: nat)
    ensures YearOf(ExpectedName(y)) == Some(y)
  {
    var d := DecimalText(y);
    var name := ExpectedName(y);
    assert name[..|Prefix|] == Prefix;
    assert name[|name| - |Suffix|..] == Suffix;
    assert name[|Prefix|..|name| - |Suffix|] == d;
    ParseDecimalText(y);
  }

  /** Different years give different names. */
  lemma ExpectedNameInjective(y1: nat, y2: nat)
    ensures ExpectedName(y1) == ExpectedName(y2) ==> y1 == y2
  {
    YearOfExpectedName(y1);
    YearOfExpectedName(y2);
  }

  /** A name is accepted exactly when it is the expected name of a year in range. */
  lemma AcceptedIffYearInRange(name: string)
    ensures IsExpected(name) <==> exists y: nat :: FirstYear <= y < EndYear && name == ExpectedName(y)
  {
    var files := ExpectedFiles();
    if IsExpected(name) {
      var i :| 0 <= i < |files| && files[i] == name;
      assert name == ExpectedName(FirstYear + i);
    }
    if exists y: nat :: FirstYear <= y < EndYear && name == ExpectedName(y) {
      var y: nat :| FirstYear <= y < EndYear && name == ExpectedName(y);
      assert files[y - FirstYear] == name;
    }
  }

  /** Exactly ten distinct names are accepted. */
  lemma TenExpectedNames()
    ensures Distinct(ExpectedFiles())
    ensures |set n | n in ExpectedFiles()| == 10
  {
    var files := ExpectedFiles();
    forall i, j | 0 <= i < j < |files|
      ensures files[i] != files[j]
    {
      ExpectedNameInjective(FirstYear + i, FirstYear + j);
    }
    DistinctCardinality(files);
  }

  /** Every accepted name has the prefix, a four-digit year and the suffix,
      so a name with anything added in front or behind (a directory, a space) is rejected. */
  lemma AcceptedShape(name: string)
    requires IsExpected(name)
    ensures |name| == |Prefix| + 4 + |Suffix|
    ensures name[..|Prefix|] == Prefix && name[|name| - |Suffix|..] == Suffix
    ensures AllDigits(name[|Prefix|..|Prefix| + 4])
  {
    AcceptedIffYearInRange(name);
    var y: nat :| FirstYear <= y < EndYear && name == ExpectedName(y);
    FourDigitYear(y);
    assert name[|Prefix|..|Prefix| + 4] == DecimalText(y);
  }

  /** Strictness: an accepted name padded on either side is no longer accepted. */
  lemma PaddedNameRejected(before: string, name: string, after: string)
    requires IsExpected(name)
    requires before != [] || after != []
    ensures !IsExpected(before + name + after)
  {
    AcceptedShape(name);
    if IsExpected(before + name + after) {
      AcceptedShape(before + name + after);
    }
  }
}
