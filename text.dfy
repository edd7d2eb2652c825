/** The text the completion log is made of: integers as `std::ostream`
    writes them (an optional minus sign and the decimal digits of the
    magnitude, no leading zeros), and comma-separated lines. The parsing
    functions are the inverses the model proves the formatting against. */
module Text {
  import opened Wrappers

  predicate IsDigit(c: char)
  {
    '0' <= c <= '9'
  }

  predicate AllDigits(s: string)
  {
    forall i :: 0 <= i < |s| ==> IsDigit(s[i])
  }

  function DigitChar(d: nat): (c: char)
    requires d < 10
    ensures IsDigit(c) && DigitValue(c) == d
  {
    ('0' as int + d) as char
  }

  function DigitValue(c: char): (d: nat)
    requires IsDigit(c)
    ensures d < 10
  {
    c as int - '0' as int
  }

  /** The decimal digits of `n`: at least one, and no leading zero. */
  function NatToDecimal(n: nat): (s: string)
    ensures |s| >= 1 && AllDigits(s)
    ensures |s| > 1 ==> s[0] != '0'
    decreases n
  {
    if n < 10 then [DigitChar(n)] else NatToDecimal(n / 10) + [DigitChar(n % 10)]
  }

  /** The number a string of decimal digits denotes. */
  function DecimalValue(s: string): (n: nat)
    requires AllDigits(s)
    decreases |s|
  {
    if s == [] then 0 else DecimalValue(s[..|s| - 1]) * 10 + DigitValue(s[|s| - 1])
  }

  lemma {:induction false} NatToDecimalRoundTrip(n: nat)
    ensures DecimalValue(NatToDecimal(n)) == n
    decreases n
  {
    if n >= 10 {
      NatToDecimalRoundTrip(n / 10);
      var s := NatToDecimal(n);
      assert s[..|s| - 1] == NatToDecimal(n / 10);
    }
  }

  /** `std::ostream << n` for an integer `n`. */
  function IntToDecimal(n: int): (s: string)
    ensures |s| >= 1
    ensures s[0] == '-' <==> n < 0
  {
    if n < 0 then "-" + NatToDecimal(-n) else NatToDecimal(n)
  }

  /** Reads back what `IntToDecimal` writes; `None` for anything else. */
  function ParseInt(s: string): (r: Option<int>)
  {
    if |s| > 1 && s[0] == '-' && AllDigits(s[1..]) then Some(-(DecimalValue(s[1..]) as int))
    else if |s| > 0 && AllDigits(s) then Some(DecimalValue(s) as int)
    else None
  }

  /** A string of digits holds no comma, line break or minus sign. */
  lemma DigitsAvoid(s: string)
    requires AllDigits(s)
    ensures ',' !in s && '\n' !in s && '-' !in s
  {
    forall i | 0 <= i < |s| ensures s[i] != ',' && s[i] != '\n' && s[i] != '-' {
      assert IsDigit(s[i]);
    }
  }

  /** Every integer is written so that it can be read back, and the text
      holds neither a comma nor a line break. */
  lemma IntToDecimalRoundTrip(n: int)
    ensures ParseInt(IntToDecimal(n)) == Some(n)
    ensures ',' !in IntToDecimal(n) && '\n' !in IntToDecimal(n)
  {
    var s := IntToDecimal(n);
    if n < 0 {
      var d := NatToDecimal(-n);
      NatToDecimalRoundTrip(-n);
      DigitsAvoid(d);
      assert s == "-" + d && s[1..] == d;
      assert ParseInt(s) == Some(n);
    } else {
      NatToDecimalRoundTrip(n);
      DigitsAvoid(s);
    }
  }

  /** The fields written one after another with `sep` between them. */
  function Join(fields: seq<string>, sep: char): (s: string)
    requires |fields| > 0
    decreases |fields|
  {
    if |fields| == 1 then fields[0] else fields[0] + [sep] + Join(fields[1..], sep)
  }

  /** The position of the first `c` in `s`, or `|s|` when there is none. */
  function IndexOf(s: string, c: char): (i: nat)
    ensures i <= |s|
    ensures i < |s| ==> s[i] == c
    ensures forall j :: 0 <= j < i ==> s[j] != c
    decreases |s|
  {
    if |s| == 0 then 0 else if s[0] == c then 0 else 1 + IndexOf(s[1..], c)
  }

  /** The pieces of `s` between occurrences of `sep`. */
  function Split(s: string, sep: char): (fields: seq<string>)
    ensures |fields| >= 1
    decreases |s|
  {
    var i := IndexOf(s, sep);
    if i == |s| then [s] else [s[..i]] + Split(s[i + 1..], sep)
  }

  /** Splitting undoes joining when no field contains the separator. */
  lemma {:induction false} SplitJoin(fields: seq<string>, sep: char)
    requires |fields| > 0
    requires forall k :: 0 <= k < |fields| ==> sep !in fields[k]
    ensures Split(Join(fields, sep), sep) == fields
    decreases |fields|
  {
    var s := Join(fields, sep);
    var i := IndexOf(s, sep);
    if |fields| == 1 {
      assert i == |s|;
    } else {
      var rest := Join(fields[1..], sep);
      assert s == fields[0] + [sep] + rest;
      assert s[|fields[0]|] == sep;
      assert i == |fields[0]|;
      assert s[..i] == fields[0];
      assert s[i + 1..] == rest;
      SplitJoin(fields[1..], sep);
      assert fields == [fields[0]] + fields[1..];
    }
  }

  /** Joining fields that all lack `c`, with a separator other than `c`,
      gives a text without `c`. */
  lemma {:induction false} JoinAvoids(fields: seq<string>, sep: char, c: char)
    requires |fields| > 0 && c != sep
    requires forall k :: 0 <= k < |fields| ==> c !in fields[k]
    ensures c !in Join(fields, sep)
    decreases |fields|
  {
    if |fields| > 1 {
      JoinAvoids(fields[1..], sep, c);
    }
  }

  /** A line made of fields free of the separator and of line breaks,
      joined by the separator and ended by a line break, holds one line
      break, at its end, and splits back into those fields. */
  lemma LineOfFields(fields: seq<string>, sep: char)
    requires |fields| > 0 && sep != '\n'
    requires forall k :: 0 <= k < |fields| ==> sep !in fields[k] && '\n' !in fields[k]
    ensures var line := Join(fields, sep) + "\n";
      && |line| > 0 && line[|line| - 1] == '\n' && '\n' !in line[..|line| - 1]
      && Split(line[..|line| - 1], sep) == fields
  {
    var line := Join(fields, sep) + "\n";
    assert line[..|line| - 1] == Join(fields, sep);
    SplitJoin(fields, sep);
    JoinAvoids(fields, sep, '\n');
  }
}
