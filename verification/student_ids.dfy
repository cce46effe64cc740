/** Student ids: a fixed prefix followed by the shared counter written in decimal,
    zero-padded to at least four digits (Python's `{n:04d}` on a non-negative `n`). */
module StudentIds {
  import opened Common

  const IdPrefix: string := "UOB-"
  const PadWidth: nat := 4

  predicate IsDigit(ch: char) {
    '0' <= ch <= '9'
  }

  predicate AllDigits(s: string) {
    forall i :: 0 <= i < |s| ==> IsDigit(s[i])
  }

  function DigitChar(d: nat): (ch: char)
    requires d < 10
    ensures IsDigit(ch)
  {
    ('0' as int + d) as char
  }

  function DigitValue(ch: char): (d: nat)
    requires IsDigit(ch)
    ensures d < 10
  {
    ch as int - '0' as int
  }

  /** The shortest decimal numeral of `n` (no leading zero except for `0` itself). */
  function Decimal(n: nat): (s: string)
    ensures |s| >= 1 && AllDigits(s)
    ensures n >= 10 ==> s[0] != '0'
    decreases n
  {
    if n < 10 then [DigitChar(n)] else Decimal(n / 10) + [DigitChar(n % 10)]
  }

  /** Left-pads a numeral with zeros up to `width` characters; never truncates. */
  function PadTo(s: string, width: nat): (r: string)
    requires AllDigits(s)
    ensures AllDigits(r)
    ensures |r| == if |s| < width then width else |s|
    decreases width - |s|
  {
    if |s| >= width then s else PadTo(['0'] + s, width)
  }

  /** `{n:04d}`: the numeral of `n` left-padded with zeros to four characters. */
  function Pad(n: nat): (s: string)
    ensures AllDigits(s)
    ensures |s| == if |Decimal(n)| < PadWidth then PadWidth else |Decimal(n)|
  {
    PadTo(Decimal(n), PadWidth)
  }

  /** The number a digit string denotes; leading zeros contribute nothing. */
  function Value(s: string): nat
    requires AllDigits(s)
    decreases |s|
  {
    if |s| == 0 then 0 else Value(s[..|s| - 1]) * 10 + DigitValue(s[|s| - 1])
  }

  lemma {:induction false} DecimalValue(n: nat)
    ensures Value(Decimal(n)) == n
    decreases n
  {
    if n >= 10 {
      var s := Decimal(n);
      assert s[..|s| - 1] == Decimal(n / 10);
      DecimalValue(n / 10);
    }
  }

  /** A leading zero does not change the number a numeral denotes. */
  lemma {:induction false} LeadingZeroValue(t: string)
    requires AllDigits(t)
    ensures AllDigits(['0'] + t) && Value(['0'] + t) == Value(t)
    decreases |t|
  {
    var s := ['0'] + t;
    if |t| > 0 {
      assert s[..|s| - 1] == ['0'] + t[..|t| - 1];
      LeadingZeroValue(t[..|t| - 1]);
    } else {
      assert s[..|s| - 1] == [];
    }
  }

  lemma {:induction false} PadToValue(s: string, width: nat)
    requires AllDigits(s)
    ensures Value(PadTo(s, width)) == Value(s)
    decreases width - |s|
  {
    if |s| < width {
      LeadingZeroValue(s);
      PadToValue(['0'] + s, width);
    }
  }

  /** Padding loses nothing: the padded numeral still denotes `n`. */
  lemma PadValue(n: nat)
    ensures Value(Pad(n)) == n
  {
    DecimalValue(n);
    PadToValue(Decimal(n), PadWidth);
  }

  /** The id handed out for counter value `n`. */
  function StudentId(n: nat): string {
    IdPrefix + Pad(n)
  }

  /** Reads the digits after the prefix as a counter value; `None` when the prefix is
      missing or a non-digit follows it. Any number of digits is accepted, including none. */
  function ParseId(s: string): (r: Option<nat>)
    ensures r.Some? ==> |s| >= |IdPrefix| && s[..|IdPrefix|] == IdPrefix
  {
    if |s| >= |IdPrefix| && s[..|IdPrefix|] == IdPrefix && AllDigits(s[|IdPrefix|..])
    then Some(Value(s[|IdPrefix|..]))
    else None
  }

  /** Round trip: every id carries the counter it was made from. */
  lemma ParseStudentId(n: nat)
    ensures ParseId(StudentId(n)) == Some(n)
    ensures |StudentId(n)| >= |IdPrefix| + PadWidth
  {
    var s := StudentId(n);
    assert s[..|IdPrefix|] == IdPrefix;
    assert s[|IdPrefix|..] == Pad(n);
    PadValue(n);
  }

  /** Distinct counter values give distinct ids. */
  lemma StudentIdInjective(a: nat, b: nat)
    ensures StudentId(a) == StudentId(b) <==> a == b
  {
    ParseStudentId(a);
    ParseStudentId(b);
  }
}
