/**
 Scalar cell values and their display text.

 A cell is tagged by kind. `Render` is the text a cell stringifies to: the
 text `str(value)` gives for a grouping key, and the text `astype(str)` gives
 when column widths are measured. A blank cell is a missing value, which
 stringifies as `nan`. `Other` stands for a value of a kind the spreadsheet
 writer refuses, a text holding a control character among them; it carries
 its display text and the message of the error the writer raises for it.
 */
module Cells {

  datatype Cell =
    | Text(text: string)
    | Integer(number: int)
    | Boolean(flag: bool)
    | Blank
    | Other(display: string, cause: string)

  /** The decimal digit for `d`. */
  function DigitChar(d: nat): (c: char)
    requires d < 10
    ensures '0' <= c <= '9'
    ensures DigitValue(c) == d
  {
    ('0' as int + d) as char
  }

  /** The value of a decimal digit. */
  function DigitValue(c: char): int {
    c as int - '0' as int
  }

  /** True for the decimal text of a natural number: one or more digits,
      with no leading zero unless the text is `0` itself. */
  predicate IsNatText(d: string) {
    && |d| > 0
    && (forall k :: 0 <= k < |d| ==> '0' <= d[k] <= '9')
    && (d[0] == '0' ==> |d| == 1)
  }

  /** True for the decimal text of an integer: the text of a natural number,
      or `-` followed by the text of a positive one. */
  predicate IsIntText(s: string) {
    || IsNatText(s)
    || (|s| > 1 && s[0] == '-' && IsNatText(s[1..]) && s[1] != '0')
  }

  /** Decimal text of a natural number, without leading zeros. */
  function NatToString(n: nat): (s: string)
    ensures IsNatText(s)
    ensures n > 0 ==> s[0] != '0'
  {
    if n < 10 then [DigitChar(n)] else NatToString(n / 10) + [DigitChar(n % 10)]
  }

  /** Decimal text of an integer, with a leading `-` when it is negative. */
  function IntToString(i: int): (s: string)
    ensures IsIntText(s)
    ensures (s[0] == '-') <==> i < 0
    ensures i >= 0 ==> '0' <= s[0] <= '9'
    ensures i < 0 ==> |s| > 1
    ensures s[if i < 0 then 1 else 0] == '0' ==> i == 0
  {
    if i < 0 then "-" + NatToString(-i) else NatToString(i)
  }

  /** The number a string of decimal digits denotes, most significant digit
      first. */
  function NatValue(s: string): int {
    if |s| == 0 then 0 else 10 * NatValue(s[..|s| - 1]) + DigitValue(s[|s| - 1])
  }

  /** The number a decimal text denotes, with an optional leading `-`: the
      reading `int()` gives of the text `str()` writes. */
  function DecimalValue(s: string): int {
    if |s| > 0 && s[0] == '-' then -NatValue(s[1..]) else NatValue(s)
  }

  /** The decimal text of a natural number denotes that number. */
  lemma {:induction false} NatToStringValue(n: nat)
    ensures NatValue(NatToString(n)) == n
  {
    var s := NatToString(n);
    if n >= 10 {
      NatToStringValue(n / 10);
      assert s[..|s| - 1] == NatToString(n / 10);
    } else {
      assert s[..0] == [];
    }
  }

  /** The decimal text of an integer denotes that integer, so distinct
      integers get distinct texts. */
  lemma IntToStringValue(i: int)
    ensures DecimalValue(IntToString(i)) == i
  {
    if i < 0 {
      NatToStringValue(-i);
      assert IntToString(i)[1..] == NatToString(-i);
    } else {
      NatToStringValue(i);
    }
  }

  /** A digit is the digit of its own value. */
  lemma DigitCharValue(c: char)
    requires '0' <= c <= '9'
    ensures DigitChar(DigitValue(c) as nat) == c
  {
  }

  /** The text of a natural number whose first digit is not `0` denotes a
      positive number. */
  lemma {:induction false} NatValuePositive(d: string)
    requires IsNatText(d) && d[0] != '0'
    ensures NatValue(d) >= 1
  {
    if |d| > 1 {
      var p := d[..|d| - 1];
      assert p[0] == d[0];
      NatValuePositive(p);
    }
  }

  /** A natural-number text is the text of the number it denotes. */
  lemma {:induction false} NatTextUnique(d: string)
    requires IsNatText(d)
    ensures NatValue(d) >= 0 && d == NatToString(NatValue(d))
  {
    var n := |d| - 1;
    if n == 0 {
      assert d[..0] == [];
      DigitCharValue(d[0]);
    } else {
      var p := d[..n];
      assert p[0] == d[0] && forall k :: 0 <= k < |p| ==> p[k] == d[k];
      NatTextUnique(p);
      NatValuePositive(p);
      DigitCharValue(d[n]);
      assert d == p + [d[n]];
    }
  }

  /** Every canonical decimal text is the text `IntToString` gives for the
      number it denotes, so the text of an integer is determined by being
      canonical and denoting that integer. */
  lemma IntTextUnique(s: string, i: int)
    requires IsIntText(s) && DecimalValue(s) == i
    ensures s == IntToString(i)
  {
    if s[0] == '-' {
      var d := s[1..];
      NatTextUnique(d);
      NatValuePositive(d);
      assert s == "-" + d;
    } else {
      NatTextUnique(s);
    }
  }

  /** Integers with the same decimal text are equal. */
  lemma IntToStringInjective(i: int, j: int)
    ensures IntToString(i) == IntToString(j) <==> i == j
  {
    IntToStringValue(i);
    IntToStringValue(j);
  }

  /** The display text of a cell: a text is itself, an integer its decimal
      text, a boolean `True` or `False`, a blank `nan`. */
  function Render(c: Cell): (r: string)
    ensures c.Text? ==> r == c.text
    ensures c.Integer? ==> IsIntText(r) && DecimalValue(r) == c.number
    ensures c.Boolean? ==> r == (if c.flag then "True" else "False")
    ensures c.Blank? ==> r == "nan"
  {
    match c
    case Text(s) => s
    case Integer(i) => IntToStringValue(i); IntToString(i)
    case Boolean(b) => if b then "True" else "False"
    case Blank => "nan"
    case Other(d, _) => d
  }

  /** True when the spreadsheet writer accepts the cell. */
  predicate Writable(c: Cell) {
    !c.Other?
  }
}
