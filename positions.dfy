/** The Position value type: an immutable (row, column) pair of a grid and its
    textual form "(row,column)". The Java class has two final fields, so a
    datatype value, which can never be updated, models it exactly. */
module Positions {

  /** A grid coordinate. The Java fields are 32-bit ints, but a position is
      built only for a cell inside the table (only the intermediate neighbour
      sums reach -1 or the table's size), so unbounded integers lose nothing. */
  datatype Position = Position(row: int, column: int)
  {
    /** getRow(): the row the position was built with. */
    function GetRow(): (r: int)
      ensures r == row
    {
      row
    }

    /** getColumn(): the column the position was built with. */
    function GetColumn(): (c: int)
      ensures c == column
    {
      column
    }
  }

  /** The getters give back exactly what the constructor was given. */
  lemma GettersReturnConstructorArguments(r: int, c: int)
    ensures Position(r, c).GetRow() == r
    ensures Position(r, c).GetColumn() == c
  {
  }

  // ---------------------------------------------------------------------------
  // Decimal text of an integer, as Java's string concatenation of an int gives it

  predicate IsDigit(ch: char) {
    '0' <= ch <= '9'
  }

  predicate AllDigits(s: string) {
    forall k :: 0 <= k < |s| ==> IsDigit(s[k])
  }

  function DigitChar(d: nat): (ch: char)
    requires d < 10
    ensures IsDigit(ch)
    ensures (ch == '0') == (d == 0)
  {
    (48 + d) as char
  }

  function DigitValue(ch: char): (d: nat)
    requires IsDigit(ch)
    ensures d < 10
  {
    (ch as int) - 48
  }

  /** The digits of n, most significant first. */
  function NatToDecimal(n: nat): string
    decreases n
  {
    if n < 10 then [DigitChar(n)] else NatToDecimal(n / 10) + [DigitChar(n % 10)]
  }

  /** At least one digit, nothing but digits, and no leading zero. */
  lemma {:induction false} NatToDecimalShape(n: nat)
    ensures var s := NatToDecimal(n);
            && |s| >= 1 && AllDigits(s)
            && (s[0] == '0' ==> n == 0 && s == "0")
    decreases n
  {
    if n >= 10 {
      NatToDecimalShape(n / 10);
      var s := NatToDecimal(n / 10) + [DigitChar(n % 10)];
      assert s[0] == NatToDecimal(n / 10)[0];
    }
  }

  /** The value a string of decimal digits denotes: an independent reading of
      the text that NatToDecimal writes. */
  function DigitsValue(s: string): nat
    requires AllDigits(s)
  {
    if s == [] then 0 else DigitsValue(s[..|s| - 1]) * 10 + DigitValue(s[|s| - 1])
  }

  lemma {:induction false} NatToDecimalRoundTrip(n: nat)
    ensures AllDigits(NatToDecimal(n)) && DigitsValue(NatToDecimal(n)) == n
    decreases n
  {
    NatToDecimalShape(n);
    if n >= 10 {
      NatToDecimalRoundTrip(n / 10);
      var s := NatToDecimal(n / 10) + [DigitChar(n % 10)];
      assert s[..|s| - 1] == NatToDecimal(n / 10);
    }
  }

  /** Integer.toString: a minus sign before the digits of a negative value. */
  function IntToDecimal(i: int): string {
    if i < 0 then "-" + NatToDecimal(-i) else NatToDecimal(i)
  }

  /** A numeral is non-empty and holds digits and minus signs only. */
  lemma IntToDecimalShape(i: int)
    ensures var s := IntToDecimal(i);
            |s| >= 1 && forall k :: 0 <= k < |s| ==> IsDigit(s[k]) || s[k] == '-'
  {
    var s := IntToDecimal(i);
    if i < 0 {
      NatToDecimalShape(-i);
      assert forall k :: 1 <= k < |s| ==> s[k] == NatToDecimal(-i)[k - 1];
    } else {
      NatToDecimalShape(i);
    }
  }

  /** Reads back an optionally signed decimal numeral. */
  function ParseDecimal(s: string): int
    requires |s| >= 1
    requires AllDigits(s) || (s[0] == '-' && AllDigits(s[1..]))
  {
    if s[0] == '-' then -(DigitsValue(s[1..]) as int) else DigitsValue(s)
  }

  lemma IntToDecimalRoundTrip(i: int)
    ensures var s := IntToDecimal(i);
            && |s| >= 1
            && (AllDigits(s) || (s[0] == '-' && AllDigits(s[1..])))
            && ParseDecimal(s) == i
  {
    IntToDecimalShape(i);
    if i < 0 {
      NatToDecimalRoundTrip(-i);
      assert IntToDecimal(i)[1..] == NatToDecimal(-i);
    } else {
      NatToDecimalRoundTrip(i);
    }
  }

  lemma IntToDecimalInjective(i: int, j: int)
    requires IntToDecimal(i) == IntToDecimal(j)
    ensures i == j
  {
    IntToDecimalRoundTrip(i);
    IntToDecimalRoundTrip(j);
  }

  // ---------------------------------------------------------------------------
  // getPositionString

  /** getPositionString: "(" + row + "," + column + ")", no spaces. */
  function PositionString(p: Position): (s: string)
    ensures |s| == |IntToDecimal(p.row)| + |IntToDecimal(p.column)| + 3
    ensures s[0] == '(' && s[|s| - 1] == ')'
  {
    "(" + IntToDecimal(p.row) + "," + IntToDecimal(p.column) + ")"
  }

  /** The text is parenthesised, and its only closing parenthesis is the last
      character, since numerals hold digits and minus signs only. */
  lemma PositionStringShape(p: Position)
    ensures var s := PositionString(p);
            && |s| >= 5 && s[0] == '(' && s[|s| - 1] == ')'
            && (forall k :: 0 <= k < |s| - 1 ==> s[k] != ')')
  {
    var a, b := IntToDecimal(p.row), IntToDecimal(p.column);
    var s := PositionString(p);
    IntToDecimalShape(p.row);
    IntToDecimalShape(p.column);
    forall k | 0 <= k < |s| - 1
      ensures s[k] != ')'
    {
      if 1 <= k < 1 + |a| {
        assert s[k] == a[k - 1];
      } else if 2 + |a| <= k {
        assert s[k] == b[k - 2 - |a|];
      }
    }
  }

  lemma FirstOccurrence(c: char, x: string, y: string)
    requires |x| >= 1 && x[|x| - 1] == c && forall k :: 0 <= k < |x| - 1 ==> x[k] != c
    ensures (x + y)[|x| - 1] == c
    ensures forall k :: 0 <= k < |x| - 1 ==> (x + y)[k] != c
  {
  }

  /** If x1 and x2 both end in c and contain no earlier c, then x1 + y1 == x2 + y2
      splits only one way. */
  lemma SplitAtFirst(c: char, x1: string, y1: string, x2: string, y2: string)
    requires |x1| >= 1 && x1[|x1| - 1] == c && forall k :: 0 <= k < |x1| - 1 ==> x1[k] != c
    requires |x2| >= 1 && x2[|x2| - 1] == c && forall k :: 0 <= k < |x2| - 1 ==> x2[k] != c
    requires x1 + y1 == x2 + y2
    ensures x1 == x2 && y1 == y2
  {
    FirstOccurrence(c, x1, y1);
    FirstOccurrence(c, x2, y2);
    assert |x1| == |x2|;
    assert x1 == (x1 + y1)[..|x1|];
    assert x2 == (x2 + y2)[..|x2|];
    assert y1 == (x1 + y1)[|x1|..];
    assert y2 == (x2 + y2)[|x2|..];
  }

  /** Distinct positions render to distinct strings: the text of a position names it. */
  lemma PositionStringInjective(p: Position, q: Position)
    requires PositionString(p) == PositionString(q)
    ensures p == q
  {
    var a1, b1 := IntToDecimal(p.row), IntToDecimal(p.column);
    var a2, b2 := IntToDecimal(q.row), IntToDecimal(q.column);
    IntToDecimalShape(p.row);
    IntToDecimalShape(q.row);
    assert PositionString(p) == ("(" + a1 + ",") + (b1 + ")");
    assert PositionString(q) == ("(" + a2 + ",") + (b2 + ")");
    SplitAtFirst(',', "(" + a1 + ",", b1 + ")", "(" + a2 + ",", b2 + ")");
    assert a1 == ("(" + a1 + ",")[1..|a1| + 1];
    assert a2 == ("(" + a2 + ",")[1..|a2| + 1];
    assert b1 == (b1 + ")")[..|b1|];
    assert b2 == (b2 + ")")[..|b2|];
    IntToDecimalInjective(p.row, q.row);
    IntToDecimalInjective(p.column, q.column);
  }

  /** A position's text followed by anything determines the position and the
      rest: no position string is a proper prefix of another one's text. */
  lemma PositionStringPrefix(p: Position, t: string, q: Position, u: string)
    requires PositionString(p) + t == PositionString(q) + u
    ensures p == q && t == u
  {
    PositionStringShape(p);
    PositionStringShape(q);
    SplitAtFirst(')', PositionString(p), t, PositionString(q), u);
    PositionStringInjective(p, q);
  }
}
