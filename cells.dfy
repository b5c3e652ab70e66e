/**
 * The values a PrettyTable stores in its cells, their string form (JavaScript's
 * `toString`) and a strict total order standing in for JavaScript's `<` on them.
 */
module Cells {
  import opened Wrappers

  /** A cell value: a string or an integral number. */
  datatype Cell = Text(s: string) | Num(n: int)

  type Row = seq<Cell>

  function DigitChar(d: nat): char
    requires d < 10
  {
    ('0' as int + d) as char
  }

  function DigitValue(c: char): nat
  {
    if '0' <= c <= '9' then c as int - '0' as int else 0
  }

  /** Decimal notation of a natural number, without leading zeros. */
  function NatToString(n: nat): (s: string)
    ensures |s| >= 1 && '0' <= s[0] <= '9'
  {
    if n < 10 then [DigitChar(n)] else NatToString(n / 10) + [DigitChar(n % 10)]
  }

  /**
   * JavaScript's `String(n)` for a safe integer (magnitude at most 2^53 - 1).
   * Beyond that JavaScript prints the shortest digits that denote the same double,
   * and from 10^21 on it uses exponent form; neither is modelled.
   */
  function IntToString(i: int): string
  {
    if i < 0 then "-" + NatToString(-i) else NatToString(i)
  }

  /** Reads a string of decimal digits back as a number. */
  function ParseNat(s: string): nat
  {
    if s == [] then 0 else ParseNat(s[..|s| - 1]) * 10 + DigitValue(s[|s| - 1])
  }

  function ParseInt(s: string): int
  {
    if |s| > 0 && s[0] == '-' then -(ParseNat(s[1..]) as int) else ParseNat(s)
  }

  lemma {:induction false} NatToStringRoundTrip(n: nat)
    ensures ParseNat(NatToString(n)) == n
  {
    if n >= 10 {
      var s := NatToString(n);
      assert s[..|s| - 1] == NatToString(n / 10);
      NatToStringRoundTrip(n / 10);
    }
  }

  /** The decimal form of an integer reads back as that integer. */
  lemma IntToStringRoundTrip(i: int)
    ensures ParseInt(IntToString(i)) == i
  {
    if i < 0 {
      var s := IntToString(i);
      assert s[1..] == NatToString(-i);
      NatToStringRoundTrip(-i);
    } else {
      NatToStringRoundTrip(i);
    }
  }

  /** JavaScript's `value.toString()` on a stored cell. */
  function Str(c: Cell): string
  {
    match c
    case Text(s) => s
    case Num(n) => IntToString(n)
  }

  /** The width a cell contributes to its column: the length of its string form. */
  function Width(c: Cell): nat
  {
    |Str(c)|
  }

  /** A null or undefined cell (None) is stored as the empty string; any other value as it is. */
  function Normalize(v: Option<Cell>): (c: Cell)
    ensures v.None? ==> c == Text("") && Width(c) == 0
    ensures v.Some? ==> c == v.value
  {
    if v.None? then Text("") else v.value
  }

  /**
   * The order standing in for JavaScript's `<` on two strings: lexicographic by
   * character, a proper prefix first.
   */
  predicate StringLess(a: string, b: string)
    decreases |a|
  {
    if a == [] then b != []
    else if b == [] then false
    else if a[0] != b[0] then a[0] < b[0]
    else StringLess(a[1..], b[1..])
  }

  lemma {:induction false} StringLessIrreflexive(a: string)
    ensures !StringLess(a, a)
  {
    if a != [] {
      StringLessIrreflexive(a[1..]);
    }
  }

  lemma {:induction false} StringLessTransitive(a: string, b: string, c: string)
    requires StringLess(a, b) && StringLess(b, c)
    ensures StringLess(a, c)
    decreases |a|
  {
    if a != [] && b != [] && c != [] && a[0] == b[0] && b[0] == c[0] {
      StringLessTransitive(a[1..], b[1..], c[1..]);
    }
  }

  lemma {:induction false} StringLessTotal(a: string, b: string)
    ensures a == b || StringLess(a, b) || StringLess(b, a)
    decreases |a|
  {
    if a != [] && b != [] && a[0] == b[0] {
      StringLessTotal(a[1..], b[1..]);
      if a[1..] == b[1..] {
        assert a == [a[0]] + a[1..] && b == [b[0]] + b[1..];
      }
    }
  }

  /**
   * The order on cells: numbers numerically, strings lexicographically, and
   * every number before every string.
   */
  predicate Less(a: Cell, b: Cell)
  {
    match (a, b)
    case (Num(x), Num(y)) => x < y
    case (Text(x), Text(y)) => StringLess(x, y)
    case (Num(_), Text(_)) => true
    case (Text(_), Num(_)) => false
  }

  /** `Less` is a strict total order. */
  lemma LessIsStrictTotalOrder(a: Cell, b: Cell, c: Cell)
    ensures !Less(a, a)
    ensures Less(a, b) && Less(b, c) ==> Less(a, c)
    ensures a == b || Less(a, b) || Less(b, a)
  {
    if a.Text? {
      StringLessIrreflexive(a.s);
      if b.Text? {
        StringLessTotal(a.s, b.s);
        if c.Text? && Less(a, b) && Less(b, c) {
          StringLessTransitive(a.s, b.s, c.s);
        }
      }
    }
  }
}
