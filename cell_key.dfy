/**
 The string key under which a cell is stored in a cell map: the decimal
 rendering of its two coordinates joined by a comma, as a JavaScript template
 literal prints an integer-valued number of magnitude below 10^21 (larger
 numbers print in exponent form, which this model does not cover). The key
 identifies a cell by value: distinct cells have distinct keys.
 */
module CellKey {
  import opened Vec2

  predicate IsDigit(c: char)
  {
    '0' <= c <= '9'
  }

  function Digit(d: nat): (c: char)
    requires d < 10
    ensures IsDigit(c) && DigitValue(c) == d
  {
    ('0' as int + d) as char
  }

  function DigitValue(c: char): nat
    requires IsDigit(c)
  {
    c as int - '0' as int
  }

  /** The number a string of decimal digits denotes, most significant digit first. */
  function DecimalValue(s: string): nat
    requires forall i :: 0 <= i < |s| ==> IsDigit(s[i])
  {
    if s == [] then 0 else 10 * DecimalValue(s[..|s| - 1]) + DigitValue(s[|s| - 1])
  }

  /** `s` is a string of decimal digits denoting `n`. */
  predicate Denotes(s: string, n: nat)
  {
    (forall i :: 0 <= i < |s| ==> IsDigit(s[i])) && DecimalValue(s) == n
  }

  /** Decimal rendering of a natural number: digits only, no leading zero, denoting `n`. */
  function NatToString(n: nat): (s: string)
    ensures |s| >= 1
    ensures forall i :: 0 <= i < |s| ==> IsDigit(s[i])
    ensures n >= 10 <==> |s| >= 2
    ensures |s| >= 2 ==> s[0] != '0'
    ensures Denotes(s, n)
    decreases n
  {
    if n < 10 then [Digit(n)]
    else
      var s := NatToString(n / 10) + [Digit(n % 10)];
      assert s[..|s| - 1] == NatToString(n / 10);
      s
  }

  /** Decimal rendering of an integer, with a leading '-' when negative. */
  function IntToString(n: int): (s: string)
    ensures |s| >= 1
    ensures ',' !in s
    ensures (s[0] == '-') <==> n < 0
    ensures n < 0 ==> Denotes(s[1..], -n)
    ensures n >= 0 ==> Denotes(s, n)
  {
    if n < 0 then "-" + NatToString(-n) else NatToString(n)
  }

  /**
   The key `${x},${y}` of a cell: the rendering of x, then a comma, then the
   rendering of y; the first comma of the key is the separator.
   */
  function Key(c: Vec2): string
  {
    IntToString(c.x) + "," + IntToString(c.y)
  }

  lemma {:induction false} NatToStringInjective(a: nat, b: nat)
    requires NatToString(a) == NatToString(b)
    ensures a == b
    decreases a
  {
    var s := NatToString(a);
    if a < 10 && b < 10 {
      assert "0123456789"[a] == s[0] == "0123456789"[b];
    } else if a >= 10 && b >= 10 {
      var n := |s|;
      assert s[..n - 1] == NatToString(a / 10) == NatToString(b / 10);
      assert "0123456789"[a % 10] == s[n - 1] == "0123456789"[b % 10];
      NatToStringInjective(a / 10, b / 10);
    }
  }

  lemma IntToStringInjective(a: int, b: int)
    requires IntToString(a) == IntToString(b)
    ensures a == b
  {
    var s := IntToString(a);
    if a < 0 {
      assert s[1..] == NatToString(-a) == NatToString(-b);
      NatToStringInjective(-a, -b);
    } else {
      NatToStringInjective(a, b);
    }
  }

  lemma CommaBefore(p1: string, q1: string, p2: string, q2: string)
    requires |p1| < |p2| && p1 + "," + q1 == p2 + "," + q2
    ensures ',' in p2
  {
    var k := p1 + "," + q1;
    assert k[|p1|] == ',';
    assert k[|p1|] == p2[|p1|];
  }

  /** A comma-free prefix before a comma is determined by the joined string. */
  lemma SplitAtComma(p1: string, q1: string, p2: string, q2: string)
    requires ',' !in p1 && ',' !in p2
    requires p1 + "," + q1 == p2 + "," + q2
    ensures p1 == p2 && q1 == q2
  {
    var k := p1 + "," + q1;
    if |p1| < |p2| {
      CommaBefore(p1, q1, p2, q2);
      assert false;
    } else if |p2| < |p1| {
      CommaBefore(p2, q2, p1, q1);
      assert false;
    }
    assert p1 == k[..|p1|] == p2;
    assert q1 == k[|p1| + 1..] == q2;
  }

  /** The layout of a key: the first comma separates the rendering of x from that of y. */
  lemma KeyLayout(c: Vec2)
    ensures var k, p := Key(c), |IntToString(c.x)|;
      p < |k| && k[..p] == IntToString(c.x) && ',' !in k[..p] && k[p] == ',' && k[p + 1..] == IntToString(c.y)
  {
    var k, p := Key(c), |IntToString(c.x)|;
    assert k[..p] == IntToString(c.x);
    assert k[p + 1..] == IntToString(c.y);
  }

  /** Two cells share a key only if they are the same cell. */
  lemma KeyInjective(a: Vec2, b: Vec2)
    requires Key(a) == Key(b)
    ensures a == b
  {
    SplitAtComma(IntToString(a.x), IntToString(a.y), IntToString(b.x), IntToString(b.y));
    IntToStringInjective(a.x, b.x);
    IntToStringInjective(a.y, b.y);
  }
}
