/** Go's integer operators and `%d` formatting, where they differ from Dafny's. */
module GoInt {

  function Abs(a: int): nat
  {
    if a < 0 then -a else a
  }

  /** Go's `a / b`: the quotient truncated toward zero (Dafny's `/` is Euclidean).
      Its magnitude is the floor of the magnitudes; its sign is the product of the signs. */
  function Quo(a: int, b: int): (q: int)
    requires b != 0
    ensures Abs(q) == Abs(a) / Abs(b)
    ensures q > 0 ==> (a < 0) == (b < 0)
    ensures q < 0 ==> (a < 0) != (b < 0)
  {
    var x, y := Abs(a), Abs(b);
    DivNonNegative(x, y);
    var m := x / y;
    assert Abs(m) == m && Abs(-m) == m;
    if (a < 0) == (b < 0) then m else -m
  }

  lemma DivNonNegative(x: int, y: int)
    requires x >= 0 && y > 0
    ensures x / y >= 0
  {
  }

  /** Go's `a % b`: what Quo leaves over; it takes the sign of a and is smaller than b. */
  function Rem(a: int, b: int): (r: int)
    requires b != 0
    ensures a == Quo(a, b) * b + r
    ensures Abs(r) < Abs(b)
    ensures r == 0 || ((r > 0) == (a > 0))
  {
    RemIsModOfMagnitudes(a, b);
    a - Quo(a, b) * b
  }

  lemma RemIsModOfMagnitudes(a: int, b: int)
    requires b != 0
    ensures a - Quo(a, b) * b == if a < 0 then -(Abs(a) % Abs(b)) else Abs(a) % Abs(b)
  {
    var x: int, y: int := Abs(a), Abs(b);
    DivNonNegative(x, y);
    assert x == (x / y) * y + x % y;
    if a >= 0 && b > 0 {
    } else if a >= 0 {
      assert Quo(a, b) * b == (x / y) * y;
    } else if b > 0 {
      assert Quo(a, b) * b == -((x / y) * y);
    } else {
      assert Quo(a, b) * b == -((x / y) * y);
    }
  }

  /** On a non-negative dividend and a positive divisor Go and Dafny agree. */
  lemma QuoRemNonNegative(a: int, b: int)
    requires a >= 0 && b > 0
    ensures Quo(a, b) == a / b && Rem(a, b) == a % b
  {
  }

  /** The decimal digits of n, without leading zeros ("0" for zero). */
  function Digits(n: nat): (s: string)
    ensures |s| > 0
    ensures forall i :: 0 <= i < |s| ==> '0' <= s[i] <= '9'
    ensures |s| > 1 ==> s[0] != '0'
    decreases n
  {
    if n < 10 then [DigitChar(n)] else Digits(n / 10) + [DigitChar(n % 10)]
  }

  function DigitChar(d: nat): (c: char)
    requires d < 10
    ensures '0' <= c <= '9'
  {
    '0' + d as char
  }

  /** Reads back a string of decimal digits. */
  function DigitsValue(s: string): nat
    requires forall i :: 0 <= i < |s| ==> '0' <= s[i] <= '9'
  {
    if s == [] then 0 else 10 * DigitsValue(s[..|s| - 1]) + (s[|s| - 1] - '0') as nat
  }

  lemma {:induction false} DigitsRoundTrip(n: nat)
    ensures DigitsValue(Digits(n)) == n
    decreases n
  {
    if n >= 10 {
      DigitsRoundTrip(n / 10);
      var s := Digits(n);
      assert s[..|s| - 1] == Digits(n / 10);
    }
  }

  /** `fmt.Sprintf("%d", i)`. */
  function Format(i: int): (s: string)
    ensures |s| > 0
    ensures i < 0 <==> s[0] == '-'
  {
    if i < 0 then "-" + Digits(-i) else Digits(i)
  }

  /** Parses what Format prints. */
  function ParseFormatted(s: string): int
    requires |s| > 0
    requires s[0] == '-' ==> forall i :: 1 <= i < |s| ==> '0' <= s[i] <= '9'
    requires s[0] != '-' ==> forall i :: 0 <= i < |s| ==> '0' <= s[i] <= '9'
  {
    if s[0] == '-' then -(DigitsValue(s[1..]) as int) else DigitsValue(s)
  }

  /** `%d` is injective: printing an integer loses nothing. */
  lemma FormatRoundTrip(i: int)
    ensures ParseFormatted(Format(i)) == i
  {
    if i < 0 {
      DigitsRoundTrip(-i);
      assert Format(i)[1..] == Digits(-i);
    } else {
      DigitsRoundTrip(i);
    }
  }
}
