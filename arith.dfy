/** Facts about multiplication, division and remainder on non-negative integers. */
module Arith {

  lemma MulMono(a: nat, b: nat, c: nat)
    requires a <= b
    ensures a * c <= b * c
  {
  }

  lemma Distrib(a: int, b: int, c: int)
    ensures a * c - b * c == (a - b) * c
  {
  }

  /** Euclidean division: x is n times its quotient plus its remainder, which lies in 0 .. n-1. */
  lemma Euclid(x: int, n: int)
    requires n > 0
    ensures x == (x / n) * n + x % n && 0 <= x % n < n
  {
  }

  /** Quotient and remainder are the only way to write x as q*n + r with 0 <= r < n. */
  lemma DivModUnique(x: int, n: int, q: int, r: int)
    requires n > 0 && 0 <= r < n && x == q * n + r
    ensures q == x / n && r == x % n
  {
    var q', r' := x / n, x % n;
    Euclid(x, n);
    if q < q' {
      Distrib(q', q, n);
      MulMono(1, q' - q, n);
    } else if q > q' {
      Distrib(q, q', n);
      MulMono(1, q - q', n);
    }
  }

  /** How quotient and remainder move when the dividend grows by one. */
  lemma DivModStep(m: nat, n: nat)
    requires n > 0
    ensures m % n == n - 1 ==> (m + 1) / n == m / n + 1 && (m + 1) % n == 0
    ensures m % n < n - 1 ==> (m + 1) / n == m / n && (m + 1) % n == m % n + 1
  {
    var q, r := m / n, m % n;
    Euclid(m, n);
    if r == n - 1 {
      Distrib(q + 1, 1, n);
      DivModUnique(m + 1, n, q + 1, 0);
    } else {
      DivModUnique(m + 1, n, q, r + 1);
    }
  }

  /** Position x of the first count*size bytes is byte j of chunk i. */
  lemma DivBelow(x: nat, size: nat, count: nat) returns (i: nat, j: nat)
    requires x < count * size
    ensures i < count && j < size && x == i * size + j
  {
    i, j := x / size, x % size;
    Euclid(x, size);
    if i >= count {
      MulMono(count, i, size);
    }
  }

  /** A position below count * n lies in one of the first count blocks of n. */
  lemma DivLess(x: nat, n: nat, count: nat)
    requires n > 0 && x < count * n
    ensures x / n < count
  {
    Euclid(x, n);
    if x / n >= count {
      MulMono(count, x / n, n);
    }
  }

  /** At most x / n blocks of n fit in x. */
  lemma MulBelow(count: nat, x: nat, n: nat)
    requires n > 0 && count <= x / n
    ensures count * n <= x
  {
    Euclid(x, n);
    MulMono(count, x / n, n);
  }

  /** The number of size-byte chunks that hold len bytes, rounding up. */
  lemma CeilDiv(len: nat, size: nat)
    requires size > 0
    ensures ((len + size - 1) / size) * size >= len
    ensures len > 0 ==> ((len + size - 1) / size - 1) * size < len
  {
    var c := (len + size - 1) / size;
    Euclid(len + size - 1, size);
    if len > 0 {
      Distrib(c, 1, size);
    }
  }

  lemma DivMono(a: nat, b: nat, n: nat)
    requires n > 0 && a <= b
    ensures a / n <= b / n
  {
    Euclid(a, n);
    Euclid(b, n);
    if a / n > b / n {
      MulMono(b / n + 1, a / n, n);
      Distrib(b / n + 1, 1, n);
    }
  }

  /** Counting modulo n: the successor of m mod n is (m + 1) mod n. */
  lemma ModNext(m: nat, n: nat)
    requires n > 0
    ensures (m % n + 1) % n == (m + 1) % n
  {
    DivModStep(m, n);
    if m % n + 1 < n {
      DivModUnique(m % n + 1, n, 0, m % n + 1);
    } else {
      DivModUnique(n, n, 1, 0);
    }
  }

  /** The remainder x mod n as an index below n. */
  function Mod(x: nat, n: nat): (r: nat)
    requires n > 0
    ensures r < n
  {
    x % n
  }

  /** The quotient x / n as a natural number. */
  function Div(x: nat, n: nat): (q: nat)
    requires n > 0
  {
    x / n
  }

  /** How many of 0 .. m-1 leave remainder d modulo n (for d < n). */
  function Count(m: nat, n: nat, d: nat): nat
    requires n > 0
  {
    m / n + (if d < m % n then 1 else 0)
  }

  /** Counting one more number adds one to the count of remainder m mod n and to no other. */
  lemma CountStep(m: nat, n: nat, d: nat)
    requires n > 0 && d < n
    ensures Count(m + 1, n, d) == Count(m, n, d) + (if d == m % n then 1 else 0)
    ensures Count(m, n, m % n) == m / n
  {
    DivModStep(m, n);
  }

  /** Counting further never lowers a count. */
  lemma {:induction false} CountMono(a: nat, b: nat, n: nat, d: nat)
    requires n > 0 && d < n && a <= b
    ensures Count(a, n, d) <= Count(b, n, d)
    decreases b - a
  {
    if a < b {
      CountMono(a, b - 1, n, d);
      CountStep(b - 1, n, d);
    }
  }

  /** The number q*n + d is the (q+1)-th one with remainder d. */
  lemma CountAt(q: nat, n: nat, d: nat)
    requires n > 0 && d < n
    ensures Count(q * n + d, n, d) == q && Count(q * n + d + 1, n, d) == q + 1
  {
    DivModUnique(q * n + d, n, q, d);
    CountStep(q * n + d, n, d);
  }
}
