/** Facts about products, quotients and remainders. */
module Arithmetic {

  function Min(a: int, b: int): int {
    if a < b then a else b
  }

  function Max(a: int, b: int): int {
    if a < b then b else a
  }

  function Quot(a: nat, b: nat): nat
    requires 0 < b
  {
    a / b
  }

  lemma TimesMonotone(a: int, b: int, c: nat)
    requires a <= b
    ensures a * c <= b * c
  {
    assert 0 <= (b - a) * c;
  }

  lemma TimesNext(q: int, w: int)
    ensures (q + 1) * w == q * w + w
  {
  }

  lemma Associate(a: int, b: int, c: int)
    ensures a * (b * c) == a * b * c
  {
  }

  lemma Exchange(a: int, b: int, c: int)
    ensures a * (b * c) == a * c * b
  {
  }

  lemma Distribute(a: int, b: int, c: int)
    ensures (a + b) * c == a * c + b * c
  {
  }

  lemma QuotientUnique(q: int, r: int, q': int, r': int, b: int)
    requires q * b + r == q' * b + r' && 0 <= r < b && 0 <= r' < b
    ensures q <= q'
  {
    if q' < q {
      TimesMonotone(q' + 1, q, b);
    }
  }

  lemma DivIs(a: int, b: int, q: int, r: int)
    requires 0 <= r < b && a == q * b + r
    ensures a / b == q && a % b == r
  {
    assert a == a / b * b + a % b;
    QuotientUnique(q, r, a / b, a % b, b);
    QuotientUnique(a / b, a % b, q, r, b);
  }

  lemma QuotientMonotone(a: nat, b: nat, s: nat)
    requires a < b && 0 < s
    ensures a / s < b / s || (a / s == b / s && a % s < b % s)
  {
    assert a == a / s * s + a % s && b == b / s * s + b % s;
    if b / s < a / s {
      TimesMonotone(b / s + 1, a / s, s);
      TimesNext(b / s, s);
    }
  }

  lemma QuotientBound(j: nat, p: nat, s: nat)
    requires 0 < s && j < p * s
    ensures j / s < p
  {
    assert j == j / s * s + j % s;
    if p <= j / s {
      TimesMonotone(p, j / s, s);
    }
  }

  lemma SmallQuotient(a: nat, b: nat)
    requires a < b
    ensures a / b == 0 && a % b == a
  {
    DivIs(a, b, 0, a);
  }

  lemma QuotientStep(a: nat, b: nat)
    requires 0 < b
    ensures a % b + 1 < b ==> (a + 1) / b == a / b && (a + 1) % b == a % b + 1
    ensures a % b + 1 == b ==> (a + 1) / b == a / b + 1 && (a + 1) % b == 0
  {
    assert a == a / b * b + a % b;
    TimesNext(a / b, b);
    if a % b + 1 < b {
      DivIs(a + 1, b, a / b, a % b + 1);
    } else {
      DivIs(a + 1, b, a / b + 1, 0);
    }
  }

  lemma QuotientCompare(a: nat, s: nat, p: nat)
    requires 0 < s
    ensures a / s <= p <==> a < p * s + s
    ensures p <= a / s <==> p * s <= a
  {
    assert a == a / s * s + a % s;
    TimesNext(a / s, s);
    TimesNext(p, s);
    if a / s < p {
      TimesMonotone(a / s + 1, p, s);
    } else if p < a / s {
      TimesMonotone(p + 1, a / s, s);
    }
  }

  /** Multiples of `s` that enclose a number belong to its quotient. */
  lemma Encloses(j: nat, s: nat, m: nat, k: nat)
    requires m < s
    ensures k * s <= j * s + m < k * s + s <==> j == k
  {
    TimesNext(j, s);
    TimesNext(k, s);
    if j < k {
      TimesMonotone(j + 1, k, s);
    } else if k < j {
      TimesMonotone(k + 1, j, s);
    }
  }

  /** Adding to a multiple. */
  lemma MultiplePlus(a: nat, k: nat, b: nat)
    requires 0 < b && a % b == 0
    ensures (a + k) / b == a / b + k / b && (a + k) % b == k % b
  {
    assert a == a / b * b && k == k / b * b + k % b;
    Distribute(a / b, k / b, b);
    DivIs(a + k, b, a / b + k / b, k % b);
  }
}
