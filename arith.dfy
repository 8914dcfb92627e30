/** Facts about multiplication, division and remainder on naturals used by the pool's address arithmetic. */
module Arith {

  lemma MulSign(a: int, k: int)
    requires a > 0
    ensures k >= 1 ==> a * k >= a
    ensures k <= -1 ==> a * k <= -a
  {
  }

  /** A multiple of a leaves no remainder, and dividing it by a gives the factor back. */
  lemma MultipleMod(m: int, a: int)
    requires a > 0
    ensures (a * m) % a == 0 && (a * m) / a == m
  {
    var q, r := (a * m) / a, (a * m) % a;
    assert a * m == a * q + r;
    assert a * (m - q) == r;
    MulSign(a, m - q);
  }

  /** Divisibility is transitive. */
  lemma DividesTrans(p: nat, c: nat, a: nat)
    requires a > 0 && c > 0 && p % c == 0 && c % a == 0
    ensures p % a == 0
  {
    var k, j := p / c, c / a;
    assert p == c * k;
    assert c == a * j;
    assert p == a * (j * k);
    MultipleMod(j * k, a);
  }

  lemma MulStrictMono(i: nat, n: nat, c: nat)
    requires i < n && c > 0
    ensures i * c < n * c
  {
    MulSign(c, n - i);
    assert n * c - i * c == c * (n - i);
  }

  /** An offset below c * n lies in one of the first n slots of width c. */
  lemma DivBound(off: nat, c: nat, n: nat)
    requires c > 0 && off < c * n
    ensures off / c < n
  {
    var q := off / c;
    assert off == c * q + off % c;
    assert c * n - c * q == c * (n - q);
    MulSign(c, n - q);
  }

  /** Adding a multiple of c to a multiple of c gives a multiple of c. */
  lemma MultipleShift(base: nat, c: nat, i: nat)
    requires c > 0 && base % c == 0
    ensures (base + c * i) % c == 0
  {
    var k := base / c;
    assert base == c * k;
    assert base + c * i == c * (k + i);
    MultipleMod(k + i, c);
  }
}
