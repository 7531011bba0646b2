/** Facts about multiplication, division and remainder by a positive divisor
    that the board's cell numbering and the playlist's wrap-around rely on. */
module Arith {

  lemma MulSign(a: int, n: nat)
    ensures a >= 1 ==> a * n >= n
    ensures a <= -1 ==> a * n + n <= 0
  {
  }

  lemma MulMono(a: int, b: int, n: nat)
    ensures a <= b ==> a * n <= b * n
  {
    MulSign(b - a, n);
  }

  /** Division by n of q * n + r, with 0 <= r < n, gives back q and r. */
  lemma DivModUnique(n: nat, q: int, r: nat)
    requires r < n
    ensures (q * n + r) / n == q && (q * n + r) % n == r
  {
    var k := q * n + r;
    var q', r' := k / n, k % n;
    assert k == q' * n + r';
    assert (q' - q) * n == r - r';
    MulSign(q' - q, n);
  }

  /** Taking the remainder before adding one does not change the remainder. */
  lemma ModSucc(a: nat, len: nat)
    requires len > 0
    ensures (a % len + 1) % len == (a + 1) % len
  {
    var q, r := a / len, a % len;
    assert a == q * len + r;
    if r + 1 < len {
      DivModUnique(len, q, r + 1);
      DivModUnique(len, 0, r + 1);
    } else {
      assert a + 1 == (q + 1) * len + 0;
      DivModUnique(len, q + 1, 0);
      DivModUnique(len, 1, 0);
    }
  }

  /** Two numbers less than len apart have different remainders. */
  lemma ModDistinct(a: nat, b: nat, len: nat)
    requires a < b < a + len
    ensures a % len != b % len
  {
    var qa, qb := a / len, b / len;
    assert a == qa * len + a % len;
    assert b == qb * len + b % len;
    if a % len == b % len {
      assert b - a == (qb - qa) * len;
      MulSign(qb - qa, len);
      assert false;
    }
  }

  /** Adding multiples of len does not change a remainder. */
  lemma ModAddMultiple(q: nat, x: nat, len: nat)
    requires len > 0
    ensures (q * len + x) % len == x % len
  {
    var q' := x / len;
    assert x == q' * len + x % len;
    assert q * len + x == (q + q') * len + x % len;
    DivModUnique(len, q + q', x % len);
  }

  /** Adding after a remainder gives the same remainder as adding before. */
  lemma ModAddLeft(a: nat, b: nat, len: nat)
    requires len > 0
    ensures (a % len + b) % len == (a + b) % len
  {
    assert a == (a / len) * len + a % len;
    assert a + b == (a / len) * len + (a % len + b);
    ModAddMultiple(a / len, a % len + b, len);
  }
}
