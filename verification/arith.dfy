/** Integer helpers: multiplication as repeated addition (which keeps the
    verifier's arithmetic linear), facts about Euclidean `%`, and Rust's
    truncating `/` and `%`. */
module Arith {

  /** `b` blocks of `q`, written as repeated addition; `ScaleIsProduct` shows
      it is `b * q`. */
  function Scale(b: nat, q: nat): nat
  {
    if b == 0 then 0 else Scale(b - 1, q) + q
  }

  lemma {:induction false} ScaleIsProduct(b: nat, q: nat)
    ensures Scale(b, q) == b * q
  {
    if b > 0 {
      ScaleIsProduct(b - 1, q);
      assert b * q == (b - 1) * q + q;
    }
  }

  lemma {:induction false} ScaleMono(a: nat, b: nat, q: nat)
    requires a <= b
    ensures Scale(a, q) <= Scale(b, q)
    decreases b
  {
    if a < b {
      ScaleMono(a, b - 1, q);
    }
  }

  lemma {:induction false} ScaleAtLeast(b: nat, q: nat)
    requires q >= 1
    ensures Scale(b, q) >= b
  {
    if b > 0 {
      ScaleAtLeast(b - 1, q);
    }
  }

  lemma {:induction false} MulAtLeast(d: nat, w: nat)
    requires d >= 1
    ensures d * w >= w
  {
    if d > 1 {
      MulAtLeast(d - 1, w);
      assert d * w == (d - 1) * w + w;
    }
  }

  /** Quotient and remainder are unique. */
  lemma ModUnique(x: int, q: int, r: int, w: int)
    requires w > 0 && 0 <= r < w && x == q * w + r
    ensures x % w == r && x / w == q
  {
    var q', r' := x / w, x % w;
    assert x == q' * w + r';
    if q > q' {
      MulAtLeast(q - q', w);
    } else if q < q' {
      MulAtLeast(q' - q, w);
    }
  }

  /** Reducing a summand first does not change the remainder. */
  lemma ModAdd(a: nat, b: nat, w: nat)
    requires w > 0
    ensures (a % w + b) % w == (a + b) % w
  {
    var x := a % w + b;
    var q := x / w;
    var r := x % w;
    assert x == q * w + r;
    var qa := a / w;
    assert a == qa * w + a % w;
    assert (q + qa) * w == q * w + qa * w;
    ModUnique(a + b, q + qa, r, w);
  }

  /** The multiples of `q` are exactly the values of `Scale(_, q)`. */
  lemma ScaleMultiple(j: nat, q: nat)
    requires q > 0
    ensures j % q == 0 <==> exists k: nat :: k <= j && Scale(k, q) == j
  {
    if j % q == 0 {
      var k := j / q;
      assert j == k * q + j % q;
      ModUnique(j, k, 0, q);
      ScaleIsProduct(k, q);
      assert k <= j by {
        if k > 0 { MulAtLeast(q, k); }
      }
    } else {
      if exists k: nat :: k <= j && Scale(k, q) == j {
        var k: nat :| k <= j && Scale(k, q) == j;
        ScaleIsProduct(k, q);
        ModUnique(j, k, 0, q);
      }
    }
  }

  function Abs(n: int): nat
  {
    if n < 0 then -n else n
  }

  /** Rust's `%` on signed integers: the remainder takes the sign of the
      dividend (truncating division), unlike Dafny's Euclidean `%`. */
  function Rem(a: int, b: int): (r: int)
    requires b != 0
    ensures -(Abs(b) as int) < r < Abs(b)
    ensures a >= 0 && b > 0 ==> r == a % b
    ensures a >= 0 ==> r >= 0
    ensures a <= 0 ==> r <= 0
  {
    var m := Abs(b);
    if a >= 0 then a % m else -((-a) % m)
  }

  /** Rust's `/` on signed integers: the quotient is rounded toward zero. */
  function Quot(a: int, b: int): (q: int)
    requires b != 0
    ensures a >= 0 && b > 0 ==> q == a / b
  {
    var q := Abs(a) / Abs(b);
    if (a < 0) == (b < 0) then q else -q
  }

  /** Truncating quotient and remainder recompose the dividend. */
  lemma QuotRem(a: int, b: int)
    requires b != 0
    ensures Quot(a, b) * b + Rem(a, b) == a
  {
    var m := Abs(b);
    var n := Abs(a);
    assert n == (n / m) * m + n % m;
    if b < 0 {
      assert (n / m) * b == -((n / m) * m);
    }
  }
}
