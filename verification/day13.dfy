/** Day 13: bus schedules. Part 1 finds the bus that leaves first after a
    timestamp; part 2 finds the earliest timestamp at which every bus leaves
    at its offset in the list, by the Chinese Remainder Theorem over Rust's
    truncating `/` and `%`. */
module Day13 {
  import opened Wrappers
  import opened Arith
  import opened Decimal
  import opened Seqs

  // ----- Divisibility -----

  /** Multiplication behind a name, so that quantifiers have a term to match. */
  function Mul(a: int, b: int): int
  {
    a * b
  }

  ghost predicate Divides(d: int, n: int)
  {
    exists k :: n == Mul(d, k)
  }

  /** `a` and `b` have a Bezout combination equal to 1. */
  ghost predicate Bezout(a: int, b: int)
  {
    exists u, v :: Mul(a, u) + Mul(b, v) == 1
  }

  lemma DividesCombination(d: int, a: int, b: int, u: int, v: int)
    requires Divides(d, a) && Divides(d, b)
    ensures Divides(d, Mul(a, u) + Mul(b, v))
  {
    var ka :| a == Mul(d, ka);
    var kb :| b == Mul(d, kb);
    assert Mul(a, u) + Mul(b, v) == Mul(d, ka * u + kb * v);
  }

  lemma DividesDifference(d: int, a: int, b: int)
    requires Divides(d, a) && Divides(d, b)
    ensures Divides(d, a - b)
  {
    DividesCombination(d, a, b, 1, -1);
  }

  lemma DividesSum(d: int, a: int, b: int)
    requires Divides(d, a) && Divides(d, b)
    ensures Divides(d, a + b)
  {
    DividesCombination(d, a, b, 1, 1);
  }

  lemma DividesMultiple(d: int, a: int, c: int)
    requires Divides(d, a)
    ensures Divides(d, Mul(a, c))
  {
    var k :| a == Mul(d, k);
    assert Mul(a, c) == Mul(d, k * c);
  }

  lemma DividesTransitive(a: int, b: int, c: int)
    requires Divides(a, b) && Divides(b, c)
    ensures Divides(a, c)
  {
    var k :| b == Mul(a, k);
    var l :| c == Mul(b, l);
    assert c == Mul(a, k * l);
  }

  /** A non-negative divisor of 1 is 1. */
  lemma DividesOne(g: int)
    requires g >= 0 && Divides(g, 1)
    ensures g == 1
  {
    var k :| 1 == Mul(g, k);
  }

  /** Divisibility of a difference is congruence. */
  lemma DividesCongruent(m: int, a: int, b: int)
    requires m > 0 && Divides(m, a - b)
    ensures a % m == b % m
  {
    var k :| a - b == Mul(m, k);
    assert b == (b / m) * m + b % m;
    assert a == (k + b / m) * m + b % m;
    ModUnique(a, k + b / m, b % m, m);
  }

  lemma CongruentDivides(m: int, a: int, b: int)
    requires m > 0 && a % m == b % m
    ensures Divides(m, a - b)
  {
    assert a == (a / m) * m + a % m;
    assert b == (b / m) * m + b % m;
    assert a - b == Mul(m, a / m - b / m);
  }

  // ----- egcd and mod_inv -----

  datatype Gcd = Gcd(g: int, x: int, y: int)

  /** `egcd`: the recursion `egcd(b % a, a)` with Rust's `%` and `/`. It
      terminates because the truncating remainder is smaller than `a` in
      magnitude. */
  function Egcd(a: int, b: int): (r: Gcd)
    ensures a >= 0 && b >= 0 ==> r.g >= 0
    decreases Abs(a)
  {
    if a == 0 then Gcd(b, 0, 1)
    else
      var e := Egcd(Rem(b, a), a);
      Gcd(e.g, e.y - Quot(b, a) * e.x, e.x)
  }

  /** The coefficients are a Bezout combination: a·x + b·y == g. */
  lemma {:induction false} EgcdBezout(a: int, b: int)
    ensures Mul(a, Egcd(a, b).x) + Mul(b, Egcd(a, b).y) == Egcd(a, b).g
    decreases Abs(a)
  {
    if a != 0 {
      var r, q := Rem(b, a), Quot(b, a);
      var e := Egcd(r, a);
      EgcdBezout(r, a);
      QuotRem(b, a);
      BezoutStep(a, b, q, r, e.x, e.y, e.g);
    }
  }

  /** One step of the extended Euclidean algorithm keeps a·x + b·y == g. */
  lemma BezoutStep(a: int, b: int, q: int, r: int, x: int, y: int, g: int)
    requires q * a + r == b && Mul(r, x) + Mul(a, y) == g
    ensures Mul(a, y - q * x) + Mul(b, x) == g
  {
    assert b * x == q * a * x + r * x;
    assert a * (y - q * x) == a * y - q * a * x;
  }

  /** The result divides both arguments. */
  lemma {:induction false} EgcdDivides(a: int, b: int)
    ensures Divides(Egcd(a, b).g, a) && Divides(Egcd(a, b).g, b)
    decreases Abs(a)
  {
    var g := Egcd(a, b).g;
    if a == 0 {
      assert a == Mul(g, 0) && b == Mul(g, 1);
    } else {
      var r, q := Rem(b, a), Quot(b, a);
      EgcdDivides(r, a);
      QuotRem(b, a);
      DividesMultiple(g, a, q);
      assert b == Mul(a, q) + r;
      DividesSum(g, Mul(a, q), r);
    }
  }

  /** Every common divisor divides the result, so for non-negative arguments
      it is the greatest common divisor. */
  lemma EgcdGreatest(a: int, b: int, d: int)
    requires Divides(d, a) && Divides(d, b)
    ensures Divides(d, Egcd(a, b).g)
  {
    EgcdBezout(a, b);
    DividesCombination(d, a, b, Egcd(a, b).x, Egcd(a, b).y);
  }

  /** Coprime by the result of `egcd`. */
  predicate Coprime(a: int, b: int)
  {
    Egcd(a, b).g == 1
  }

  lemma CoprimeBezout(a: int, b: int)
    requires Coprime(a, b)
    ensures Bezout(a, b)
  {
    EgcdBezout(a, b);
  }

  /** For non-negative arguments a Bezout combination makes `egcd` return 1. */
  lemma BezoutCoprime(a: int, b: int)
    requires a >= 0 && b >= 0 && Bezout(a, b)
    ensures Coprime(a, b)
  {
    var u, v :| Mul(a, u) + Mul(b, v) == 1;
    EgcdDivides(a, b);
    DividesCombination(Egcd(a, b).g, a, b, u, v);
    DividesOne(Egcd(a, b).g);
  }

  /** `mod_inv`: the Bezout coefficient of `x`, brought into `[0, n)` for
      positive `n` by `(x % n + n) % n`; `None` when `egcd` does not return
      1. A zero `n` would divide by zero where `egcd` returns 1; every caller
      passes a non-zero modulus. */
  function ModInv(x: int, n: int): (r: Option<int>)
    requires n != 0
    ensures r.Some? <==> Coprime(x, n)
    ensures n > 0 && r.Some? ==> 0 <= r.value < n
  {
    var e := Egcd(x, n);
    if e.g == 1 then Some(Rem(Rem(e.x, n) + n, n)) else None
  }

  /** The inverse is an inverse: x·r ≡ 1 (mod n). */
  lemma ModInvInverse(x: int, n: int)
    requires n > 0 && ModInv(x, n).Some?
    ensures (x * ModInv(x, n).value) % n == 1 % n
  {
    var e := Egcd(x, n);
    EgcdBezout(x, n);
    var c := Rem(e.x, n);
    var r := Rem(c + n, n);
    assert ModInv(x, n).value == r;
    var q1, q2 := Quot(e.x, n), Quot(c + n, n);
    QuotRem(e.x, n);
    QuotRem(c + n, n);
    Recompose(e.x, n, q1, c, q2, r);
    InverseStep(x, n, e.x, e.y, 1 - q1 - q2, r);
  }

  /** Two truncating divisions in a row shift the dividend by a multiple of
      the divisor. */
  lemma Recompose(u: int, n: int, q1: int, c: int, q2: int, r: int)
    requires q1 * n + c == u && q2 * n + r == c + n
    ensures r == u + n * (1 - q1 - q2)
  {
    assert n * (1 - q1 - q2) == n - q1 * n - q2 * n;
  }

  /** Shifting a Bezout coefficient by a multiple of `n` keeps it an inverse. */
  lemma InverseStep(x: int, n: int, u: int, v: int, k: int, r: int)
    requires n > 0 && Mul(x, u) + Mul(n, v) == 1 && r == u + n * k
    ensures (x * r) % n == 1 % n
  {
    assert x * r == x * u + n * (x * k);
    assert x * r - 1 == Mul(n, x * k - v);
    DividesCongruent(n, x * r, 1);
  }

  /** For non-negative `x`, an inverse exists only when `mod_inv` finds one. */
  lemma ModInvComplete(x: int, n: int, r: int)
    requires x >= 0 && n > 0 && (x * r) % n == 1 % n
    ensures ModInv(x, n).Some?
  {
    CongruentDivides(n, x * r, 1);
    var k :| x * r - 1 == Mul(n, k);
    assert Mul(x, r) + Mul(n, -k) == 1;
    BezoutCoprime(x, n);
  }

  // ----- chinese_remainder -----

  /** One bus of part 2: the timestamp must be `residue` modulo `modulus`. */
  datatype Congruence = Congruence(modulus: int, residue: int)

  /** The product of the moduli, 1 for none. */
  function Product(buses: seq<Congruence>): int
  {
    if buses == [] then 1 else Mul(buses[0].modulus, Product(buses[1..]))
  }

  predicate NonZero(buses: seq<Congruence>)
  {
    forall k :: 0 <= k < |buses| ==> buses[k].modulus != 0
  }

  predicate Positive(buses: seq<Congruence>)
  {
    forall k :: 0 <= k < |buses| ==> buses[k].modulus > 0
  }

  predicate PairwiseCoprime(buses: seq<Congruence>)
  {
    forall i, j :: 0 <= i < |buses| && 0 <= j < |buses| && i != j ==> Coprime(buses[i].modulus, buses[j].modulus)
  }

  lemma {:induction false} ProductSign(buses: seq<Congruence>)
    ensures NonZero(buses) ==> Product(buses) != 0
    ensures Positive(buses) ==> Product(buses) > 0
  {
    if buses != [] {
      ProductSign(buses[1..]);
      assert NonZero(buses) ==> NonZero(buses[1..]);
      assert Positive(buses) ==> Positive(buses[1..]);
    }
  }

  /** `prod / modulus` for bus `k`. */
  function Share(buses: seq<Congruence>, prod: int, k: nat): int
    requires k < |buses| && NonZero(buses)
  {
    Quot(prod, buses[k].modulus)
  }

  /** The loop of `chinese_remainder` from bus `k` on: the sum of
      `residue * mod_inv(p, modulus) * p`, `None` at the first failing
      `mod_inv`. */
  function CrtSum(buses: seq<Congruence>, prod: int, k: nat): (r: Option<int>)
    requires k <= |buses| && NonZero(buses)
    ensures r.None? <==> exists j :: k <= j < |buses| && ModInv(Share(buses, prod, j), buses[j].modulus).None?
    decreases |buses| - k
  {
    if k == |buses| then Some(0)
    else
      var p := Share(buses, prod, k);
      match ModInv(p, buses[k].modulus)
      case None => None
      case Some(inverse) =>
        match CrtSum(buses, prod, k + 1)
        case None => None
        case Some(rest) => Some(Mul(buses[k].residue, Mul(inverse, p)) + rest)
  }

  /** `chinese_remainder` as written: the sum reduced with Rust's `%`, which
      keeps the sign of a negative sum. */
  function ChineseRemainderAsWritten(buses: seq<Congruence>): (r: Option<int>)
    requires NonZero(buses)
    ensures r.None? <==> exists j :: 0 <= j < |buses| && ModInv(Share(buses, Product(buses), j), buses[j].modulus).None?
  {
    var prod := Product(buses);
    ProductSign(buses);
    match CrtSum(buses, prod, 0)
    case None => None
    case Some(sum) => Some(Rem(sum, prod))
  }

  /** `chinese_remainder` with the sum reduced into `[0, |prod|)`, as
      `rem_euclid` does: the earliest non-negative timestamp. */
  function ChineseRemainder(buses: seq<Congruence>): (r: Option<int>)
    requires NonZero(buses)
    ensures r.None? <==> exists j :: 0 <= j < |buses| && ModInv(Share(buses, Product(buses), j), buses[j].modulus).None?
    ensures r.Some? ==> 0 <= r.value < Abs(Product(buses))
  {
    var prod := Product(buses);
    ProductSign(buses);
    match CrtSum(buses, prod, 0)
    case None => None
    case Some(sum) => Some(sum % prod)
  }

  // ----- Correctness for pairwise coprime positive moduli -----

  /** The buses other than bus `i`. */
  function Without(buses: seq<Congruence>, i: nat): (r: seq<Congruence>)
    requires i < |buses|
    ensures |r| == |buses| - 1
    ensures forall k :: 0 <= k < |r| ==> r[k] == buses[if k < i then k else k + 1]
  {
    buses[..i] + buses[i + 1..]
  }

  lemma {:induction false} ProductWithout(buses: seq<Congruence>, i: nat)
    requires i < |buses|
    ensures Product(buses) == Mul(buses[i].modulus, Product(Without(buses, i)))
  {
    if i == 0 {
      assert Without(buses, 0) == buses[1..];
    } else {
      var tail := buses[1..];
      ProductWithout(tail, i - 1);
      var w := Without(tail, i - 1);
      assert Without(buses, i) == [buses[0]] + w;
      assert ([buses[0]] + w)[1..] == w;
      var a, b := buses[0].modulus, buses[i].modulus;
      var c := Product(w);
      assert Mul(a, Mul(b, c)) == Mul(b, Mul(a, c));
    }
  }

  /** Every modulus divides the product. */
  lemma ProductDivisible(buses: seq<Congruence>, j: nat)
    requires j < |buses|
    ensures Divides(buses[j].modulus, Product(buses))
  {
    ProductWithout(buses, j);
  }

  /** `prod / modulus` is the product of the other moduli. */
  lemma ShareIsProduct(buses: seq<Congruence>, i: nat)
    requires Positive(buses) && i < |buses|
    ensures Share(buses, Product(buses), i) == Product(Without(buses, i))
  {
    ProductWithout(buses, i);
    ProductSign(buses);
    var w := Without(buses, i);
    assert Positive(w);
    ProductSign(w);
    ModUnique(Product(buses), Product(w), 0, buses[i].modulus);
  }

  lemma BezoutProduct(a: int, b: int, m: int)
    requires Bezout(a, m) && Bezout(b, m)
    ensures Bezout(Mul(a, b), m)
  {
    var u1, v1 :| Mul(a, u1) + Mul(m, v1) == 1;
    var u2, v2 :| Mul(b, u2) + Mul(m, v2) == 1;
    assert (a * u1) * (b * u2) == (1 - m * v1) * (1 - m * v2);
    assert Mul(Mul(a, b), u1 * u2) + Mul(m, v1 + v2 - m * v1 * v2) == 1;
  }

  lemma {:induction false} BezoutProductAll(buses: seq<Congruence>, m: int)
    requires forall k :: 0 <= k < |buses| ==> Bezout(buses[k].modulus, m)
    ensures Bezout(Product(buses), m)
  {
    if buses == [] {
      assert Mul(1, 1) + Mul(m, 0) == 1;
    } else {
      BezoutProductAll(buses[1..], m);
      BezoutProduct(buses[0].modulus, Product(buses[1..]), m);
    }
  }

  /** Coprime moduli divide a number only together. */
  lemma CoprimeDivides(a: int, b: int, d: int)
    requires Bezout(a, b) && Divides(a, d) && Divides(b, d)
    ensures Divides(Mul(a, b), d)
  {
    var u, v :| Mul(a, u) + Mul(b, v) == 1;
    var k :| d == Mul(a, k);
    var l :| d == Mul(b, l);
    assert d == d * (a * u) + d * (b * v);
    assert d * (a * u) == (b * l) * (a * u);
    assert d * (b * v) == (a * k) * (b * v);
    assert d == Mul(Mul(a, b), l * u + k * v);
  }

  /** The share of each bus is coprime to its modulus, so `mod_inv` succeeds. */
  lemma CoprimeShare(buses: seq<Congruence>, i: nat)
    requires Positive(buses) && PairwiseCoprime(buses) && i < |buses|
    ensures Coprime(Share(buses, Product(buses), i), buses[i].modulus)
  {
    var w := Without(buses, i);
    var m := buses[i].modulus;
    forall k | 0 <= k < |w|
      ensures Bezout(w[k].modulus, m)
    {
      CoprimeBezout(w[k].modulus, m);
    }
    BezoutProductAll(w, m);
    assert Positive(w);
    ProductSign(w);
    ShareIsProduct(buses, i);
    BezoutCoprime(Product(w), m);
  }

  lemma PairwiseCoprimeTail(buses: seq<Congruence>)
    requires buses != [] && PairwiseCoprime(buses) && Positive(buses)
    ensures PairwiseCoprime(buses[1..]) && Positive(buses[1..])
  {
    var tail := buses[1..];
    forall i, j | 0 <= i < |tail| && 0 <= j < |tail| && i != j
      ensures Coprime(tail[i].modulus, tail[j].modulus)
    {
      assert tail[i] == buses[i + 1] && tail[j] == buses[j + 1];
    }
  }

  lemma MulMinusOne(a: int, b: int, c: int)
    ensures Mul(a * b - 1, c) == Mul(c, Mul(b, a)) - c
  {
  }

  lemma MulRotate(a: int, b: int, c: int)
    ensures Mul(a, b * c) == Mul(b, Mul(c, a))
  {
  }

  /** The partial sum from bus `k` on is congruent to bus `i`'s residue when
      it includes bus `i`, and to 0 otherwise. */
  lemma {:induction false} CrtSumCongruent(buses: seq<Congruence>, i: nat, k: nat)
    requires Positive(buses) && PairwiseCoprime(buses) && i < |buses| && k <= |buses|
    requires CrtSum(buses, Product(buses), k).Some?
    ensures Divides(buses[i].modulus, CrtSum(buses, Product(buses), k).value - (if k <= i then buses[i].residue else 0))
    decreases |buses| - k
  {
    var prod := Product(buses);
    var m := buses[i].modulus;
    if k == |buses| {
      assert 0 == Mul(m, 0);
    } else {
      var p := Share(buses, prod, k);
      var inverse := ModInv(p, buses[k].modulus).value;
      var rest := CrtSum(buses, prod, k + 1).value;
      var term := Mul(buses[k].residue, Mul(inverse, p));
      assert CrtSum(buses, prod, k).value == term + rest;
      CrtSumCongruent(buses, i, k + 1);
      if k == i {
        ModInvInverse(p, m);
        CongruentDivides(m, p * inverse, 1);
        DividesMultiple(m, p * inverse - 1, buses[i].residue);
        MulMinusOne(p, inverse, buses[i].residue);
        DividesSum(m, term - buses[i].residue, rest);
      } else {
        ShareIsProduct(buses, k);
        ProductDivisible(Without(buses, k), if i < k then i else i - 1);
        DividesMultiple(m, p, buses[k].residue * inverse);
        MulRotate(p, buses[k].residue, inverse);
        DividesSum(m, term, rest - (if k + 1 <= i then buses[i].residue else 0));
      }
    }
  }

  lemma DivisionRemainder(a: int, m: int)
    requires m > 0
    ensures a - a % m == Mul(m, a / m)
  {
  }

  /** For pairwise coprime positive moduli the result exists and meets every
      congruence. */
  lemma ChineseRemainderSolves(buses: seq<Congruence>)
    requires Positive(buses) && PairwiseCoprime(buses)
    ensures ChineseRemainder(buses).Some?
    ensures forall i :: 0 <= i < |buses| ==>
              ChineseRemainder(buses).value % buses[i].modulus == buses[i].residue % buses[i].modulus
  {
    var prod := Product(buses);
    ProductSign(buses);
    forall j | 0 <= j < |buses|
      ensures ModInv(Share(buses, prod, j), buses[j].modulus).Some?
    {
      CoprimeShare(buses, j);
    }
    var sum := CrtSum(buses, prod, 0).value;
    var r := ChineseRemainder(buses).value;
    assert r == sum % prod;
    forall i | 0 <= i < |buses|
      ensures r % buses[i].modulus == buses[i].residue % buses[i].modulus
    {
      var m := buses[i].modulus;
      CrtSumCongruent(buses, i, 0);
      ProductDivisible(buses, i);
      DividesMultiple(m, prod, sum / prod);
      DivisionRemainder(sum, prod);
      DividesDifference(m, sum - buses[i].residue, sum - r);
      DividesCongruent(m, r, buses[i].residue);
    }
  }

  /** The moduli together divide every number that each of them divides. */
  lemma {:induction false} ProductDivides(buses: seq<Congruence>, d: int)
    requires Positive(buses) && PairwiseCoprime(buses)
    requires forall k :: 0 <= k < |buses| ==> Divides(buses[k].modulus, d)
    ensures Divides(Product(buses), d)
  {
    if buses == [] {
      assert d == Mul(1, d);
    } else {
      var tail := buses[1..];
      var m := buses[0].modulus;
      PairwiseCoprimeTail(buses);
      assert forall k :: 0 <= k < |tail| ==> tail[k] == buses[k + 1];
      ProductDivides(tail, d);
      forall k | 0 <= k < |tail|
        ensures Bezout(tail[k].modulus, m)
      {
        CoprimeBezout(buses[k + 1].modulus, m);
      }
      BezoutProductAll(tail, m);
      CoprimeDivides(Product(tail), m, d);
      assert Mul(Product(tail), m) == Mul(m, Product(tail));
    }
  }

  /** The result is the earliest: no non-negative number meeting every
      congruence is smaller. */
  lemma ChineseRemainderLeast(buses: seq<Congruence>, t: int)
    requires Positive(buses) && PairwiseCoprime(buses)
    requires t >= 0 && forall i :: 0 <= i < |buses| ==> t % buses[i].modulus == buses[i].residue % buses[i].modulus
    ensures ChineseRemainder(buses).Some? && ChineseRemainder(buses).value <= t
  {
    ChineseRemainderSolves(buses);
    var r := ChineseRemainder(buses).value;
    var prod := Product(buses);
    forall i | 0 <= i < |buses|
      ensures Divides(buses[i].modulus, t - r)
    {
      CongruentDivides(buses[i].modulus, t, r);
    }
    ProductDivides(buses, t - r);
    ProductSign(buses);
    assert r < prod;
    NoMultipleBelow(prod, t - r);
  }

  /** A multiple of a positive `m` above `-m` is not negative. */
  lemma NoMultipleBelow(m: int, x: int)
    requires m > 0 && x > -m && Divides(m, x)
    ensures x >= 0
  {
    var q :| x == Mul(m, q);
    if q < 0 {
      MulAtLeast(-q, m);
    }
  }

  /** The result as written lies in the right residue class modulo the
      product: it differs from the corrected one only by a multiple of the
      product, and for a negative sum it is negative. */
  lemma AsWrittenCongruent(buses: seq<Congruence>)
    requires NonZero(buses) && ChineseRemainderAsWritten(buses).Some?
    ensures ChineseRemainder(buses).Some?
    ensures ChineseRemainderAsWritten(buses).value % Product(buses) == ChineseRemainder(buses).value
  {
    var prod := Product(buses);
    ProductSign(buses);
    RemCongruent(CrtSum(buses, prod, 0).value, prod);
  }

  /** Rust's remainder is congruent to the dividend. */
  lemma RemCongruent(a: int, b: int)
    requires b != 0
    ensures Rem(a, b) % b == a % b
  {
    QuotRem(a, b);
    var q := if b > 0 then -Quot(a, b) else Quot(a, b);
    assert Rem(a, b) - a == Mul(Abs(b), q);
    DividesCongruent(Abs(b), Rem(a, b), a);
  }

  /** The schedule "2,x,x,x,x,3": bus 2 at offset 0 and bus 3 at offset 5.
      The sum of the terms is 6 - 8 = -2, which Rust's `%` leaves negative;
      the earliest timestamp is 4. */
  lemma AsWrittenNegative()
    ensures ChineseRemainderAsWritten([Congruence(2, 2), Congruence(3, -2)]) == Some(-2)
    ensures ChineseRemainder([Congruence(2, 2), Congruence(3, -2)]) == Some(4)
  {
    var buses := [Congruence(2, 2), Congruence(3, -2)];
    assert buses[1..] == [Congruence(3, -2)];
    assert Product(buses) == 6;
    ExampleSum();
    assert Rem(-2, 6) == -2;
  }

  lemma ExampleInverses()
    ensures ModInv(3, 2) == Some(1) && ModInv(2, 3) == Some(2)
  {
    assert Mul(3, 1) + Mul(2, -1) == 1;
    BezoutCoprime(3, 2);
    ModInvInverse(3, 2);
    assert Mul(2, -1) + Mul(3, 1) == 1;
    BezoutCoprime(2, 3);
    ModInvInverse(2, 3);
  }

  lemma ExampleSum()
    ensures CrtSum([Congruence(2, 2), Congruence(3, -2)], 6, 0) == Some(-2)
  {
    var buses := [Congruence(2, 2), Congruence(3, -2)];
    ExampleInverses();
    assert Share(buses, 6, 0) == 3 && Share(buses, 6, 1) == 2;
    assert CrtSum(buses, 6, 1) == Some(-8);
  }

  // ----- part1 -----

  /** `(t / id) * id + id`, the departure `part1` computes for bus `id`. */
  function Departure(t: nat, id: nat): nat
    requires id > 0
  {
    (t / id) * id + id
  }

  /** The departure is the least multiple of `id` strictly after `t`. */
  lemma DepartureLeast(t: nat, id: nat, d: nat)
    requires id > 0
    ensures Departure(t, id) > t && Departure(t, id) % id == 0
    ensures d > t && d % id == 0 ==> d >= Departure(t, id)
  {
    var q := t / id;
    DivisionRemainder(t, id);
    assert Departure(t, id) == Mul(id, q + 1);
    ModUnique(Departure(t, id), q + 1, 0, id);
    if d > t && d % id == 0 {
      var k := d / id;
      DivisionRemainder(d, id);
      if k <= q {
        MulMonotone(k, q, id);
      }
    }
  }

  lemma MulMonotone(a: int, b: int, c: nat)
    requires a <= b
    ensures Mul(c, a) <= Mul(c, b)
  {
    if a < b {
      if c > 0 {
        MulAtLeast(c, b - a);
      }
      assert Mul(c, b) - Mul(c, a) == c * (b - a);
    }
  }

  /** The numeric entries of the bus line, in order; `x` entries are dropped. */
  function BusIds(entries: seq<string>): (ids: seq<nat>)
    ensures |ids| <= |entries|
  {
    if entries == [] then []
    else
      var head := match ParseUnsigned(entries[0], U64_LIMIT) case Some(v) => [v] case None => [];
      head + BusIds(entries[1..])
  }

  /** The ids are exactly the values of the numeric entries. */
  lemma {:induction false} BusIdsExact(entries: seq<string>, id: nat)
    ensures id in BusIds(entries) <==> exists j :: 0 <= j < |entries| && ParseUnsigned(entries[j], U64_LIMIT) == Some(id)
  {
    if entries != [] {
      BusIdsExact(entries[1..], id);
      var head := match ParseUnsigned(entries[0], U64_LIMIT) case Some(v) => [v] case None => [];
      assert BusIds(entries) == head + BusIds(entries[1..]);
      if exists j :: 0 <= j < |entries| && ParseUnsigned(entries[j], U64_LIMIT) == Some(id) {
        var j :| 0 <= j < |entries| && ParseUnsigned(entries[j], U64_LIMIT) == Some(id);
        if j > 0 {
          assert entries[1..][j - 1] == entries[j];
        }
      }
      if id in BusIds(entries[1..]) {
        var j :| 0 <= j < |entries[1..]| && ParseUnsigned(entries[1..][j], U64_LIMIT) == Some(id);
        assert entries[j + 1] == entries[1..][j];
      }
    }
  }

  /** The position of the earliest departure, the first one among equals, as
      the stable sort by departure leaves it in front. */
  function Earliest(t: nat, ids: seq<nat>): (k: nat)
    requires |ids| > 0 && forall j :: 0 <= j < |ids| ==> ids[j] > 0
    ensures k < |ids|
    ensures forall j :: 0 <= j < |ids| ==> Departure(t, ids[k]) <= Departure(t, ids[j])
    ensures forall j :: 0 <= j < k ==> Departure(t, ids[k]) < Departure(t, ids[j])
  {
    if |ids| == 1 then 0
    else
      var last := |ids| - 1;
      var k := Earliest(t, ids[..last]);
      assert forall j :: 0 <= j < last ==> ids[..last][j] == ids[j];
      if Departure(t, ids[last]) < Departure(t, ids[k]) then last else k
  }

  /** `v` is the wait times the id of the first bus whose departure after `t`
      is the earliest. */
  ghost predicate BestWait(t: nat, ids: seq<nat>, v: nat)
  {
    (forall j :: 0 <= j < |ids| ==> ids[j] > 0)
    && exists k :: (0 <= k < |ids|
                    && v == (Departure(t, ids[k]) - t) * ids[k]
                    && (forall j :: 0 <= j < |ids| ==> Departure(t, ids[k]) <= Departure(t, ids[j]))
                    && forall j :: 0 <= j < k ==> Departure(t, ids[k]) < Departure(t, ids[j]))
  }

  /** `part1`: the wait for the earliest bus times its id. The first line must
      be a `u64` and a second line must exist; a zero id divides by zero and no
      id at all leaves nothing to pick. */
  function Part1(lines: seq<string>): (r: Option<nat>)
    ensures r.Some? ==> |lines| >= 2 && ParseUnsigned(lines[0], U64_LIMIT).Some?
    ensures r.Some? ==> BestWait(ParseUnsigned(lines[0], U64_LIMIT).value, BusIds(Split(lines[1], ',')), r.value)
    ensures r.None? <==> |lines| < 2 || ParseUnsigned(lines[0], U64_LIMIT).None?
                         || BusIds(Split(lines[1], ',')) == [] || 0 in BusIds(Split(lines[1], ','))
  {
    if |lines| < 2 then None
    else
      match ParseUnsigned(lines[0], U64_LIMIT)
      case None => None
      case Some(t) =>
        var ids := BusIds(Split(lines[1], ','));
        if ids == [] || 0 in ids then None
        else
          assert forall j :: 0 <= j < |ids| ==> ids[j] > 0;
          Some(Wait(t, ids))
  }

  /** The wait for the earliest bus times its id. */
  function Wait(t: nat, ids: seq<nat>): (v: nat)
    requires |ids| > 0 && forall j :: 0 <= j < |ids| ==> ids[j] > 0
    ensures BestWait(t, ids, v)
  {
    var k := Earliest(t, ids);
    DepartureLeast(t, ids[k], 0);
    (Departure(t, ids[k]) - t) * ids[k]
  }

  // ----- part2 -----

  /** The buses of the last line: each numeric entry becomes (id, id -
      offset) with its offset in the list; other entries are skipped. */
  function Schedule(entries: seq<string>, offset: nat): (buses: seq<Congruence>)
    ensures |buses| <= |entries|
  {
    if entries == [] then []
    else
      var head := match ParseSigned(entries[0], I64_LIMIT)
        case Some(id) => [Congruence(id, id - offset)]
        case None => [];
      head + Schedule(entries[1..], offset + 1)
  }

  /** Every bus comes from a numeric entry at its offset. */
  lemma {:induction false} ScheduleSound(entries: seq<string>, offset: nat, k: nat)
    requires k < |Schedule(entries, offset)|
    ensures var c := Schedule(entries, offset)[k];
            exists j :: (0 <= j < |entries|
                         && ParseSigned(entries[j], I64_LIMIT) == Some(c.modulus)
                         && c.residue == c.modulus - (offset + j))
  {
    var head := match ParseSigned(entries[0], I64_LIMIT)
      case Some(id) => [Congruence(id, id - offset)]
      case None => [];
    var tail := Schedule(entries[1..], offset + 1);
    assert Schedule(entries, offset) == head + tail;
    if k < |head| {
      assert ParseSigned(entries[0], I64_LIMIT) == Some(Schedule(entries, offset)[k].modulus);
    } else {
      ScheduleSound(entries[1..], offset + 1, k - |head|);
      var c := tail[k - |head|];
      var j :| (0 <= j < |entries[1..]|
                && ParseSigned(entries[1..][j], I64_LIMIT) == Some(c.modulus)
                && c.residue == c.modulus - (offset + 1 + j));
      assert entries[1..][j] == entries[j + 1];
    }
  }

  /** Every numeric entry becomes a bus. */
  lemma {:induction false} ScheduleComplete(entries: seq<string>, offset: nat, j: nat)
    requires j < |entries| && ParseSigned(entries[j], I64_LIMIT).Some?
    ensures var id := ParseSigned(entries[j], I64_LIMIT).value;
            Congruence(id, id - (offset + j)) in Schedule(entries, offset)
  {
    var head := match ParseSigned(entries[0], I64_LIMIT)
      case Some(id) => [Congruence(id, id - offset)]
      case None => [];
    var tail := Schedule(entries[1..], offset + 1);
    assert Schedule(entries, offset) == head + tail;
    if j > 0 {
      assert entries[1..][j - 1] == entries[j];
      ScheduleComplete(entries[1..], offset + 1, j - 1);
    }
  }

  /** `part2`: the corrected Chinese remainder over the schedule of the last
      line. No line, a zero id (division by zero) or a failing inverse (the
      `unwrap`) panics. */
  function Part2(lines: seq<string>): (r: Option<int>)
    ensures r.Some? ==> lines != [] && r.value >= 0
    ensures r.None? <==> lines == [] || !NonZero(LastSchedule(lines))
                         || exists j :: 0 <= j < |LastSchedule(lines)| &&
                              ModInv(Share(LastSchedule(lines), Product(LastSchedule(lines)), j), LastSchedule(lines)[j].modulus).None?
  {
    if lines == [] then None
    else
      var buses := LastSchedule(lines);
      if !NonZero(buses) then None
      else ChineseRemainder(buses)
  }

  /** `part2` as written, with `chinese_remainder`'s sign-keeping `%`: it
      fails exactly when the corrected `Part2` does, and otherwise lies in
      the corrected answer's residue class modulo the product of the ids,
      where it may be negative. */
  function Part2AsWritten(lines: seq<string>): (r: Option<int>)
    ensures r.None? <==> Part2(lines).None?
    ensures r.Some? ==> lines != [] && NonZero(LastSchedule(lines)) && Part2(lines).Some? &&
                        r.value % Product(LastSchedule(lines)) == Part2(lines).value
  {
    if lines == [] then None
    else
      var buses := LastSchedule(lines);
      if !NonZero(buses) then None
      else
        var r := ChineseRemainderAsWritten(buses);
        if r.Some? then AsWrittenCongruent(buses); r else r
  }

  /** On the one-line input "2,x,x,x,x,3", `part2` as written answers -2,
      where the earliest timestamp is 4. */
  lemma Part2AsWrittenNegative()
    ensures Part2AsWritten(["2,x,x,x,x,3"]) == Some(-2)
    ensures Part2(["2,x,x,x,x,3"]) == Some(4)
  {
    ExampleSchedule();
    AsWrittenNegative();
  }

  /** The last line "2,x,x,x,x,3" schedules bus 2 at offset 0 and bus 3 at
      offset 5. */
  lemma ExampleSchedule()
    ensures LastSchedule(["2,x,x,x,x,3"]) == [Congruence(2, 2), Congruence(3, -2)]
  {
    var parts := ["2", "x", "x", "x", "x", "3"];
    assert Join(parts, ',') == "2,x,x,x,x,3";
    SplitJoin(parts, ',');
    ExampleEntries(parts);
  }

  lemma ExampleEntries(parts: seq<string>)
    requires parts == ["2", "x", "x", "x", "x", "3"]
    ensures Schedule(parts, 0) == [Congruence(2, 2), Congruence(3, -2)]
  {
    assert ParseSigned("2", I64_LIMIT) == Some(2) && ParseSigned("3", I64_LIMIT) == Some(3);
    assert ParseSigned("x", I64_LIMIT).None?;
    assert Schedule(parts[5..], 5) == [Congruence(3, -2)];
    assert Schedule(parts[4..], 4) == [Congruence(3, -2)];
    assert Schedule(parts[3..], 3) == [Congruence(3, -2)];
    assert Schedule(parts[2..], 2) == [Congruence(3, -2)];
    assert Schedule(parts[1..], 1) == [Congruence(3, -2)];
  }

  /** The buses of the last line. */
  function LastSchedule(lines: seq<string>): seq<Congruence>
    requires lines != []
  {
    Schedule(Split(lines[|lines| - 1], ','), 0)
  }

  /** Bus `c` leaves at `t + offset` exactly when `t` meets its congruence. */
  lemma OffsetCongruence(t: int, c: Congruence)
    requires c.modulus > 0
    ensures (t + (c.modulus - c.residue)) % c.modulus == 0 <==> t % c.modulus == c.residue % c.modulus
  {
    var m := c.modulus;
    var x := t + (m - c.residue);
    if x % m == 0 {
      CongruentDivides(m, x, 0);
      var k :| x - 0 == Mul(m, k);
      assert t - c.residue == Mul(m, k - 1);
      DividesCongruent(m, t, c.residue);
    }
    if t % m == c.residue % m {
      CongruentDivides(m, t, c.residue);
      var k :| t - c.residue == Mul(m, k);
      assert x - 0 == Mul(m, k + 1);
      DividesCongruent(m, x, 0);
    }
  }

  /** Bus `c` leaves `t + offset`, where the offset is `modulus - residue`. */
  predicate LeavesAtOffset(t: int, c: Congruence)
    requires c.modulus > 0
  {
    (t + (c.modulus - c.residue)) % c.modulus == 0
  }

  /** For positive pairwise coprime ids, `part2` is a timestamp at which every
      bus leaves at its offset. */
  lemma Part2Departs(lines: seq<string>)
    requires lines != []
    requires var buses := Schedule(Split(lines[|lines| - 1], ','), 0);
             Positive(buses) && PairwiseCoprime(buses)
    ensures Part2(lines).Some?
    ensures var buses := Schedule(Split(lines[|lines| - 1], ','), 0);
            forall k :: 0 <= k < |buses| ==> LeavesAtOffset(Part2(lines).value, buses[k])
  {
    var buses := Schedule(Split(lines[|lines| - 1], ','), 0);
    ChineseRemainderSolves(buses);
    assert Part2(lines) == ChineseRemainder(buses);
    var r := ChineseRemainder(buses).value;
    forall k | 0 <= k < |buses|
      ensures LeavesAtOffset(r, buses[k])
    {
      OffsetCongruence(r, buses[k]);
    }
  }

  /** No earlier non-negative timestamp has every bus leave at its offset. */
  lemma Part2Least(lines: seq<string>, t: int)
    requires lines != []
    requires var buses := Schedule(Split(lines[|lines| - 1], ','), 0);
             Positive(buses) && PairwiseCoprime(buses)
             && t >= 0 && forall k :: 0 <= k < |buses| ==> LeavesAtOffset(t, buses[k])
    ensures Part2(lines).Some? && Part2(lines).value <= t
  {
    var buses := Schedule(Split(lines[|lines| - 1], ','), 0);
    forall k | 0 <= k < |buses|
      ensures t % buses[k].modulus == buses[k].residue % buses[k].modulus
    {
      OffsetCongruence(t, buses[k]);
    }
    ChineseRemainderLeast(buses, t);
    assert Part2(lines) == ChineseRemainder(buses);
  }
}
