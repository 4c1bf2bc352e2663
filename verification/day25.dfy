/** Day 25: combo breaker. A device transforms a subject number by a
    loop size: start from 1 and, once per round, multiply by the subject
    and reduce modulo 20201227. The card and the door publish the
    transforms of 7 by their secret loop sizes; the program recovers the
    card's loop size by counting rounds and transforms the door's public
    key by it to get the shared encryption key. */
module Day25 {
  import opened Wrappers
  import opened Arith

  const MODULUS: nat := 20201227

  /** The subject number of the public keys. */
  const SUBJECT: nat := 7

  /** 2^64: a `u64` product that reaches it overflows, which panics. */
  const U64: nat := 0x1_0000_0000_0000_0000

  function Pow(b: nat, n: nat): nat
  {
    if n == 0 then 1 else Pow(b, n - 1) * b
  }

  /** The public key of a loop size: the subject number transformed. */
  function PublicKey(loopSize: nat): nat
  {
    Pow(SUBJECT, loopSize) % MODULUS
  }

  // ------------------------------------------------------ arithmetic

  /** Reducing a factor first does not change the remainder. */
  lemma ModMul(a: nat, b: nat, m: nat)
    requires m > 0
    ensures (a % m) * b % m == a * b % m
  {
    var q, r := a / m, (a % m) * b;
    assert a == q * m + a % m;
    assert a * b == q * b * m + r;
    assert r == r / m * m + r % m;
    assert a * b == (q * b + r / m) * m + r % m;
    ModUnique(a * b, q * b + r / m, r % m, m);
  }

  lemma MulMono(a: nat, b: nat, c: nat)
    requires a <= b
    ensures a * c <= b * c
  {
  }

  /** One more round of a transform: reducing the running value first does
      not change the next value. */
  lemma PowStep(previous: nat, b: nat, n: nat, m: nat)
    requires m > 0 && n > 0 && previous % m == Pow(b, n - 1) % m
    ensures previous * b % m == Pow(b, n) % m
  {
    var y := Pow(b, n - 1);
    calc {
      previous * b % m;
      { ModMul(previous, b, m); }
      (previous % m) * b % m;
      (y % m) * b % m;
      { ModMul(y, b, m); }
      y * b % m;
    }
  }

  lemma {:induction false} PowMod(a: nat, n: nat, m: nat)
    requires m > 0
    ensures Pow(a % m, n) % m == Pow(a, n) % m
  {
    if n > 0 {
      var x := Pow(a % m, n - 1);
      PowMod(a, n - 1, m);
      PowStep(x, a, n, m);
      calc {
        Pow(a % m, n) % m;
        x * (a % m) % m;
        { assert x * (a % m) == (a % m) * x; }
        (a % m) * x % m;
        { ModMul(a, x, m); }
        a * x % m;
        { assert a * x == x * a; }
        x * a % m;
      }
    }
  }

  lemma {:induction false} PowAdd(a: nat, i: nat, j: nat)
    ensures Pow(a, i + j) == Pow(a, i) * Pow(a, j)
    decreases j
  {
    if j > 0 {
      PowAdd(a, i, j - 1);
      assert Pow(a, i + j) == Pow(a, i + (j - 1)) * a;
    }
  }

  lemma {:induction false} PowMul(a: nat, i: nat, j: nat)
    ensures Pow(Pow(a, i), j) == Pow(a, i * j)
    decreases j
  {
    if j > 0 {
      PowMul(a, i, j - 1);
      PowAdd(a, i * (j - 1), i);
      assert i * (j - 1) + i == i * j;
    }
  }

  // ------------------------------------------------ encryption key

  /** `get_encryption_key`: the fold of `loopSize` rounds from 1, each a
      `u64` multiplication by `key` and a reduction; `None` where a product
      overflows. */
  function EncryptionKey(loopSize: nat, key: nat): (r: Option<nat>)
    requires key < U64
    ensures loopSize == 0 ==> r == Some(1)
    ensures r.Some? ==> r.value == Pow(key, loopSize) % MODULUS
    ensures r.Some? && loopSize > 0 ==> r.value < MODULUS
    ensures key * (MODULUS - 1) < U64 ==> r.Some?
    decreases loopSize
  {
    if loopSize == 0 then Some(1)
    else
      match EncryptionKey(loopSize - 1, key)
      case None => None
      case Some(previous) =>
        MulMono(previous, MODULUS - 1, key);
        if previous * key >= U64 then None
        else
          PowStep(previous, key, loopSize, MODULUS);
          Some(previous * key % MODULUS)
  }

  /** Two devices that publish their keys and transform each other's
      public key by their own loop size agree on the encryption key. */
  lemma Handshake(cardLoop: nat, doorLoop: nat)
    ensures EncryptionKey(cardLoop, PublicKey(doorLoop)).Some?
    ensures EncryptionKey(cardLoop, PublicKey(doorLoop)) == EncryptionKey(doorLoop, PublicKey(cardLoop))
    ensures EncryptionKey(cardLoop, PublicKey(doorLoop)) == Some(PublicKey(cardLoop * doorLoop))
  {
    var door, card := Pow(SUBJECT, doorLoop), Pow(SUBJECT, cardLoop);
    PowMod(door, cardLoop, MODULUS);
    PowMod(card, doorLoop, MODULUS);
    PowMul(SUBJECT, doorLoop, cardLoop);
    PowMul(SUBJECT, cardLoop, doorLoop);
    assert doorLoop * cardLoop == cardLoop * doorLoop;
  }

  // ------------------------------------------------------ loop size

  /** The `loop` of `crack_loop_size` from round `size` with `value` the
      transform after `size - 1` rounds, run for at most `fuel` rounds;
      `None` when it has not returned by then. */
  function CrackFrom(value: nat, size: nat, key: nat, fuel: nat): Option<nat>
    decreases fuel
  {
    if fuel == 0 then None
    else
      var next := value * SUBJECT % MODULUS;
      if next == key then Some(size)
      else CrackFrom(next, size + 1, key, fuel - 1)
  }

  /** `crack_loop_size`, run for at most `fuel` rounds. The running value
      stays below the modulus, so `value * 7` never overflows. The loop
      returns the least loop size whose public key is `key`, and runs on
      past `fuel` rounds exactly when no loop size up to `fuel` has that
      public key; a key at or above the modulus is never found. */
  function Crack(key: nat, fuel: nat): (r: Option<nat>)
    ensures r.Some? ==>
      1 <= r.value <= fuel && PublicKey(r.value) == key && forall j :: 1 <= j < r.value ==> PublicKey(j) != key
    ensures r.None? <==> forall j :: 1 <= j <= fuel ==> PublicKey(j) != key
    ensures key >= MODULUS ==> r.None?
  {
    CrackFromFinds(1, 1, key, fuel);
    CrackFrom(1, 1, key, fuel)
  }

  lemma {:induction false} CrackFromFinds(value: nat, size: nat, key: nat, fuel: nat)
    requires size >= 1 && value == PublicKey(size - 1)
    ensures CrackFrom(value, size, key, fuel).Some? ==>
      var n := CrackFrom(value, size, key, fuel).value;
      size <= n < size + fuel && PublicKey(n) == key &&
      forall j :: size <= j < n ==> PublicKey(j) != key
    ensures CrackFrom(value, size, key, fuel).None? ==>
      forall j :: size <= j < size + fuel ==> PublicKey(j) != key
    decreases fuel
  {
    if fuel > 0 {
      var next := value * SUBJECT % MODULUS;
      ModMul(Pow(SUBJECT, size - 1), SUBJECT, MODULUS);
      assert next == PublicKey(size);
      if next != key {
        CrackFromFinds(next, size + 1, key, fuel - 1);
      }
    }
  }

  // ---------------------------------------------------------- answer

  /** The program's answer: the door's public key transformed by the
      card's cracked loop size. It is missing when the loop size is not
      found, and for a door key small enough that no product overflows
      only then. */
  function Answer(cardKey: nat, doorKey: nat, fuel: nat): (r: Option<nat>)
    requires doorKey < U64
    ensures r.Some? ==> Crack(cardKey, fuel).Some? && r.value == Pow(doorKey, Crack(cardKey, fuel).value) % MODULUS
    ensures doorKey * (MODULUS - 1) < U64 ==> (r.Some? <==> Crack(cardKey, fuel).Some?)
  {
    match Crack(cardKey, fuel)
    case None => None
    case Some(loopSize) => EncryptionKey(loopSize, doorKey)
  }

  /** When both keys are public keys, the answer is the key the door
      computes from the card's public key and its own loop size. */
  lemma AnswerShared(cardKey: nat, doorLoop: nat, fuel: nat)
    requires cardKey < U64
    ensures PublicKey(doorLoop) < U64
    ensures Answer(cardKey, PublicKey(doorLoop), fuel).Some? <==> Crack(cardKey, fuel).Some?
    ensures Answer(cardKey, PublicKey(doorLoop), fuel).Some? ==>
      Answer(cardKey, PublicKey(doorLoop), fuel) == EncryptionKey(doorLoop, cardKey)
  {
    if Crack(cardKey, fuel).Some? {
      var n := Crack(cardKey, fuel).value;
      Handshake(n, doorLoop);
    }
  }
}
