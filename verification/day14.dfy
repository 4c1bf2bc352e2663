/** Day 14: the docking program. A `u64` word is a `bv64`; the mask text is
    read with `from_str_radix` after replacing its `X`s, memory is a map from
    addresses to values, and the answer is the sum of the values left in
    memory. Bit positions are named by the one-bit words, so every per-bit
    property reads "at every position `m` ...". */
module Day14 {
  import opened Wrappers
  import opened Decimal
  import opened Seqs

  type Word = bv64

  // ---------------------------------------------------------------- bits

  /** `m` has exactly one bit set: it names a bit position. */
  predicate OneBit(m: Word)
  {
    m != 0 && m & (m - 1) == 0
  }

  /** Word `x` has the bit at position `m` set. */
  predicate Has(x: Word, m: Word)
  {
    x & m != 0
  }

  lemma MaskedAt(v: Word, or: Word, and: Word, m: Word)
    requires OneBit(m)
    ensures Has((v | or) & and, m) <==> (Has(v, m) || Has(or, m)) && Has(and, m)
  {
  }

  /** Appending a binary digit shifts every position up by one. */
  lemma ShiftedBit(w: Word, b: Word, m: Word)
    requires OneBit(m) && (b == 0 || b == 1)
    ensures m == 1 ==> (Has((w << 1) | b, m) <==> b == 1)
    ensures m != 1 ==> OneBit(m >> 1) && (Has((w << 1) | b, m) <==> Has(w, m >> 1))
  {
  }

  // ------------------------------------------------------------ mask text

  /** `s.replace(from, to)` for one-character patterns. */
  function Replace(s: string, from: char, to: char): (r: string)
    ensures |r| == |s|
    ensures forall k :: 0 <= k < |s| ==> r[k] == if s[k] == from then to else s[k]
  {
    seq(|s|, k requires 0 <= k < |s| => if s[k] == from then to else s[k])
  }

  predicate AllBinary(t: string)
  {
    forall k :: 0 <= k < |t| ==> t[k] == '0' || t[k] == '1'
  }

  /** The value of `t` does not reach 2^64: every digit above the lowest 64 is '0'. */
  predicate Fits(t: string)
  {
    forall k :: 0 <= k < |t| - 64 ==> t[k] == '0'
  }

  /** The low 64 bits of a binary numeral, most significant digit first. */
  function BinaryWord(t: string): Word
  {
    if t == [] then 0 else (BinaryWord(t[..|t| - 1]) << 1) | (if t[|t| - 1] == '1' then 1 else 0)
  }

  /** `u64::from_str_radix(t, 2)`: an error (and so a panic at the `unwrap`)
      on empty text, a non-binary digit, or a value of 2^64 or more. */
  function FromBinary(t: string): (r: Option<Word>)
    ensures r.Some? <==> t != [] && AllBinary(t) && Fits(t)
  {
    if t != [] && AllBinary(t) && Fits(t) then Some(BinaryWord(t)) else None
  }

  /** The digit of `t` at bit position `m`, counting from the right; positions
      beyond the text read as '0'. */
  function DigitAt(t: string, m: Word): char
    decreases |t|
  {
    if t == [] then '0'
    else if m == 1 then t[|t| - 1]
    else DigitAt(t[..|t| - 1], m >> 1)
  }

  /** The word read from a binary numeral has a bit exactly where the numeral has a '1'. */
  lemma {:induction false} BinaryWordBits(t: string, m: Word)
    requires OneBit(m)
    ensures Has(BinaryWord(t), m) <==> DigitAt(t, m) == '1'
    decreases |t|
  {
    if t != [] {
      var b: Word := if t[|t| - 1] == '1' then 1 else 0;
      ShiftedBit(BinaryWord(t[..|t| - 1]), b, m);
      if m != 1 {
        BinaryWordBits(t[..|t| - 1], m >> 1);
      }
    }
  }

  lemma {:induction false} DigitAtReplace(s: string, from: char, to: char, m: Word)
    requires from != '0'
    ensures DigitAt(Replace(s, from, to), m) == if DigitAt(s, m) == from then to else DigitAt(s, m)
    decreases |s|
  {
    if s != [] && m != 1 {
      assert Replace(s, from, to)[..|s| - 1] == Replace(s[..|s| - 1], from, to);
      DigitAtReplace(s[..|s| - 1], from, to, m >> 1);
    }
  }

  /** `or_active_mask`: the mask text with `X` read as '0'. */
  function OrMask(mask: string): Option<Word>
  {
    FromBinary(Replace(mask, 'X', '0'))
  }

  /** `and_active_mask`: the mask text with `X` read as '1'. */
  function AndMask(mask: string): Option<Word>
  {
    FromBinary(Replace(mask, 'X', '1'))
  }

  /** `floating_active_mask`: '1' read as '0', then `X` read as '1'. */
  function FloatingMask(mask: string): Option<Word>
  {
    FromBinary(Replace(Replace(mask, '1', '0'), 'X', '1'))
  }

  /** A mask the first decoder accepts consists of '0', '1' and 'X'. */
  predicate MaskDigits(mask: string)
  {
    forall k :: 0 <= k < |mask| ==> mask[k] in {'0', '1', 'X'}
  }

  lemma {:induction false} DigitAtMaskDigits(mask: string, m: Word)
    requires MaskDigits(mask)
    ensures DigitAt(mask, m) in {'0', '1', 'X'}
    decreases |mask|
  {
    if mask != [] && m != 1 {
      DigitAtMaskDigits(mask[..|mask| - 1], m >> 1);
    }
  }

  /** The version 1 masks: `or` has a bit exactly where the mask has '1', and
      `and` lacks a bit exactly where the mask has '0'. The masked value
      `(v | or) & and` therefore has '1' and '0' forced and takes the bits
      under 'X' from `v`. */
  lemma VersionOneMasks(mask: string, or: Word, and: Word, v: Word, m: Word)
    requires OrMask(mask) == Some(or) && AndMask(mask) == Some(and) && OneBit(m)
    ensures MaskDigits(mask)
    ensures Has(or, m) <==> DigitAt(mask, m) == '1'
    ensures !Has(and, m) <==> DigitAt(mask, m) == '0'
    ensures Has((v | or) & and, m) == match DigitAt(mask, m)
      case '1' => true
      case '0' => false
      case _ => Has(v, m)
  {
    forall k | 0 <= k < |mask|
      ensures mask[k] in {'0', '1', 'X'}
    {
      assert Replace(mask, 'X', '0')[k] in {'0', '1'};
    }
    BinaryWordBits(Replace(mask, 'X', '0'), m);
    BinaryWordBits(Replace(mask, 'X', '1'), m);
    DigitAtReplace(mask, 'X', '0', m);
    DigitAtReplace(mask, 'X', '1', m);
    DigitAtMaskDigits(mask, m);
    MaskedAt(v, or, and, m);
  }

  /** The version 2 masks: `floating` has a bit exactly where the mask has 'X',
      and `or` exactly where it has '1'. */
  lemma VersionTwoMasks(mask: string, or: Word, floating: Word, m: Word)
    requires OrMask(mask) == Some(or) && FloatingMask(mask) == Some(floating) && OneBit(m)
    ensures Has(or, m) <==> DigitAt(mask, m) == '1'
    ensures Has(floating, m) <==> DigitAt(mask, m) == 'X'
  {
    BinaryWordBits(Replace(mask, 'X', '0'), m);
    BinaryWordBits(Replace(Replace(mask, '1', '0'), 'X', '1'), m);
    DigitAtReplace(mask, 'X', '0', m);
    DigitAtReplace(mask, '1', '0', m);
    DigitAtReplace(Replace(mask, '1', '0'), 'X', '1', m);
  }

  // --------------------------------------------------------------- memory

  datatype Cell = Cell(address: Word, value: Word)

  /** The `HashMap<u64, u64>`, as its list of entries. */
  type Memory = seq<Cell>

  /** No address has two entries. */
  predicate Valid(memory: Memory)
  {
    forall i, j :: 0 <= i < j < |memory| ==> memory[i].address != memory[j].address
  }

  function Get(memory: Memory, address: Word): Option<Word>
  {
    if memory == [] then None
    else if memory[0].address == address then Some(memory[0].value)
    else Get(memory[1..], address)
  }

  /** `memory.insert(address, value)`: the address now holds the value, a
      previous value there is overwritten, and every other address keeps
      what it held. */
  function Insert(memory: Memory, address: Word, value: Word): Memory
  {
    if memory == [] then [Cell(address, value)]
    else if memory[0].address == address then [Cell(address, value)] + memory[1..]
    else [memory[0]] + Insert(memory[1..], address, value)
  }

  lemma {:induction false} InsertGet(memory: Memory, address: Word, value: Word, b: Word)
    ensures Get(Insert(memory, address, value), b) == if b == address then Some(value) else Get(memory, b)
  {
    if memory != [] && memory[0].address != address {
      InsertGet(memory[1..], address, value, b);
    }
  }

  /** Every entry after an insert is the new one or an old one. */
  lemma {:induction false} InsertFrom(memory: Memory, address: Word, value: Word)
    ensures forall i :: 0 <= i < |Insert(memory, address, value)| ==>
              Insert(memory, address, value)[i] == Cell(address, value) || Insert(memory, address, value)[i] in memory
  {
    if memory != [] && memory[0].address != address {
      InsertFrom(memory[1..], address, value);
    }
  }

  /** An insert keeps the addresses distinct. */
  lemma {:induction false} InsertValid(memory: Memory, address: Word, value: Word)
    ensures Valid(memory) ==> Valid(Insert(memory, address, value))
  {
    if Valid(memory) && memory != [] && memory[0].address != address {
      InsertValid(memory[1..], address, value);
      InsertFrom(memory[1..], address, value);
    }
  }

  /** `memory.values().sum()`, over unbounded integers. */
  function Total(memory: Memory): nat
  {
    if memory == [] then 0 else memory[0].value as nat + Total(memory[1..])
  }

  lemma {:induction false} GetMissing(memory: Memory, address: Word)
    requires forall i :: 0 <= i < |memory| ==> memory[i].address != address
    ensures Get(memory, address) == None
  {
    if memory != [] {
      GetMissing(memory[1..], address);
    }
  }

  /** An insert changes the total by the new value less the value it overwrites. */
  lemma {:induction false} InsertTotal(memory: Memory, address: Word, value: Word)
    requires Valid(memory)
    ensures Total(Insert(memory, address, value)) + Get(memory, address).GetOr(0) as nat
            == Total(memory) + value as nat
  {
    if memory != [] {
      if memory[0].address == address {
        assert Insert(memory, address, value)[1..] == memory[1..];
        GetMissing(memory[1..], address);
      } else {
        InsertTotal(memory[1..], address, value);
      }
    }
  }

  // ------------------------------------------------------- floating bits

  /** `mask & (!mask + 1)`: the lowest set bit of the mask. */
  function Lowest(mask: Word): Word
  {
    mask & (!mask + 1)
  }

  /** The lowest set bit is a single bit of the mask below which the mask is
      clear, and clearing it removes exactly that bit, so the recursion runs
      once per set bit. */
  lemma LowestBit(mask: Word, m: Word)
    requires mask != 0 && OneBit(m)
    ensures OneBit(Lowest(mask)) && Has(mask, Lowest(mask))
    ensures mask & (Lowest(mask) - 1) == 0
    ensures Has(mask & !Lowest(mask), m) <==> Has(mask, m) && m != Lowest(mask)
    ensures mask & !Lowest(mask) < mask
  {
    LowestSingle(mask);
    LowestSet(mask);
    LowestFirst(mask);
    ClearedBit(mask, Lowest(mask), m);
    LowestDecreases(mask);
  }

  lemma LowestSingle(mask: Word)
    requires mask != 0
    ensures OneBit(Lowest(mask))
  {
  }

  lemma LowestSet(mask: Word)
    requires mask != 0
    ensures Has(mask, Lowest(mask))
  {
  }

  lemma LowestFirst(mask: Word)
    requires mask != 0
    ensures mask & (Lowest(mask) - 1) == 0
  {
  }

  /** Clearing the bit `x` of a mask clears that position and no other. */
  lemma ClearedBit(mask: Word, x: Word, m: Word)
    requires OneBit(x) && OneBit(m)
    ensures Has(mask & !x, m) <==> Has(mask, m) && m != x
  {
    if m != x {
      DistinctBits(x, m);
      ClearedElsewhere(mask, x, m);
    } else {
      ClearedHere(mask, m);
    }
  }

  /** Two different positions share no bit. */
  lemma DistinctBits(x: Word, m: Word)
    requires OneBit(x) && OneBit(m) && x != m
    ensures x & m == 0
  {
  }

  lemma ClearedElsewhere(mask: Word, x: Word, m: Word)
    requires x & m == 0
    ensures Has(mask & !x, m) <==> Has(mask, m)
  {
  }

  lemma ClearedHere(mask: Word, x: Word)
    ensures !Has(mask & !x, x)
  {
  }

  lemma LowestDecreases(mask: Word)
    requires mask != 0
    ensures mask & !Lowest(mask) < mask
  {
  }

  /** The mask is its lowest bit together with the rest. */
  lemma LowestSplit(mask: Word)
    ensures (mask & !Lowest(mask)) & Lowest(mask) == 0
    ensures mask == (mask & !Lowest(mask)) | Lowest(mask)
  {
  }

  /** The floating bits left once the lowest is expanded. */
  function Rest(mask: Word): Word
  {
    mask & !Lowest(mask)
  }

  /** `location` with the lowest floating bit cleared ... */
  function Cleared(location: Word, mask: Word): Word
  {
    location & !Lowest(mask)
  }

  /** ... and with it set. */
  function Raised(location: Word, mask: Word): Word
  {
    location | Lowest(mask)
  }

  /** `floating_combinations`: both settings of the lowest floating bit are
      written, then each is expanded over the remaining bits. */
  function Floating(mask: Word, location: Word, value: Word, memory: Memory): Memory
    decreases mask
  {
    if mask == 0 then memory
    else
      LowestDecreases(mask);
      Floating(Rest(mask), Raised(location, mask), value,
        Floating(Rest(mask), Cleared(location, mask), value,
          Insert(Insert(memory, Cleared(location, mask), value), Raised(location, mask), value)))
  }

  /** The addresses `floating_combinations` writes, in the order it writes them. */
  function FloatingAddresses(mask: Word, location: Word): seq<Word>
    decreases mask
  {
    if mask == 0 then []
    else
      LowestDecreases(mask);
      [Cleared(location, mask), Raised(location, mask)]
        + FloatingAddresses(Rest(mask), Cleared(location, mask))
        + FloatingAddresses(Rest(mask), Raised(location, mask))
  }

  /** Inserting the same value at each address in turn. */
  function InsertAll(memory: Memory, addresses: seq<Word>, value: Word): Memory
    decreases |addresses|
  {
    if addresses == [] then memory
    else InsertAll(Insert(memory, addresses[0], value), addresses[1..], value)
  }

  lemma {:induction false} InsertAllGet(memory: Memory, addresses: seq<Word>, value: Word, b: Word)
    ensures Get(InsertAll(memory, addresses, value), b) == if b in addresses then Some(value) else Get(memory, b)
    decreases |addresses|
  {
    if addresses != [] {
      InsertGet(memory, addresses[0], value, b);
      InsertAllGet(Insert(memory, addresses[0], value), addresses[1..], value, b);
    }
  }

  lemma {:induction false} InsertAllValid(memory: Memory, addresses: seq<Word>, value: Word)
    ensures Valid(memory) ==> Valid(InsertAll(memory, addresses, value))
    decreases |addresses|
  {
    if addresses != [] {
      InsertValid(memory, addresses[0], value);
      InsertAllValid(Insert(memory, addresses[0], value), addresses[1..], value);
    }
  }

  lemma {:induction false} InsertAllAppend(memory: Memory, first: seq<Word>, second: seq<Word>, value: Word)
    ensures InsertAll(memory, first + second, value) == InsertAll(InsertAll(memory, first, value), second, value)
    decreases |first|
  {
    if first != [] {
      assert (first + second)[1..] == first[1..] + second;
      InsertAllAppend(Insert(memory, first[0], value), first[1..], second, value);
    } else {
      assert first + second == second;
    }
  }

  lemma InsertPair(memory: Memory, first: Word, second: Word, value: Word)
    ensures InsertAll(memory, [first, second], value) == Insert(Insert(memory, first, value), second, value)
  {
    var once := Insert(memory, first, value);
    assert InsertAll(memory, [first, second], value) == InsertAll(once, [second], value);
    assert InsertAll(once, [second], value) == InsertAll(Insert(once, second, value), [], value);
  }

  /** The recursion performs the inserts of `FloatingAddresses`, in order. */
  lemma {:induction false} FloatingInsertsAll(mask: Word, location: Word, value: Word, memory: Memory)
    ensures Floating(mask, location, value, memory) == InsertAll(memory, FloatingAddresses(mask, location), value)
    decreases mask
  {
    if mask != 0 {
      LowestDecreases(mask);
      FloatingInsertsAll(Rest(mask), Cleared(location, mask), value,
        Insert(Insert(memory, Cleared(location, mask), value), Raised(location, mask), value));
      FloatingInsertsAll(Rest(mask), Raised(location, mask), value,
        Floating(Rest(mask), Cleared(location, mask), value,
          Insert(Insert(memory, Cleared(location, mask), value), Raised(location, mask), value)));
      LevelInserts(memory, Cleared(location, mask), Raised(location, mask),
        FloatingAddresses(Rest(mask), Cleared(location, mask)),
        FloatingAddresses(Rest(mask), Raised(location, mask)), value);
    }
  }

  /** The inserts of one level: the two settings, then each expansion. */
  lemma LevelInserts(memory: Memory, low: Word, high: Word, first: seq<Word>, second: seq<Word>, value: Word)
    ensures InsertAll(InsertAll(Insert(Insert(memory, low, value), high, value), first, value), second, value)
            == InsertAll(memory, [low, high] + first + second, value)
  {
    InsertPair(memory, low, high, value);
    InsertChain(memory, [low, high], first, second, value);
  }

  /** Three batches of inserts in turn are one batch of their concatenation. */
  lemma InsertChain(memory: Memory, first: seq<Word>, second: seq<Word>, third: seq<Word>, value: Word)
    ensures InsertAll(InsertAll(InsertAll(memory, first, value), second, value), third, value)
            == InsertAll(memory, first + second + third, value)
  {
    InsertAllAppend(memory, first, second, value);
    InsertAllAppend(memory, first + second, third, value);
  }

  /** `b` agrees with `location` at every position outside `mask`. */
  predicate Agrees(b: Word, location: Word, mask: Word)
  {
    b & !mask == location & !mask
  }

  /** Splitting one bit `x` off the floating mask: an address that agrees
      with `location` outside the mask agrees outside the rest with one of the
      two settings of `x` ... */
  lemma AgreesSplit(b: Word, location: Word, mask: Word, x: Word, rest: Word)
    requires OneBit(x) && rest & x == 0 && mask == rest | x && Agrees(b, location, mask)
    ensures Agrees(b, location & !x, rest) || Agrees(b, location | x, rest)
  {
    BitOf(b, x);
    if b & x == 0 {
      AgreesWithCleared(b, location, x, rest);
    } else {
      AgreesWithSet(b, location, x, rest);
    }
  }

  /** ... and conversely. */
  lemma AgreesJoin(b: Word, location: Word, mask: Word, x: Word, rest: Word)
    requires mask == rest | x
    requires Agrees(b, location & !x, rest) || Agrees(b, location | x, rest)
    ensures Agrees(b, location, mask)
  {
    if Agrees(b, location & !x, rest) {
      AgreesCleared(b, location, x, rest);
    } else {
      AgreesSet(b, location, x, rest);
    }
  }

  lemma BitOf(b: Word, x: Word)
    requires OneBit(x)
    ensures b & x == 0 || b & x == x
  {
  }

  lemma AgreesCleared(b: Word, location: Word, x: Word, rest: Word)
    requires Agrees(b, location & !x, rest)
    ensures Agrees(b, location, rest | x)
  {
  }

  lemma AgreesSet(b: Word, location: Word, x: Word, rest: Word)
    requires Agrees(b, location | x, rest)
    ensures Agrees(b, location, rest | x)
  {
  }

  lemma AgreesWithCleared(b: Word, location: Word, x: Word, rest: Word)
    requires rest & x == 0 && b & x == 0 && Agrees(b, location, rest | x)
    ensures Agrees(b, location & !x, rest)
  {
  }

  lemma AgreesWithSet(b: Word, location: Word, x: Word, rest: Word)
    requires rest & x == 0 && b & x == x && Agrees(b, location, rest | x)
    ensures Agrees(b, location | x, rest)
  {
  }

  /** Every address agrees with itself. */
  lemma AgreesSelf(b: Word, mask: Word)
    ensures Agrees(b, b, mask)
  {
  }

  /** With no floating bits only the address itself agrees. */
  lemma AgreesNowhere(b: Word, location: Word)
    ensures Agrees(b, location, 0) <==> b == location
  {
  }

  /** The agreements at one level of the recursion. */
  lemma LevelSplit(mask: Word, location: Word, b: Word)
    requires mask != 0
    ensures Agrees(b, location, mask)
            <==> Agrees(b, location & !Lowest(mask), mask & !Lowest(mask))
                 || Agrees(b, location | Lowest(mask), mask & !Lowest(mask))
  {
    LowestSingle(mask);
    LowestSplit(mask);
    assert OneBit(Lowest(mask)) && (mask & !Lowest(mask)) & Lowest(mask) == 0
           && mask == (mask & !Lowest(mask)) | Lowest(mask);
    LevelSplitGiven(mask, location, b);
  }

  lemma LevelSplitGiven(mask: Word, location: Word, b: Word)
    requires OneBit(Lowest(mask)) && (mask & !Lowest(mask)) & Lowest(mask) == 0
    requires mask == (mask & !Lowest(mask)) | Lowest(mask)
    ensures Agrees(b, location, mask)
            <==> Agrees(b, location & !Lowest(mask), mask & !Lowest(mask))
                 || Agrees(b, location | Lowest(mask), mask & !Lowest(mask))
  {
    if Agrees(b, location, mask) {
      LevelDown(mask, location, b);
    } else if Agrees(b, location & !Lowest(mask), mask & !Lowest(mask))
              || Agrees(b, location | Lowest(mask), mask & !Lowest(mask)) {
      LevelUp(mask, location, b);
    }
  }

  lemma LevelDown(mask: Word, location: Word, b: Word)
    requires OneBit(Lowest(mask)) && (mask & !Lowest(mask)) & Lowest(mask) == 0
    requires mask == (mask & !Lowest(mask)) | Lowest(mask)
    requires Agrees(b, location, mask)
    ensures Agrees(b, location & !Lowest(mask), mask & !Lowest(mask))
            || Agrees(b, location | Lowest(mask), mask & !Lowest(mask))
  {
    AgreesSplit(b, location, mask, Lowest(mask), mask & !Lowest(mask));
  }

  lemma LevelUp(mask: Word, location: Word, b: Word)
    requires mask == (mask & !Lowest(mask)) | Lowest(mask)
    requires Agrees(b, location & !Lowest(mask), mask & !Lowest(mask))
             || Agrees(b, location | Lowest(mask), mask & !Lowest(mask))
    ensures Agrees(b, location, mask)
  {
    AgreesJoin(b, location, mask, Lowest(mask), mask & !Lowest(mask));
  }

  /** The addresses written are exactly those that agree with `location`
      outside the mask; there are none when the mask is 0. */
  lemma {:induction false} FloatingAddressesAgree(mask: Word, location: Word, b: Word)
    ensures b in FloatingAddresses(mask, location) <==> mask != 0 && Agrees(b, location, mask)
    decreases mask
  {
    if mask != 0 {
      LowestDecreases(mask);
      FloatingAddressesAgree(Rest(mask), Cleared(location, mask), b);
      FloatingAddressesAgree(Rest(mask), Raised(location, mask), b);
      FloatingLevel(mask, location, b,
        b in FloatingAddresses(Rest(mask), Cleared(location, mask)),
        b in FloatingAddresses(Rest(mask), Raised(location, mask)));
    }
  }

  /** One level of `FloatingAddressesAgree`, with the memberships of the two
      expansions taken as given. */
  lemma FloatingLevel(mask: Word, location: Word, b: Word, inLow: bool, inHigh: bool)
    requires mask != 0
    requires inLow <==> Rest(mask) != 0 && Agrees(b, Cleared(location, mask), Rest(mask))
    requires inHigh <==> Rest(mask) != 0 && Agrees(b, Raised(location, mask), Rest(mask))
    ensures (b == Cleared(location, mask) || b == Raised(location, mask) || inLow || inHigh)
            <==> Agrees(b, location, mask)
  {
    if b == Cleared(location, mask) || b == Raised(location, mask) || inLow || inHigh {
      FloatingLevelUp(mask, location, b, inLow, inHigh);
    } else if Agrees(b, location, mask) {
      FloatingLevelDown(mask, location, b, inLow, inHigh);
    }
  }

  /** Every address the level writes agrees with `location` outside the mask ... */
  lemma FloatingLevelUp(mask: Word, location: Word, b: Word, inLow: bool, inHigh: bool)
    requires mask != 0
    requires inLow ==> Agrees(b, Cleared(location, mask), Rest(mask))
    requires inHigh ==> Agrees(b, Raised(location, mask), Rest(mask))
    requires b == Cleared(location, mask) || b == Raised(location, mask) || inLow || inHigh
    ensures Agrees(b, location, mask)
  {
    LevelSplit(mask, location, b);
    if b == Cleared(location, mask) {
      AgreesSelf(Cleared(location, mask), Rest(mask));
    } else if b == Raised(location, mask) {
      AgreesSelf(Raised(location, mask), Rest(mask));
    }
  }

  /** ... and every agreeing address is written. */
  lemma FloatingLevelDown(mask: Word, location: Word, b: Word, inLow: bool, inHigh: bool)
    requires mask != 0
    requires Rest(mask) != 0 && Agrees(b, Cleared(location, mask), Rest(mask)) ==> inLow
    requires Rest(mask) != 0 && Agrees(b, Raised(location, mask), Rest(mask)) ==> inHigh
    requires Agrees(b, location, mask)
    ensures b == Cleared(location, mask) || b == Raised(location, mask) || inLow || inHigh
  {
    LevelSplit(mask, location, b);
    if Rest(mask) == 0 {
      AgreesNowhere(b, Cleared(location, mask));
      AgreesNowhere(b, Raised(location, mask));
    }
  }

  /** `floating_combinations` writes the value to exactly the addresses that
      agree with `location` outside the mask (none when the mask is 0) and
      leaves every other address alone. */
  lemma FloatingWrites(mask: Word, location: Word, value: Word, memory: Memory, b: Word)
    ensures Get(Floating(mask, location, value, memory), b)
            == if mask != 0 && Agrees(b, location, mask) then Some(value) else Get(memory, b)
  {
    FloatingInsertsAll(mask, location, value, memory);
    InsertAllGet(memory, FloatingAddresses(mask, location), value, b);
    FloatingAddressesAgree(mask, location, b);
  }

  /** The writes keep the addresses distinct. */
  lemma FloatingValid(mask: Word, location: Word, value: Word, memory: Memory)
    ensures Valid(memory) ==> Valid(Floating(mask, location, value, memory))
  {
    FloatingInsertsAll(mask, location, value, memory);
    InsertAllValid(memory, FloatingAddresses(mask, location), value);
  }

  // ----------------------------------------------------------- input lines

  /** `\w`, read as ASCII letters, digits and '_'. */
  predicate IsWordChar(c: char)
  {
    'a' <= c <= 'z' || 'A' <= c <= 'Z' || '0' <= c <= '9' || c == '_'
  }

  /** `^mask = (\w+)$`: the captured mask text. */
  function MaskLine(line: string): (r: Option<string>)
    ensures r.Some? ==> line == "mask = " + r.value && r.value != []
  {
    if |line| > 7 && line[..7] == "mask = " && forall k :: 7 <= k < |line| ==> IsWordChar(line[k]) then
      Some(line[7..])
    else None
  }

  /** `mem\[(\d+)\] = (\d+)$` matched at the very start of `s`. */
  function MemAt(s: string): Option<(string, string)>
  {
    if |s| >= 4 && s[..4] == "mem[" then
      var rest := s[4..];
      var k := IndexOf(rest, ']');
      var address := rest[..k];
      var tail := rest[k..];
      if address != [] && AllDigits(address) && |tail| > 4 && tail[..4] == "] = " && AllDigits(tail[4..]) then
        Some((address, tail[4..]))
      else None
    else None
  }

  /** A match captures two numerals, and the text is rebuilt from them. */
  lemma MemAtShape(s: string)
    ensures MemAt(s).Some? ==> s == "mem[" + MemAt(s).value.0 + "] = " + MemAt(s).value.1
    ensures MemAt(s).Some? ==> MemAt(s).value.0 != [] && AllDigits(MemAt(s).value.0)
    ensures MemAt(s).Some? ==> MemAt(s).value.1 != [] && AllDigits(MemAt(s).value.1)
  {
    if MemAt(s).Some? {
      var rest := s[4..];
      var k := IndexOf(rest, ']');
      assert s == s[..4] + rest[..k] + rest[k..][..4] + rest[k..][4..];
    }
  }

  /** `MEM_RE` matches at the start of `s`. */
  predicate IsMemAt(s: string)
  {
    MemAt(s).Some?
  }

  /** The unanchored search: the first position from `i` on where `matches`
      holds of the rest of the line. */
  function FirstMatch(line: string, i: nat, matches: string -> bool): (r: Option<nat>)
    requires i <= |line|
    ensures r.Some? ==> i <= r.value <= |line| && matches(line[r.value..])
    ensures r.Some? ==> forall j :: i <= j < r.value ==> !matches(line[j..])
    ensures r.None? ==> forall j :: i <= j <= |line| ==> !matches(line[j..])
    decreases |line| - i
  {
    if matches(line[i..]) then Some(i)
    else if i == |line| then None
    else FirstMatch(line, i + 1, matches)
  }

  /** The captures of `MEM_RE` at the leftmost position where it matches. */
  function MemLine(line: string): Option<(string, string)>
  {
    match FirstMatch(line, 0, IsMemAt)
    case None => None
    case Some(j) => MemAt(line[j..])
  }

  /** A memory line built from two numerals is matched with those numerals. */
  lemma MemLineOf(a: string, v: string)
    requires a != [] && AllDigits(a) && v != [] && AllDigits(v)
    ensures MemLine("mem[" + a + "] = " + v) == Some((a, v))
  {
    var line := "mem[" + a + "] = " + v;
    assert line[0..] == line;
    MemAtOf(a, v);
  }

  lemma MemAtOf(a: string, v: string)
    requires a != [] && AllDigits(a) && v != [] && AllDigits(v)
    ensures MemAt("mem[" + a + "] = " + v) == Some((a, v))
  {
    var tail := "] = " + v;
    var line := "mem[" + a + "] = " + v;
    assert line[..4] == "mem[";
    assert line[4..] == a + tail;
    IndexOfAfter(a, ']', " = " + v);
    assert a + [']'] + (" = " + v) == a + tail;
    assert IndexOf(line[4..], ']') == |a|;
    assert line[4..][..|a|] == a;
    assert line[4..][|a|..] == tail;
    assert |tail| > 4 && tail[..4] == "] = " && tail[4..] == v;
  }

  /** A line without '[' has no memory match anywhere. */
  lemma MemLineNone(line: string)
    requires '[' !in line
    ensures MemLine(line).None?
  {
    if FirstMatch(line, 0, IsMemAt).Some? {
      MemAtNone(line[FirstMatch(line, 0, IsMemAt).value..]);
    }
  }

  lemma MemAtNone(s: string)
    requires '[' !in s
    ensures !IsMemAt(s)
  {
    if |s| >= 4 {
      assert s[3] in s;
    }
  }

  /** A mask line is not a memory line. */
  lemma MaskLineNotMem(line: string)
    requires MaskLine(line).Some?
    ensures MemLine(line).None?
  {
    assert '[' !in line by {
      forall k | 0 <= k < |line|
        ensures line[k] != '['
      {
        if k >= 7 {
          assert IsWordChar(line[k]);
        } else {
          assert line[k] == "mask = "[k];
        }
      }
    }
    MemLineNone(line);
  }

  /** The decimal captures, read as `u64` (a panic when they do not fit). */
  function MemNumbers(captures: (string, string)): Option<(Word, Word)>
  {
    match (ParseUnsigned(captures.0, U64_LIMIT), ParseUnsigned(captures.1, U64_LIMIT))
    case (Some(a), Some(v)) => Some((a as Word, v as Word))
    case _ => None
  }

  // ------------------------------------------------------------ version 1

  datatype DecoderOne = DecoderOne(memory: Memory, orMask: Word, andMask: Word)

  /** One line of `part1`: a mask line replaces both masks (a panic when
      either does not read), then a memory line stores the masked value. */
  function StepOne(d: DecoderOne, line: string): (r: Option<DecoderOne>)
    ensures r.Some? && Valid(d.memory) ==> Valid(r.value.memory)
  {
    match MaskStepOne(d, line)
    case None => None
    case Some(e) => StoreOne(e, line)
  }

  /** The mask half of a line: the masks change, memory does not. */
  function MaskStepOne(d: DecoderOne, line: string): (r: Option<DecoderOne>)
    ensures r.Some? ==> r.value.memory == d.memory
    ensures MaskLine(line).None? ==> r == Some(d)
  {
    match MaskLine(line)
    case None => Some(d)
    case Some(mask) =>
      match (OrMask(mask), AndMask(mask))
      case (Some(or), Some(and)) => Some(d.(orMask := or, andMask := and))
      case _ => None
  }

  /** The memory half of a line: one insert, under the current masks. */
  function StoreOne(e: DecoderOne, line: string): (r: Option<DecoderOne>)
    ensures r.Some? && Valid(e.memory) ==> Valid(r.value.memory)
    ensures r.Some? ==> r.value.orMask == e.orMask && r.value.andMask == e.andMask
  {
    match MemLine(line)
    case None => Some(e)
    case Some(captures) =>
      match MemNumbers(captures)
      case None => None
      case Some((address, value)) =>
        InsertValid(e.memory, address, (value | e.orMask) & e.andMask);
        Some(e.(memory := Insert(e.memory, address, (value | e.orMask) & e.andMask)))
  }

  /** A mask line replaces both masks with those read from its text (a
      panic when either does not read) and leaves memory alone. */
  lemma StepOneMask(d: DecoderOne, line: string, mask: string)
    requires MaskLine(line) == Some(mask)
    ensures StepOne(d, line) == match (OrMask(mask), AndMask(mask))
      case (Some(or), Some(and)) => Some(d.(orMask := or, andMask := and))
      case _ => None
  {
    MaskLineNotMem(line);
  }

  /** A rendered memory line is not a mask line and reads back as its two numbers. */
  lemma MemLineParsed(address: nat, value: nat)
    requires address < U64_LIMIT && value < U64_LIMIT
    ensures MaskLine("mem[" + ShowNat(address) + "] = " + ShowNat(value)).None?
    ensures MemLine("mem[" + ShowNat(address) + "] = " + ShowNat(value)) == Some((ShowNat(address), ShowNat(value)))
    ensures MemNumbers((ShowNat(address), ShowNat(value))) == Some((address as Word, value as Word))
  {
    MemLineOf(ShowNat(address), ShowNat(value));
    NotMaskLine(ShowNat(address), ShowNat(value));
    MemNumbersShow(address, value);
  }

  lemma MemNumbersShow(address: nat, value: nat)
    requires address < U64_LIMIT && value < U64_LIMIT
    ensures MemNumbers((ShowNat(address), ShowNat(value))) == Some((address as Word, value as Word))
  {
    ParseShowNat(address, U64_LIMIT);
    ParseShowNat(value, U64_LIMIT);
  }

  lemma StepOneMem(d: DecoderOne, line: string, address: Word, value: Word)
    requires MaskLine(line).None? && MemLine(line).Some?
    requires MemNumbers(MemLine(line).value) == Some((address, value))
    ensures StepOne(d, line) == Some(d.(memory := Insert(d.memory, address, (value | d.orMask) & d.andMask)))
  {
  }

  /** A memory line is not a mask line. */
  lemma NotMaskLine(a: string, v: string)
    ensures MaskLine("mem[" + a + "] = " + v).None?
  {
    assert ("mem[" + a + "] = " + v)[1] == 'e';
  }

  /** A memory line changes only the written address, which now holds the
      value with the active masks applied. */
  lemma StepOneWrites(d: DecoderOne, line: string, address: Word, value: Word, b: Word)
    requires MaskLine(line).None? && MemLine(line).Some?
    requires MemNumbers(MemLine(line).value) == Some((address, value))
    ensures StepOne(d, line).Some?
    ensures Get(StepOne(d, line).value.memory, b)
            == if b == address then Some((value | d.orMask) & d.andMask) else Get(d.memory, b)
  {
    StepOneMem(d, line, address, value);
    InsertGet(d.memory, address, (value | d.orMask) & d.andMask, b);
  }

  function RunOne(d: DecoderOne, lines: seq<string>): (r: Option<DecoderOne>)
    ensures r.Some? && Valid(d.memory) ==> Valid(r.value.memory)
    decreases |lines|
  {
    if lines == [] then Some(d)
    else
      match StepOne(d, lines[0])
      case None => None
      case Some(e) => RunOne(e, lines[1..])
  }

  /** `part1`: both masks start at 0 and memory starts empty. The answer sums
      the final memory, in which no address has two entries. */
  function Part1(lines: seq<string>): (r: Option<nat>)
    ensures r.Some? <==> RunOne(DecoderOne([], 0, 0), lines).Some?
    ensures r.Some? ==> var m := RunOne(DecoderOne([], 0, 0), lines).value.memory; Valid(m) && r.value == Total(m)
    ensures lines == [] ==> r == Some(0)
  {
    match RunOne(DecoderOne([], 0, 0), lines)
    case None => None
    case Some(d) => Some(Total(d.memory))
  }

  // ------------------------------------------------------------ version 2

  datatype DecoderTwo = DecoderTwo(memory: Memory, orMask: Word, floatingMask: Word)

  /** The writes of one memory line of `part2`. */
  function WriteTwo(d: DecoderTwo, address: Word, value: Word): (r: Memory)
    ensures Valid(d.memory) ==> Valid(r)
  {
    InsertValid(d.memory, address | d.orMask, value);
    FloatingValid(d.floatingMask, address | d.orMask, value, Insert(d.memory, address | d.orMask, value));
    Floating(d.floatingMask, address | d.orMask, value, Insert(d.memory, address | d.orMask, value))
  }

  /** A memory line writes the value to `address | or` and to every address
      that differs from it only under the floating bits, and nowhere else. */
  lemma WriteTwoAddresses(d: DecoderTwo, address: Word, value: Word, b: Word)
    ensures Get(WriteTwo(d, address, value), b)
            == if Agrees(b, address | d.orMask, d.floatingMask) then Some(value) else Get(d.memory, b)
  {
    WriteAround(d.memory, address | d.orMask, d.floatingMask, value, b);
  }

  /** Writing `base` and then its floating expansions writes exactly the
      addresses that agree with `base` outside the floating mask. */
  lemma WriteAround(memory: Memory, base: Word, floating: Word, value: Word, b: Word)
    ensures Get(Floating(floating, base, value, Insert(memory, base, value)), b)
            == if Agrees(b, base, floating) then Some(value) else Get(memory, b)
  {
    FloatingWrites(floating, base, value, Insert(memory, base, value), b);
    InsertGet(memory, base, value, b);
    if floating == 0 {
      AgreesNowhere(b, base);
    } else if b == base {
      AgreesSelf(b, floating);
    }
  }

  /** One line of `part2`: a mask line replaces both masks, then a memory
      line writes every floating address. */
  function StepTwo(d: DecoderTwo, line: string): (r: Option<DecoderTwo>)
    ensures r.Some? && Valid(d.memory) ==> Valid(r.value.memory)
  {
    match MaskStepTwo(d, line)
    case None => None
    case Some(e) => StoreTwo(e, line)
  }

  /** The mask half of a line: the masks change, memory does not. */
  function MaskStepTwo(d: DecoderTwo, line: string): (r: Option<DecoderTwo>)
    ensures r.Some? ==> r.value.memory == d.memory
    ensures MaskLine(line).None? ==> r == Some(d)
  {
    match MaskLine(line)
    case None => Some(d)
    case Some(mask) =>
      match (OrMask(mask), FloatingMask(mask))
      case (Some(or), Some(floating)) => Some(d.(orMask := or, floatingMask := floating))
      case _ => None
  }

  /** The memory half of a line: the floating writes, under the current masks. */
  function StoreTwo(e: DecoderTwo, line: string): (r: Option<DecoderTwo>)
    ensures r.Some? && Valid(e.memory) ==> Valid(r.value.memory)
    ensures r.Some? ==> r.value.orMask == e.orMask && r.value.floatingMask == e.floatingMask
  {
    match MemLine(line)
    case None => Some(e)
    case Some(captures) =>
      match MemNumbers(captures)
      case None => None
      case Some((address, value)) => Some(e.(memory := WriteTwo(e, address, value)))
  }

  /** A mask line replaces both masks with those read from its text (a
      panic when either does not read) and leaves memory alone. */
  lemma StepTwoMask(d: DecoderTwo, line: string, mask: string)
    requires MaskLine(line) == Some(mask)
    ensures StepTwo(d, line) == match (OrMask(mask), FloatingMask(mask))
      case (Some(or), Some(floating)) => Some(d.(orMask := or, floatingMask := floating))
      case _ => None
  {
    MaskLineNotMem(line);
  }

  /** A memory line writes the value to every address that agrees with the
      written address (with the '1' bits set) outside the floating bits, and
      nowhere else. */
  lemma StepTwoWrites(d: DecoderTwo, line: string, address: Word, value: Word, b: Word)
    requires MaskLine(line).None? && MemLine(line).Some?
    requires MemNumbers(MemLine(line).value) == Some((address, value))
    ensures StepTwo(d, line).Some?
    ensures Get(StepTwo(d, line).value.memory, b)
            == if Agrees(b, address | d.orMask, d.floatingMask) then Some(value) else Get(d.memory, b)
  {
    StepTwoMem(d, line, address, value);
    WriteTwoAddresses(d, address, value, b);
  }

  lemma StepTwoMem(d: DecoderTwo, line: string, address: Word, value: Word)
    requires MaskLine(line).None? && MemLine(line).Some?
    requires MemNumbers(MemLine(line).value) == Some((address, value))
    ensures StepTwo(d, line) == Some(d.(memory := WriteTwo(d, address, value)))
  {
  }

  function RunTwo(d: DecoderTwo, lines: seq<string>): (r: Option<DecoderTwo>)
    ensures r.Some? && Valid(d.memory) ==> Valid(r.value.memory)
    decreases |lines|
  {
    if lines == [] then Some(d)
    else
      match StepTwo(d, lines[0])
      case None => None
      case Some(e) => RunTwo(e, lines[1..])
  }

  /** `part2`: both masks start at 0 and memory starts empty. The answer sums
      the final memory, in which no address has two entries. */
  function Part2(lines: seq<string>): (r: Option<nat>)
    ensures r.Some? <==> RunTwo(DecoderTwo([], 0, 0), lines).Some?
    ensures r.Some? ==> var m := RunTwo(DecoderTwo([], 0, 0), lines).value.memory; Valid(m) && r.value == Total(m)
    ensures lines == [] ==> r == Some(0)
  {
    match RunTwo(DecoderTwo([], 0, 0), lines)
    case None => None
    case Some(d) => Some(Total(d.memory))
  }
}
