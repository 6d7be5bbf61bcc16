/** The 32-bit words behind the occupancy bitmaps. */
module MachineWord {
  const WIDTH := 32

  function Bit(position: nat): bv32
    requires position < WIDTH
  {
    1 << position
  }

  predicate Single(bit: bv32) {
    bit != 0 && bit & (bit - 1) == 0
  }

  predicate Meets(word: bv32, bit: bv32) {
    word & bit != 0
  }

  predicate Lower(bit: bv32, other: bv32) {
    bit < other
  }

  // The word operations of a walk and an edit.

  function Masked(word: bv32, bit: bv32): bv32 {
    word & (bit - 1)
  }

  function With(word: bv32, bit: bv32): bv32 {
    word | bit
  }

  function Without(word: bv32, bit: bv32): bv32 {
    word & !bit
  }

  lemma OneBit(position: nat)
    requires position < WIDTH
    ensures Single(Bit(position))
  {
  }

  lemma {:induction false} HigherBit(a: nat, b: nat)
    requires a < b < WIDTH
    ensures Lower(Bit(a), Bit(b))
    decreases b
  {
    hide Bit, Single, Next;
    OneBit(b - 1);
    OneBit(b);
    NextBit(b - 1);
    NextIsHigher(Bit(b - 1));
    if a < b - 1 {
      HigherBit(a, b - 1);
    }
  }

  lemma NextIsHigher(bit: bv32)
    requires Single(bit) && Single(Next(bit))
    ensures Lower(bit, Next(bit))
  {
  }

  lemma BitsInOrder(a: nat, b: nat)
    requires a < WIDTH && b < WIDTH
    ensures Lower(Bit(a), Bit(b)) == (a < b) && (Bit(a) == Bit(b)) == (a == b)
  {
    hide Bit;
    if a < b {
      HigherBit(a, b);
    } else if b < a {
      HigherBit(b, a);
    }
  }

  /** For single bits, masking with bit - 1 keeps exactly the bits below the given one. */
  lemma LowMask(word: bv32, bit: bv32, other: bv32)
    requires Single(bit) && Single(other)
    ensures Meets(Masked(word, bit), other) == (Lower(other, bit) && Meets(word, other))
  {
    BelowOneBit(word, bit, other);
  }

  lemma BelowOneBit(word: bv32, bit: bv32, other: bv32)
    requires bit != 0 && bit & (bit - 1) == 0 && other != 0 && other & (other - 1) == 0
    ensures ((word & (bit - 1)) & other != 0) == (other < bit && word & other != 0)
  {
  }

  lemma SetBit(word: bv32, bit: bv32, other: bv32)
    requires Single(bit) && Single(other)
    ensures Meets(With(word, bit), other) == (other == bit || Meets(word, other))
  {
    DistinctBits(bit, other);
    OrDistributes(word, bit, other);
    OrIsZero(word & other, bit & other);
  }

  lemma ClearedBit(word: bv32, bit: bv32, other: bv32)
    requires Single(bit) && Single(other)
    ensures Meets(Without(word, bit), other) == (other != bit && Meets(word, other))
  {
    DistinctBits(bit, other);
    NotIsWithout(word, bit, other);
  }

  lemma DistinctBits(bit: bv32, other: bv32)
    requires bit != 0 && bit & (bit - 1) == 0 && other != 0 && other & (other - 1) == 0
    ensures bit & other == if other == bit then bit else 0
  {
  }

  lemma OrDistributes(word: bv32, bit: bv32, other: bv32)
    ensures (word | bit) & other == (word & other) | (bit & other)
  {
  }

  lemma OrIsZero(a: bv32, b: bv32)
    ensures a | b == 0 <==> a == 0 && b == 0
  {
  }

  lemma NotIsWithout(word: bv32, bit: bv32, other: bv32)
    ensures bit & other == 0 ==> (word & !bit) & other == word & other
    ensures (word & !bit) & bit == 0
  {
  }

  /** A word that meets no bit is zero. */
  lemma NoBits(word: bv32)
    ensures word == 0 <==> forall i | 0 <= i < WIDTH :: !Meets(word, Bit(i))
  {
    if word == 0 {
      MeetsNothing();
    } else if forall i | 0 <= i < WIDTH :: !Meets(word, Bit(i)) {
      LowBitsClear(word, 31);
      TopBit(word);
    }
  }

  lemma MeetsNothing()
    ensures forall bit :: !Meets(0, bit)
  {
  }

  lemma TopBit(word: bv32)
    requires Masked(word, Bit(31)) == 0 && !Meets(word, Bit(31))
    ensures word == 0
  {
  }

  lemma {:induction false} LowBitsClear(word: bv32, n: nat)
    requires n < WIDTH && forall i | 0 <= i < n :: !Meets(word, Bit(i))
    ensures Masked(word, Bit(n)) == 0
  {
    hide Bit, Masked, Meets, Single;
    if n == 0 {
      NoLowBits(word);
    } else {
      LowBitsClear(word, n - 1);
      OneBit(n - 1);
      OneBit(n);
      NextBit(n - 1);
      OneMoreBit(word, Bit(n - 1));
    }
  }

  lemma NoLowBits(word: bv32)
    ensures Masked(word, Bit(0)) == 0
  {
  }

  function Next(bit: bv32): bv32 {
    bit << 1
  }

  lemma NextBit(n: nat)
    requires n + 1 < WIDTH
    ensures Bit(n + 1) == Next(Bit(n))
  {
    match n
    case 0 => assert Bit(1) == Next(Bit(0));
    case 1 => assert Bit(2) == Next(Bit(1));
    case 2 => assert Bit(3) == Next(Bit(2));
    case 3 => assert Bit(4) == Next(Bit(3));
    case 4 => assert Bit(5) == Next(Bit(4));
    case 5 => assert Bit(6) == Next(Bit(5));
    case 6 => assert Bit(7) == Next(Bit(6));
    case 7 => assert Bit(8) == Next(Bit(7));
    case 8 => assert Bit(9) == Next(Bit(8));
    case 9 => assert Bit(10) == Next(Bit(9));
    case 10 => assert Bit(11) == Next(Bit(10));
    case 11 => assert Bit(12) == Next(Bit(11));
    case 12 => assert Bit(13) == Next(Bit(12));
    case 13 => assert Bit(14) == Next(Bit(13));
    case 14 => assert Bit(15) == Next(Bit(14));
    case 15 => assert Bit(16) == Next(Bit(15));
    case 16 => assert Bit(17) == Next(Bit(16));
    case 17 => assert Bit(18) == Next(Bit(17));
    case 18 => assert Bit(19) == Next(Bit(18));
    case 19 => assert Bit(20) == Next(Bit(19));
    case 20 => assert Bit(21) == Next(Bit(20));
    case 21 => assert Bit(22) == Next(Bit(21));
    case 22 => assert Bit(23) == Next(Bit(22));
    case 23 => assert Bit(24) == Next(Bit(23));
    case 24 => assert Bit(25) == Next(Bit(24));
    case 25 => assert Bit(26) == Next(Bit(25));
    case 26 => assert Bit(27) == Next(Bit(26));
    case 27 => assert Bit(28) == Next(Bit(27));
    case 28 => assert Bit(29) == Next(Bit(28));
    case 29 => assert Bit(30) == Next(Bit(29));
    case 30 => assert Bit(31) == Next(Bit(30));
  }

  lemma OneMoreBit(word: bv32, bit: bv32)
    requires Single(bit) && Masked(word, bit) == 0 && !Meets(word, bit) && Single(Next(bit))
    ensures Masked(word, Next(bit)) == 0
  {
  }
}
