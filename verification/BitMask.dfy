/** Words of 32 validity bits: the masks and shifts with which the kernel reads and sets one of them. */
module BitMask {

  const WORD: nat := 32

  type Word = bv32

  /** `1u << i` */
  function OneBit(i: Word): Word
    requires i < 32
  {
    1 << i
  }

  /** `static_cast<unsigned int>(b) << i` */
  function Placed(b: bool, i: Word): Word
    requires i < 32
  {
    (if b then 1 else 0) << i
  }

  predicate Tests(w: Word, mask: Word) {
    w & mask != 0
  }

  function Masked(w: Word, mask: Word, bit: Word): Word {
    (w & !mask) | bit
  }

  function Index(i: nat): (x: Word)
    requires i < WORD
    ensures x < 32
  {
    IndexFits(i);
    i as Word
  }

  /** Is bit i set? */
  predicate Bit(w: Word, i: nat)
    requires i < WORD
  {
    Tests(w, OneBit(Index(i)))
  }

  /** Bit i cleared, and then set to b. */
  function SetBit(w: Word, i: nat, b: bool): Word
    requires i < WORD
  {
    Masked(w, OneBit(Index(i)), Placed(b, Index(i)))
  }

  // ----- which bit is which ---------------------------------------------------------------------

  /** A word halved i times. */
  function Halved(w: Word, i: nat): Word {
    if i == 0 then w else Halved(w / 2, i - 1)
  }

  lemma LastBit(w: Word)
    ensures w & 1 == w % 2
  {
  }

  lemma HalfIsShift(w: Word, i: Word)
    requires i < 31
    ensures w & OneBit(i + 1) == 0 <==> (w / 2) & OneBit(i) == 0
  {
  }

  lemma IndexZero()
    ensures Index(0) == 0 && OneBit(Index(0)) == 1
  {
  }

  lemma NextIndex(i: nat)
    requires i < 31
    ensures Index(i) < 31 && Index(i + 1) == Index(i) + 1
  {
    IndexRoundTrip(i);
    SmallWord(Index(i));
    SmallWord(Index(i) + 1);
  }

  lemma SmallWord(x: Word)
    requires x < 32
    ensures x as nat < 32 && (x as nat) as Word == x
    ensures x < 31 <==> x as nat < 31
    ensures x < 31 ==> (x + 1) as nat == x as nat + 1
  {
  }

  /** Bit i is the binary digit of weight 2^i: the parity of the word after i halvings. */
  lemma {:induction false} BitIsDigit(w: Word, i: nat)
    requires i < WORD
    ensures Bit(w, i) <==> Halved(w, i) % 2 == 1
    decreases i
  {
    if i == 0 {
      IndexZero();
      LastBit(w);
    } else {
      BitIsDigit(w / 2, i - 1);
      NextIndex(i - 1);
      HalfIsShift(w, Index(i - 1));
    }
  }

  // ----- reading after setting ------------------------------------------------------------------

  lemma OneBits(i: Word, k: Word)
    requires i < 32 && k < 32
    ensures i != k ==> OneBit(i) & OneBit(k) == 0
    ensures OneBit(i) != 0
  {
  }

  lemma PlacedIs(b: bool, i: Word)
    requires i < 32
    ensures Placed(b, i) == if b then OneBit(i) else 0
  {
  }

  lemma MaskedApart(w: Word, mask: Word, other: Word)
    requires mask & other == 0
    ensures Masked(w, mask, mask) & other == w & other
    ensures Masked(w, mask, 0) & other == w & other
  {
  }

  lemma MaskedHere(w: Word, mask: Word)
    requires mask != 0
    ensures Tests(Masked(w, mask, mask), mask) && !Tests(Masked(w, mask, 0), mask)
  {
  }

  lemma IndexFits(i: nat)
    requires i < WORD
    ensures i as Word < 32
  {
  }

  lemma IndexRoundTrip(i: nat)
    requires i < WORD
    ensures (i as Word) as nat == i
  {
  }

  lemma DifferentIndexes(i: nat, k: nat)
    requires i < WORD && k < WORD
    ensures Index(i) == Index(k) <==> i == k
  {
    IndexRoundTrip(i);
    IndexRoundTrip(k);
    var x, y := Index(i), Index(k);
    assert x as nat == i && y as nat == k;
  }

  lemma SameBit(w: Word, i: nat, b: bool)
    requires i < WORD
    ensures Bit(SetBit(w, i, b), i) == b
  {
    OneBits(Index(i), Index(i));
    PlacedIs(b, Index(i));
    MaskedHere(w, OneBit(Index(i)));
  }

  lemma OtherBit(w: Word, i: nat, b: bool, k: nat)
    requires i < WORD && k < WORD && i != k
    ensures Bit(SetBit(w, i, b), k) == Bit(w, k)
  {
    DifferentIndexes(i, k);
    OneBits(Index(i), Index(k));
    PlacedIs(b, Index(i));
    MaskedApart(w, OneBit(Index(i)), OneBit(Index(k)));
  }

  /** Setting one bit sets that bit and no other. */
  lemma BitAfterSet(w: Word, i: nat, b: bool, k: nat)
    requires i < WORD && k < WORD
    ensures Bit(SetBit(w, i, b), k) == if k == i then b else Bit(w, k)
  {
    if k == i { SameBit(w, i, b); } else { OtherBit(w, i, b, k); }
  }

  lemma BitsAfterSet(w: Word, i: nat, b: bool)
    requires i < WORD
    ensures forall k :: 0 <= k < WORD ==> Bit(SetBit(w, i, b), k) == if k == i then b else Bit(w, k)
  {
    forall k | 0 <= k < WORD { BitAfterSet(w, i, b, k); }
  }
}
