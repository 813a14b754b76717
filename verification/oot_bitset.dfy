/**
 * oot_bitset: an array of 16-bit words read as one long bit vector.
 *
 * A flag ID is a 16-bit value whose upper 12 bits name a word of the array
 * and whose lower 4 bits name a bit of that word (bit 0 least significant).
 * The array belongs to the caller; get reads one flag, set and clear
 * rewrite the single word holding it.
 */
module OotBitset {

  /** A flag ID: the value of a `uint16_t`. */
  type FlagId = x: int | 0 <= x < 0x1_0000

  /** 2 to the power n. */
  function Pow2(n: nat): (p: nat)
    ensures p >= 1
  {
    if n == 0 then 1 else 2 * Pow2(n - 1)
  }

  // ---------------------------------------------------------------------------
  // Encoding of flag IDs
  // ---------------------------------------------------------------------------

  /** bitset_index: the word holding a flag, the upper 12 bits of its ID (`flag >> 4`). */
  function Index(flag: FlagId): (i: nat)
    ensures i < 4096
    ensures 16 * i <= flag < 16 * i + 16
  {
    flag / 16
  }

  /** The position of a flag within its word, the lower 4 bits of its ID (`flag & 0xF`). */
  function Bit(flag: FlagId): (b: nat)
    ensures b < 16
    ensures flag == 16 * Index(flag) + b
  {
    flag % 16
  }

  /** The flag ID of bit b of word i, `(i << 4) | b`: the inverse of the decoding. */
  function Encode(i: nat, b: nat): (flag: FlagId)
    requires i < 4096 && b < 16
    ensures Index(flag) == i && Bit(flag) == b
  {
    16 * i + b
  }

  /** Every flag ID is the encoding of its own word index and bit position. */
  lemma EncodeDecode(flag: FlagId)
    ensures Encode(Index(flag), Bit(flag)) == flag
  {
  }

  /** Distinct flag IDs address distinct (word, bit) pairs, and conversely. */
  lemma DecodeInjective(f: FlagId, g: FlagId)
    ensures f == g <==> (Index(f) == Index(g) && Bit(f) == Bit(g))
  {
    if Index(f) == Index(g) && Bit(f) == Bit(g) {
      EncodeDecode(f);
      EncodeDecode(g);
    }
  }

  // ---------------------------------------------------------------------------
  // Bits of a word
  // ---------------------------------------------------------------------------

  /** The word whose only set bit is bit x (x a bit-vector shift amount). */
  function Single(x: bv16): (m: bv16)
    requires x < 16
  {
    (1 as bv16) << x
  }

  /** Whether bit x of word w is set, counting from the least significant bit. */
  predicate Has(w: bv16, x: bv16)
    requires x < 16
  {
    (w >> x) & 1 == 1
  }

  /**
   * Bit position c (0 to 15) as a shift amount. Written as a table so that no
   * proof has to convert between integers and bit-vectors.
   */
  function Position(c: nat): (x: bv16)
    requires c < 16
    ensures x < 16
  {
    match c
    case 0 => 0  case 1 => 1  case 2 => 2  case 3 => 3
    case 4 => 4  case 5 => 5  case 6 => 6  case 7 => 7
    case 8 => 8  case 9 => 9  case 10 => 10  case 11 => 11
    case 12 => 12  case 13 => 13  case 14 => 14  case _ => 15
  }

  /** Distinct bit positions are distinct shift amounts. */
  lemma PositionsInjective(c: nat, d: nat)
    requires c < 16 && d < 16
    ensures Position(c) == Position(d) <==> c == d
  {
  }

  /** Bit c of word w, counting from the least significant bit. */
  predicate BitOf(w: bv16, c: nat)
    requires c < 16
  {
    Has(w, Position(c))
  }

  /** Single(x) is nonzero, and its only set bit is bit x. */
  lemma SingleBits(x: bv16, y: bv16)
    requires x < 16 && y < 16
    ensures Single(x) != 0
    ensures Has(Single(x), y) <==> x == y
  {
  }

  /** Testing a word against Single(x) reads bit x. */
  lemma TestSingle(w: bv16, x: bv16)
    requires x < 16
    ensures (w & Single(x) != 0) <==> Has(w, x)
  {
  }

  /** Or-ing in Single(x) turns bit x on and keeps every other bit. */
  lemma OrSingle(w: bv16, x: bv16, y: bv16)
    requires x < 16 && y < 16
    ensures Has(w | Single(x), y) <==> (x == y || Has(w, y))
  {
  }

  /** And-ing with the complement of Single(x) turns bit x off and keeps every other bit. */
  lemma AndNotSingle(w: bv16, x: bv16, y: bv16)
    requires x < 16 && y < 16
    ensures Has(w & !Single(x), y) <==> (x != y && Has(w, y))
  {
  }

  /** A word is fixed by its sixteen bits. */
  lemma WordFromBits(w: bv16, v: bv16)
    requires Has(w, 0) == Has(v, 0) && Has(w, 1) == Has(v, 1)
    requires Has(w, 2) == Has(v, 2) && Has(w, 3) == Has(v, 3)
    requires Has(w, 4) == Has(v, 4) && Has(w, 5) == Has(v, 5)
    requires Has(w, 6) == Has(v, 6) && Has(w, 7) == Has(v, 7)
    requires Has(w, 8) == Has(v, 8) && Has(w, 9) == Has(v, 9)
    requires Has(w, 10) == Has(v, 10) && Has(w, 11) == Has(v, 11)
    requires Has(w, 12) == Has(v, 12) && Has(w, 13) == Has(v, 13)
    requires Has(w, 14) == Has(v, 14) && Has(w, 15) == Has(v, 15)
    ensures w == v
  {
  }

  /** Bits 0 to 3 of two words agree when their bits agree at every position. */
  lemma BitsAgree0(w: bv16, v: bv16)
    requires forall c :: 0 <= c < 16 ==> BitOf(w, c) == BitOf(v, c)
    ensures Has(w, 0) == Has(v, 0) && Has(w, 1) == Has(v, 1) && Has(w, 2) == Has(v, 2) && Has(w, 3) == Has(v, 3)
  {
    assert BitOf(w, 0) == BitOf(v, 0);
    assert BitOf(w, 1) == BitOf(v, 1);
    assert BitOf(w, 2) == BitOf(v, 2);
    assert BitOf(w, 3) == BitOf(v, 3);
  }

  /** Bits 4 to 7 of two words agree when their bits agree at every position. */
  lemma BitsAgree1(w: bv16, v: bv16)
    requires forall c :: 0 <= c < 16 ==> BitOf(w, c) == BitOf(v, c)
    ensures Has(w, 4) == Has(v, 4) && Has(w, 5) == Has(v, 5) && Has(w, 6) == Has(v, 6) && Has(w, 7) == Has(v, 7)
  {
    assert BitOf(w, 4) == BitOf(v, 4);
    assert BitOf(w, 5) == BitOf(v, 5);
    assert BitOf(w, 6) == BitOf(v, 6);
    assert BitOf(w, 7) == BitOf(v, 7);
  }

  /** Bits 8 to 11 of two words agree when their bits agree at every position. */
  lemma BitsAgree2(w: bv16, v: bv16)
    requires forall c :: 0 <= c < 16 ==> BitOf(w, c) == BitOf(v, c)
    ensures Has(w, 8) == Has(v, 8) && Has(w, 9) == Has(v, 9) && Has(w, 10) == Has(v, 10) && Has(w, 11) == Has(v, 11)
  {
    assert BitOf(w, 8) == BitOf(v, 8);
    assert BitOf(w, 9) == BitOf(v, 9);
    assert BitOf(w, 10) == BitOf(v, 10);
    assert BitOf(w, 11) == BitOf(v, 11);
  }

  /** Bits 12 to 15 of two words agree when their bits agree at every position. */
  lemma BitsAgree3(w: bv16, v: bv16)
    requires forall c :: 0 <= c < 16 ==> BitOf(w, c) == BitOf(v, c)
    ensures Has(w, 12) == Has(v, 12) && Has(w, 13) == Has(v, 13) && Has(w, 14) == Has(v, 14) && Has(w, 15) == Has(v, 15)
  {
    assert BitOf(w, 12) == BitOf(v, 12);
    assert BitOf(w, 13) == BitOf(v, 13);
    assert BitOf(w, 14) == BitOf(v, 14);
    assert BitOf(w, 15) == BitOf(v, 15);
  }

  /** Two words with the same sixteen bits are the same word. */
  lemma BitsDetermineWord(w: bv16, v: bv16)
    requires forall c :: 0 <= c < 16 ==> BitOf(w, c) == BitOf(v, c)
    ensures w == v
  {
    BitsAgree0(w, v);
    BitsAgree1(w, v);
    BitsAgree2(w, v);
    BitsAgree3(w, v);
    WordFromBits(w, v);
  }

  /** The shift amount of position c is the number c. */
  lemma PositionValue(c: nat)
    requires c < 16
    ensures Position(c) as int == c
  {
  }

  /** Single(x) is the number 2^x. */
  lemma {:induction false} SingleIsPow2(x: bv16)
    requires x < 16
    ensures Single(x) as int == Pow2(x as int)
  {
    if x > 0 {
      SingleIsPow2(x - 1);
      assert Single(x) == Single(x - 1) << 1;
    }
  }

  /** bitset_mask: the mask `1 << (flag & 0xF)`, truncated to 16 bits. */
  function Mask(flag: FlagId): (m: bv16)
    ensures m != 0
  {
    SingleBits(Position(Bit(flag)), 0);
    Single(Position(Bit(flag)))
  }

  /** The one bit set in a flag's mask is bit Bit(flag). */
  lemma MaskBits(flag: FlagId, c: nat)
    requires c < 16
    ensures BitOf(Mask(flag), c) <==> c == Bit(flag)
  {
    PositionsInjective(c, Bit(flag));
    SingleBits(Position(Bit(flag)), Position(c));
  }

  /** A flag's mask is the number 2^(flag % 16). */
  lemma MaskIsPow2(flag: FlagId)
    ensures Mask(flag) as int == Pow2(flag % 16)
  {
    SingleIsPow2(Position(Bit(flag)));
    PositionValue(Bit(flag));
  }

  /** Testing a word against a flag's mask reads that flag's bit. */
  lemma TestMask(w: bv16, flag: FlagId)
    ensures (w & Mask(flag) != 0) <==> BitOf(w, Bit(flag))
  {
    TestSingle(w, Position(Bit(flag)));
  }

  /** Or-ing in a flag's mask turns that flag's bit on and keeps the word's other bits. */
  lemma OrMask(w: bv16, flag: FlagId, c: nat)
    requires c < 16
    ensures BitOf(w | Mask(flag), c) <==> (c == Bit(flag) || BitOf(w, c))
  {
    assert Mask(flag) == Single(Position(Bit(flag)));
    OrPosition(w, Bit(flag), c);
  }

  /** Or-ing in the single bit b turns bit b on and keeps every other bit. */
  lemma OrPosition(w: bv16, b: nat, c: nat)
    requires b < 16 && c < 16
    ensures BitOf(w | Single(Position(b)), c) <==> (c == b || BitOf(w, c))
  {
    PositionsInjective(b, c);
    OrSingle(w, Position(b), Position(c));
  }

  /** And-ing with a flag's inverted mask turns that flag's bit off and keeps the word's other bits. */
  lemma AndNotMask(w: bv16, flag: FlagId, c: nat)
    requires c < 16
    ensures BitOf(w & !Mask(flag), c) <==> (c != Bit(flag) && BitOf(w, c))
  {
    assert Mask(flag) == Single(Position(Bit(flag)));
    AndNotPosition(w, Bit(flag), c);
  }

  /** And-ing with the complement of the single bit b turns bit b off and keeps every other bit. */
  lemma AndNotPosition(w: bv16, b: nat, c: nat)
    requires b < 16 && c < 16
    ensures BitOf(w & !Single(Position(b)), c) <==> (c != b && BitOf(w, c))
  {
    PositionsInjective(b, c);
    AndNotSingle(w, Position(b), Position(c));
  }

  /** Or-ing in m or clearing m leaves the bits outside m as they were. */
  lemma OutsideMask(w: bv16, m: bv16)
    ensures (w | m) & !m == w & !m
    ensures (w & !m) & !m == w & !m
  {
  }

  // ---------------------------------------------------------------------------
  // The storage as one long bit vector
  // ---------------------------------------------------------------------------

  /** The sixteen flags of one word, least significant bit first. */
  function WordFlags(w: bv16): (v: seq<bool>)
    ensures |v| == 16
  {
    seq(16, c requires 0 <= c < 16 => BitOf(w, c))
  }

  /** The storage read as one bit vector: the flags of word 0, then those of word 1, and so on. */
  function Flags(s: seq<bv16>): (v: seq<bool>)
    ensures |v| == 16 * |s|
  {
    if s == [] then [] else WordFlags(s[0]) + Flags(s[1..])
  }

  /** Position 16 * i + c of the bit vector is bit c of word i. */
  lemma {:induction false} FlagsAt(s: seq<bv16>, i: nat, c: nat)
    requires i < |s| && c < 16
    ensures 16 * i + c < |Flags(s)|
    ensures Flags(s)[16 * i + c] == BitOf(s[i], c)
  {
    if i > 0 {
      FlagsAt(s[1..], i - 1, c);
    }
  }

  /** Storages of one length with the same bit vector are the same storage. */
  lemma FlagsInjective(s: seq<bv16>, t: seq<bv16>)
    requires |s| == |t| && Flags(s) == Flags(t)
    ensures s == t
  {
    forall i | 0 <= i < |s|
      ensures s[i] == t[i]
    {
      forall c | 0 <= c < 16
        ensures BitOf(s[i], c) == BitOf(t[i], c)
      {
        FlagsAt(s, i, c);
        FlagsAt(t, i, c);
      }
      BitsDetermineWord(s[i], t[i]);
    }
  }

  /** Storages of one length that agree on the word holding position k agree at position k. */
  lemma FlagsOfSameWord(s: seq<bv16>, t: seq<bv16>, k: nat)
    requires |s| == |t| && k < 16 * |s| && s[k / 16] == t[k / 16]
    ensures k < |Flags(t)| && Flags(t)[k] == Flags(s)[k]
  {
    FlagsAt(s, k / 16, k % 16);
    FlagsAt(t, k / 16, k % 16);
  }

  /** A bit vector that agrees with v everywhere except at p, where it holds b, is v[p := b]. */
  lemma UpdatedAt(u: seq<bool>, v: seq<bool>, p: nat, b: bool)
    requires |u| == |v| && p < |v|
    requires forall k :: 0 <= k < |v| ==> u[k] == (if k == p then b else v[k])
    ensures u == v[p := b]
  {
  }

  /** Storage of n words, all zero: no flag set. */
  function Zeros(n: nat): (s: seq<bv16>)
    ensures |s| == n
  {
    seq(n, _ => 0)
  }

  /** A zeroed storage has every flag of its bit vector clear. */
  lemma ZerosClear(n: nat)
    ensures forall k :: 0 <= k < |Flags(Zeros(n))| ==> !Flags(Zeros(n))[k]
  {
    forall k | 0 <= k < |Flags(Zeros(n))|
      ensures !Flags(Zeros(n))[k]
    {
      FlagsAt(Zeros(n), k / 16, k % 16);
      assert !Has(0, Position(k % 16));
    }
  }

  // ---------------------------------------------------------------------------
  // The operations
  // ---------------------------------------------------------------------------

  /**
   * bitset_word: the word of the storage that holds flag. Its sixteen bits
   * are positions 16 * Index(flag) .. 16 * Index(flag) + 15 of the bit vector.
   */
  function Word(s: seq<bv16>, flag: FlagId): (w: bv16)
    requires Index(flag) < |s|
    ensures 16 * Index(flag) + 16 <= |Flags(s)|
    ensures WordFlags(w) == Flags(s)[16 * Index(flag) .. 16 * Index(flag) + 16]
  {
    assert WordFlags(s[Index(flag)]) == Flags(s)[16 * Index(flag) .. 16 * Index(flag) + 16] by {
      forall c | 0 <= c < 16
        ensures WordFlags(s[Index(flag)])[c] == Flags(s)[16 * Index(flag) + c]
      {
        FlagsAt(s, Index(flag), c);
      }
    }
    s[Index(flag)]
  }

  /** bitset_get: whether flag is set, that is whether bit Bit(flag) of word Index(flag) is 1. */
  function Get(s: seq<bv16>, flag: FlagId): (r: bool)
    requires Index(flag) < |s|
    ensures r <==> BitOf(Word(s, flag), Bit(flag))
  {
    TestMask(Word(s, flag), flag);
    Word(s, flag) & Mask(flag) != 0
  }

  /** Reading a flag reads position flag of the bit vector. */
  lemma GetIsFlag(s: seq<bv16>, flag: FlagId)
    requires Index(flag) < |s|
    ensures flag < |Flags(s)| && Get(s, flag) == Flags(s)[flag]
  {
    FlagsAt(s, Index(flag), Bit(flag));
  }

  /** The storage after bitset_set: only the word holding flag is rewritten. */
  function WithSet(s: seq<bv16>, flag: FlagId): (r: seq<bv16>)
    requires Index(flag) < |s|
    ensures |r| == |s|
    ensures forall i :: 0 <= i < |s| && i != Index(flag) ==> r[i] == s[i]
  {
    s[Index(flag) := s[Index(flag)] | Mask(flag)]
  }

  /** The storage after bitset_clear: only the word holding flag is rewritten. */
  function WithCleared(s: seq<bv16>, flag: FlagId): (r: seq<bv16>)
    requires Index(flag) < |s|
    ensures |r| == |s|
    ensures forall i :: 0 <= i < |s| && i != Index(flag) ==> r[i] == s[i]
  {
    s[Index(flag) := s[Index(flag)] & !Mask(flag)]
  }

  /** Set leaves the bits of the flag's word outside its mask as they were. */
  lemma SetKeepsOtherBits(s: seq<bv16>, flag: FlagId)
    requires Index(flag) < |s|
    ensures WithSet(s, flag)[Index(flag)] & !Mask(flag) == s[Index(flag)] & !Mask(flag)
  {
    OutsideMask(s[Index(flag)], Mask(flag));
  }

  /** Clear leaves the bits of the flag's word outside its mask as they were. */
  lemma ClearKeepsOtherBits(s: seq<bv16>, flag: FlagId)
    requires Index(flag) < |s|
    ensures WithCleared(s, flag)[Index(flag)] & !Mask(flag) == s[Index(flag)] & !Mask(flag)
  {
    OutsideMask(s[Index(flag)], Mask(flag));
  }

  /** Within the flag's word, set turns bit Bit(flag) on and keeps the other fifteen. */
  lemma SetWordBit(s: seq<bv16>, flag: FlagId, c: nat)
    requires Index(flag) < |s| && c < 16
    ensures 16 * Index(flag) + c < |Flags(s)|
    ensures Flags(WithSet(s, flag))[16 * Index(flag) + c] == (c == Bit(flag) || Flags(s)[16 * Index(flag) + c])
  {
    FlagsAt(WithSet(s, flag), Index(flag), c);
    FlagsAt(s, Index(flag), c);
    OrMask(s[Index(flag)], flag, c);
  }

  /** Within the flag's word, clear turns bit Bit(flag) off and keeps the other fifteen. */
  lemma ClearWordBit(s: seq<bv16>, flag: FlagId, c: nat)
    requires Index(flag) < |s| && c < 16
    ensures 16 * Index(flag) + c < |Flags(s)|
    ensures Flags(WithCleared(s, flag))[16 * Index(flag) + c] == (c != Bit(flag) && Flags(s)[16 * Index(flag) + c])
  {
    FlagsAt(WithCleared(s, flag), Index(flag), c);
    FlagsAt(s, Index(flag), c);
    AndNotMask(s[Index(flag)], flag, c);
  }

  /** A position k in the flag's word is the flag exactly when its bit position is the flag's. */
  lemma SameWord(flag: FlagId, k: nat)
    requires k / 16 == Index(flag)
    ensures k == 16 * Index(flag) + k % 16
    ensures k == flag <==> k % 16 == Bit(flag)
  {
  }

  /** A position k in the flag's word after set: the flag's own bit is true, the others are unchanged. */
  lemma SetFlagInWord(s: seq<bv16>, flag: FlagId, k: nat)
    requires Index(flag) < |s| && k < 16 * |s| && k / 16 == Index(flag)
    ensures Flags(WithSet(s, flag))[k] == (k == flag || Flags(s)[k])
  {
    SameWord(flag, k);
    SetWordBit(s, flag, k % 16);
  }

  /** Position k of the bit vector after set: true at the flag, unchanged elsewhere. */
  lemma SetFlagAt(s: seq<bv16>, flag: FlagId, k: nat)
    requires Index(flag) < |s| && k < 16 * |s|
    ensures |Flags(WithSet(s, flag))| == |Flags(s)|
    ensures Flags(WithSet(s, flag))[k] == (k == flag || Flags(s)[k])
  {
    if k / 16 == Index(flag) {
      SetFlagInWord(s, flag, k);
    } else {
      FlagsOfSameWord(s, WithSet(s, flag), k);
    }
  }

  /** A position k in the flag's word after clear: the flag's own bit is false, the others are unchanged. */
  lemma ClearFlagInWord(s: seq<bv16>, flag: FlagId, k: nat)
    requires Index(flag) < |s| && k < 16 * |s| && k / 16 == Index(flag)
    ensures Flags(WithCleared(s, flag))[k] == (k != flag && Flags(s)[k])
  {
    SameWord(flag, k);
    ClearWordBit(s, flag, k % 16);
  }

  /** Position k of the bit vector after clear: false at the flag, unchanged elsewhere. */
  lemma ClearFlagAt(s: seq<bv16>, flag: FlagId, k: nat)
    requires Index(flag) < |s| && k < 16 * |s|
    ensures |Flags(WithCleared(s, flag))| == |Flags(s)|
    ensures Flags(WithCleared(s, flag))[k] == (k != flag && Flags(s)[k])
  {
    if k / 16 == Index(flag) {
      ClearFlagInWord(s, flag, k);
    } else {
      FlagsOfSameWord(s, WithCleared(s, flag), k);
    }
  }

  /** Set writes true at position flag of the bit vector and changes no other position. */
  lemma SetFlags(s: seq<bv16>, flag: FlagId)
    requires Index(flag) < |s|
    ensures Flags(WithSet(s, flag)) == Flags(s)[flag := true]
  {
    forall k | 0 <= k < |Flags(s)|
      ensures Flags(WithSet(s, flag))[k] == (if k == flag then true else Flags(s)[k])
    {
      SetFlagAt(s, flag, k);
    }
    UpdatedAt(Flags(WithSet(s, flag)), Flags(s), flag, true);
  }

  /** Clear writes false at position flag of the bit vector and changes no other position. */
  lemma ClearFlags(s: seq<bv16>, flag: FlagId)
    requires Index(flag) < |s|
    ensures Flags(WithCleared(s, flag)) == Flags(s)[flag := false]
  {
    forall k | 0 <= k < |Flags(s)|
      ensures Flags(WithCleared(s, flag))[k] == (if k == flag then false else Flags(s)[k])
    {
      ClearFlagAt(s, flag, k);
    }
    UpdatedAt(Flags(WithCleared(s, flag)), Flags(s), flag, false);
  }

  /** bitset_set: or flag's mask into the word that holds it, in place. */
  method Set(a: array<bv16>, flag: FlagId)
    requires Index(flag) < a.Length
    modifies a
    ensures a[..] == WithSet(old(a[..]), flag)
  {
    var i := Index(flag);
    a[i] := a[i] | Mask(flag);
  }

  /** bitset_clear: and the word that holds flag with the complement of its mask, in place. */
  method Clear(a: array<bv16>, flag: FlagId)
    requires Index(flag) < a.Length
    modifies a
    ensures a[..] == WithCleared(old(a[..]), flag)
  {
    var i := Index(flag);
    a[i] := a[i] & !Mask(flag);
  }

  // ---------------------------------------------------------------------------
  // Properties of the operations
  // ---------------------------------------------------------------------------

  /** After set, the flag reads true and every other flag reads as before. */
  lemma GetAfterSet(s: seq<bv16>, flag: FlagId, other: FlagId)
    requires Index(flag) < |s| && Index(other) < |s|
    ensures Get(WithSet(s, flag), other) == (other == flag || Get(s, other))
  {
    SetFlags(s, flag);
    GetIsFlag(s, other);
    GetIsFlag(WithSet(s, flag), other);
  }

  /** After clear, the flag reads false and every other flag reads as before. */
  lemma GetAfterClear(s: seq<bv16>, flag: FlagId, other: FlagId)
    requires Index(flag) < |s| && Index(other) < |s|
    ensures Get(WithCleared(s, flag), other) == (other != flag && Get(s, other))
  {
    ClearFlags(s, flag);
    GetIsFlag(s, other);
    GetIsFlag(WithCleared(s, flag), other);
  }

  /** Setting or clearing one flag leaves the value read for every other flag. */
  lemma NoCrossTalk(s: seq<bv16>, flag: FlagId, other: FlagId)
    requires Index(flag) < |s| && Index(other) < |s| && flag != other
    ensures Get(WithSet(s, flag), other) == Get(s, other)
    ensures Get(WithCleared(s, flag), other) == Get(s, other)
  {
    GetAfterSet(s, flag, other);
    GetAfterClear(s, flag, other);
  }

  /** Setting a flag twice leaves the state of setting it once; likewise for clearing. */
  lemma Idempotent(s: seq<bv16>, flag: FlagId)
    requires Index(flag) < |s|
    ensures WithSet(WithSet(s, flag), flag) == WithSet(s, flag)
    ensures WithCleared(WithCleared(s, flag), flag) == WithCleared(s, flag)
  {
    SetFlags(s, flag);
    SetFlags(WithSet(s, flag), flag);
    FlagsInjective(WithSet(WithSet(s, flag), flag), WithSet(s, flag));
    ClearFlags(s, flag);
    ClearFlags(WithCleared(s, flag), flag);
    FlagsInjective(WithCleared(WithCleared(s, flag), flag), WithCleared(s, flag));
  }

  /** The last of set and clear on one flag decides its state; the flag's earlier state is forgotten. */
  lemma LastWriteWins(s: seq<bv16>, flag: FlagId)
    requires Index(flag) < |s|
    ensures WithCleared(WithSet(s, flag), flag) == WithCleared(s, flag)
    ensures WithSet(WithCleared(s, flag), flag) == WithSet(s, flag)
  {
    SetFlags(s, flag);
    ClearFlags(s, flag);
    ClearFlags(WithSet(s, flag), flag);
    SetFlags(WithCleared(s, flag), flag);
    FlagsInjective(WithCleared(WithSet(s, flag), flag), WithCleared(s, flag));
    FlagsInjective(WithSet(WithCleared(s, flag), flag), WithSet(s, flag));
  }

  /** Updates of two distinct flags commute, whether each is a set or a clear. */
  lemma DistinctUpdatesCommute(s: seq<bv16>, f: FlagId, g: FlagId)
    requires Index(f) < |s| && Index(g) < |s| && f != g
    ensures WithSet(WithSet(s, f), g) == WithSet(WithSet(s, g), f)
    ensures WithCleared(WithCleared(s, f), g) == WithCleared(WithCleared(s, g), f)
    ensures WithCleared(WithSet(s, f), g) == WithSet(WithCleared(s, g), f)
  {
    SetFlags(s, f);
    SetFlags(s, g);
    ClearFlags(s, f);
    ClearFlags(s, g);
    SetFlags(WithSet(s, f), g);
    SetFlags(WithSet(s, g), f);
    ClearFlags(WithCleared(s, f), g);
    ClearFlags(WithCleared(s, g), f);
    ClearFlags(WithSet(s, f), g);
    SetFlags(WithCleared(s, g), f);
    FlagsInjective(WithSet(WithSet(s, f), g), WithSet(WithSet(s, g), f));
    FlagsInjective(WithCleared(WithCleared(s, f), g), WithCleared(WithCleared(s, g), f));
    FlagsInjective(WithCleared(WithSet(s, f), g), WithSet(WithCleared(s, g), f));
  }

  /** On zeroed storage a flag starts clear, reads true after set, and clear then restores the zeroed storage. */
  lemma ZeroRoundTrip(n: nat, flag: FlagId)
    requires Index(flag) < n
    ensures !Get(Zeros(n), flag)
    ensures Get(WithSet(Zeros(n), flag), flag)
    ensures WithCleared(WithSet(Zeros(n), flag), flag) == Zeros(n)
  {
    ZerosClear(n);
    var z := Zeros(n);
    var r := WithCleared(WithSet(z, flag), flag);
    SetFlags(z, flag);
    ClearFlags(WithSet(z, flag), flag);
    assert Flags(r) == Flags(z);
    FlagsInjective(r, z);
  }

  /** The decodings listed with the header's encoding description and its sample enumeration. */
  lemma DocumentedExamples()
    ensures Index(0x75) == 7 && Bit(0x75) == 5 && Mask(0x75) == 0x0020
    ensures Index(0x61) == 6 && Bit(0x61) == 1 && Mask(0x61) == 0x0002
    ensures Index(0x1AC) == 26 && Bit(0x1AC) == 12 && Mask(0x1AC) == 0x1000
    ensures Index(0x00) == 0 && Bit(0x00) == 0
    ensures Index(0x01) == 0 && Bit(0x01) == 1
    ensures Index(0x10) == 1 && Bit(0x10) == 0
    ensures Index(0x1A) == 1 && Bit(0x1A) == 10
  {
  }
}
