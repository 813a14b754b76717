# oot_bitset in Dafny

oot_bitset is a single C header that packs one-bit game flags into an
array of 16-bit words, the way Ocarina of Time's save file tracks
hundreds of flags. It reads, sets and clears these flags. A flag ID is a
16-bit value:

- its upper 12 bits (`flag >> 4`) name a word of the array;
- its lower 4 bits (`flag & 0xF`) name a bit of that word, bit 0 being
  the least significant.

The caller owns the array. `bitset_get` tests one bit. `bitset_set` and
`bitset_clear` rewrite, in place, the single word that holds the flag.

This project models the header in module `OotBitset` (`oot_bitset.dfy`).
It models the sample program `example.c` in module `Example`
(`example.dfy`).

- **Flag IDs** are the integers 0 to 0xFFFF (`FlagId`).
  - `Index(flag) = flag / 16` is the word.
  - `Bit(flag) = flag % 16` is the bit position.
  - `Encode` is the inverse of this decoding.
- **Words** are `bv16`.
  - `Mask(flag)` is the word `1 << Bit(flag)`.
  - `Get` is `(word & mask) != 0`, read from the storage as a
    `seq<bv16>`.
- **`bitset_set` and `bitset_clear`** are the methods `Set` and `Clear`.
  - Each updates an `array<bv16>` in place (`modifies a`).
  - Each is proved against a specification function on the array's
    contents: `WithSet` and `WithCleared`.
- **The independent reference** is `Flags(s)`. It reads the storage as
  one long vector of `16 * |s|` booleans: word 0's bits from the least
  significant, then word 1's, and so on.
  - The bit-vector view is injective (`FlagsInjective`), so storages of
    one length are equal exactly when their bit vectors are.
  - Position `flag` of the vector is what `Get` reads (`GetIsFlag`).
  - Set writes `true` at position `flag` and changes nothing else
    (`SetFlags`).
  - Clear writes `false` there (`ClearFlags`).
  - Idempotence, no cross-talk, last-write-wins and commutation are
    derived from these facts.
- **`bitset_get`, `bitset_set` and `bitset_clear` index the caller's
  array without a bounds check**, and an index past the end is undefined
  behaviour in C. Every operation therefore requires
  `Index(flag) < |s|` (or `< a.Length`).

## Model

| member | source | states |
|---|---|---|
| OotBitset.Index | oot_bitset.h:69-71 | the word of a flag is below 4096, and the flag lies in its word's range 16·i … 16·i+15 |
| OotBitset.Bit | oot_bitset.h:25-31 | the bit position of a flag is below 16, and flag = 16·Index(flag) + Bit(flag) |
| OotBitset.Encode | oot_bitset.h:25-31 | the ID built from word i and bit b decodes back to i and b |
| OotBitset.EncodeDecode | oot_bitset.h:25-31 | every flag ID is the encoding of its own word and bit |
| OotBitset.DecodeInjective | oot_bitset.h:25-31 | two flag IDs are equal exactly when they name the same word and the same bit (the encoding is a bijection) |
| OotBitset.Mask | oot_bitset.h:73-75 | the mask of a flag is never zero |
| OotBitset.MaskBits | oot_bitset.h:73-75 | the only bit set in a flag's mask is bit Bit(flag) |
| OotBitset.MaskIsPow2 | oot_bitset.h:73-75 | the mask's value is 2^(flag % 16) |
| OotBitset.SingleIsPow2 | oot_bitset.h:73-75 | `1 << x` in 16 bits is the number 2^x for every x below 16 |
| OotBitset.TestMask | oot_bitset.h:77-79 | a word and-ed with a flag's mask is nonzero exactly when that flag's bit is set |
| OotBitset.OrMask | oot_bitset.h:81-83 | or-ing in a flag's mask sets that flag's bit and keeps all other bits of the word |
| OotBitset.AndNotMask | oot_bitset.h:85-87 | and-ing with the complement of a flag's mask clears that flag's bit and keeps all other bits |
| OotBitset.Word | oot_bitset.h:67 | the word `bitset_word` picks, `set[flag >> 4]`, has as its sixteen bits exactly positions 16·Index(flag) … 16·Index(flag)+15 of the storage's bit vector |
| OotBitset.Get | oot_bitset.h:77-79 | get is true exactly when bit Bit(flag) of the flag's word (`bitset_word`) is set |
| OotBitset.GetIsFlag | oot_bitset.h:77-79 | get reads position `flag` of the storage's bit vector |
| OotBitset.FlagsAt | oot_bitset.h:25-31 | position 16·i + c of the bit vector is bit c of word i |
| OotBitset.FlagsInjective | oot_bitset.h:25-31 | storages of one length with the same bit vector are equal |
| OotBitset.WithSet | oot_bitset.h:81-83 | set keeps the storage's length and every word other than the flag's |
| OotBitset.WithCleared | oot_bitset.h:85-87 | clear keeps the storage's length and every word other than the flag's |
| OotBitset.SetKeepsOtherBits | oot_bitset.h:81-83 | after set, the flag's word outside the mask is unchanged |
| OotBitset.ClearKeepsOtherBits | oot_bitset.h:85-87 | after clear, the flag's word outside the mask is unchanged |
| OotBitset.SetWordBit | oot_bitset.h:81-83 | within the flag's word, set turns on bit Bit(flag) and keeps the other fifteen bits |
| OotBitset.ClearWordBit | oot_bitset.h:85-87 | within the flag's word, clear turns off bit Bit(flag) and keeps the other fifteen bits |
| OotBitset.SetFlagInWord | oot_bitset.h:81-83 | after set, a position k in the flag's word is true when k is the flag and unchanged otherwise |
| OotBitset.ClearFlagInWord | oot_bitset.h:85-87 | after clear, a position k in the flag's word is false when k is the flag and unchanged otherwise |
| OotBitset.SetFlagAt | oot_bitset.h:81-83 | after set, position k of the bit vector is true when k is the flag and unchanged otherwise |
| OotBitset.ClearFlagAt | oot_bitset.h:85-87 | after clear, position k of the bit vector is false when k is the flag and unchanged otherwise |
| OotBitset.SetFlags | oot_bitset.h:81-83 | set's bit vector is the old one with position `flag` set to true |
| OotBitset.ClearFlags | oot_bitset.h:85-87 | clear's bit vector is the old one with position `flag` set to false |
| OotBitset.Set | oot_bitset.h:81-83 | the array after `bitset_set` is WithSet of its old contents |
| OotBitset.Clear | oot_bitset.h:85-87 | the array after `bitset_clear` is WithCleared of its old contents |
| OotBitset.GetAfterSet | oot_bitset.h:77-83 | after set, get of any flag is true for the flag set and what it was before for every other flag |
| OotBitset.GetAfterClear | oot_bitset.h:77-87 | after clear, get of any flag is false for the flag cleared and what it was before for every other flag |
| OotBitset.NoCrossTalk | oot_bitset.h:77-87 | setting or clearing one flag never changes what get reads for a different flag |
| OotBitset.Idempotent | oot_bitset.h:81-87 | setting a flag twice is setting it once; likewise clearing |
| OotBitset.LastWriteWins | oot_bitset.h:81-87 | set then clear equals clear alone, and clear then set equals set alone |
| OotBitset.DistinctUpdatesCommute | oot_bitset.h:81-87 | set/set, clear/clear and set/clear of two different flags give the same storage in either order |
| OotBitset.ZerosClear | example.c:24 | a zero-filled storage has every flag clear |
| OotBitset.ZeroRoundTrip | oot_bitset.h:77-87 | on zeroed storage a flag reads false, reads true after set, and set then clear restores the zeroed storage |
| OotBitset.DocumentedExamples | oot_bitset.h:33-54 | the documented decodings: 0x75 → word 7, bit 5; 0x61 → word 6, bit 1; 0x1AC → word 26, bit 12; 0x00, 0x01, 0x10, 0x1A as in the sample enumeration |
| Example.Scenario | example.c:22-44 | on `flags[2] = {0}`, every check in the sample program holds, and the printed words are 0x0004 and 0x0401 |

## Left out

- The `printf` of the two words in `example.c` is not modelled; `Example.Scenario` returns the two words instead. The program's exit status (`return 1`) is not modelled either.
- Out-of-bounds access (a flag whose word lies past the end of the array) is undefined behaviour in C. The model excludes it by a precondition and does not give it a meaning.
- Flag IDs are integer values in 0 … 0xFFFF. `flag >> 4` is modelled as `flag / 16` and `flag & 0xF` as `flag % 16`; these agree on non-negative 16-bit values. Arguments of a wider or signed type, which C would convert to `uint16_t`, are not modelled.
- The mask is computed in 16 bits. The C code shifts an `unsigned int` and then truncates it to `uint16_t`; with a shift below 16 the two give the same value.
- The C code does `~mask` after integer promotion and then truncates the result. The model computes the complement directly in 16 bits, which gives the same value.
- Concurrent access to one array, and the byte order of the words in memory or on disk, are outside the model.
- The header documents word indices as 0–29, which is the size of its 30-word example array. The model allows any word index below 4096 that the caller's array holds, as the code does.
