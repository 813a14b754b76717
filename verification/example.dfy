/**
 * The sample program shipped with the header: a two-word flag storage for a
 * handful of game events, walked through get, set and the index and word
 * accessors.
 */
module Example {
  import opened OotBitset

  /** Flag 0x02 of the sample `game_events` enumeration (word 0, bit 2). */
  const FlagTalkedToAdultMalonAfterSong: FlagId := 0x02
  /** Flag 0x10 (word 1, bit 0). */
  const FlagSawBob: FlagId := 0x10
  /** Flag 0x1A (word 1, bit 10). */
  const FlagSawAlice: FlagId := 0x1A

  /**
   * The sample program's run on a zeroed two-word storage. Each of its
   * checks holds at the point where it makes it, and the two words it
   * prints at the end are 0x0004 and 0x0401.
   */
  method Scenario() returns (word0: bv16, word1: bv16)
    ensures word0 == 0x0004 && word1 == 0x0401
  {
    var flags := new bv16[2](_ => 0);

    assert !Get(flags[..], FlagTalkedToAdultMalonAfterSong);

    Set(flags, FlagTalkedToAdultMalonAfterSong);
    assert Get(flags[..], FlagTalkedToAdultMalonAfterSong);

    // the third bit of word 0
    assert Word(flags[..], FlagTalkedToAdultMalonAfterSong) == 4;
    assert Index(FlagTalkedToAdultMalonAfterSong) == 0;

    // word 1
    assert Index(FlagSawBob) == 1;
    Set(flags, FlagSawBob);
    assert Get(flags[..], FlagSawBob);
    Set(flags, FlagSawAlice);

    word0, word1 := flags[0], flags[1];
  }
}
