/** The 64-bit arithmetic of the atomic counters (sync/atomic.Uint64). */
module Words {

  const WORD: nat := 0x1_0000_0000_0000_0000

  type Word = x: nat | x < WORD

  /** The complement of zero. */
  const ALL_ONES: Word := WORD - 1

  /** Addition wraps around. */
  function Add(a: Word, b: Word): Word {
    (a + b) % WORD
  }

  /** Adding the complement of zero undoes adding one, at every value. */
  lemma AddAllOnesUndoes(a: Word)
    ensures Add(Add(a, 1), ALL_ONES) == a && Add(Add(a, ALL_ONES), 1) == a
    ensures Add(a, ALL_ONES) == if a == 0 then ALL_ONES else a - 1
  {
    if a == 0 {
      assert Add(a, ALL_ONES) == ALL_ONES % WORD;
    } else {
      assert (a + ALL_ONES) == (a - 1) + WORD;
      assert Add(a, ALL_ONES) == a - 1;
    }
  }
}
