/**
 * The matcher as written is sound but not complete: two inputs on which it
 * skips an occurrence of the pattern.
 */
module Incompleteness {
  import opened BadCharacter
  import opened GoodSuffix
  import opened Matcher

  /** The N array and the tables of the pattern "aa". */
  lemma TablesOfAa()
    ensures NTable("aa") == [1, 2]
    ensures LTable([1, 2]) == [0, 1] && LPrimeTable([1, 2]) == [1, 0, 0]
  {
    assert IsLcs("aa", 0, 1);
    LcsUnique("aa", 0, NTable("aa")[0], 1);
    LPrimeTableEntries([1, 2]);
  }

  /** The N array and the tables of the pattern "bab". */
  lemma TablesOfBab()
    ensures NTable("bab") == [1, 0, 3]
    ensures LTable([1, 0, 3]) == [0, 0, 1] && LPrimeTable([1, 0, 3]) == [2, 0, 0, 1]
  {
    assert IsLcs("bab", 0, 1) && IsLcs("bab", 1, 0);
    LcsUnique("bab", 0, NTable("bab")[0], 1);
    LcsUnique("bab", 1, NTable("bab")[1], 0);
    LPrimeTableEntries([1, 0, 3]);
  }

  /**
   * After a full match the shift `m - l[1]` is the whole pattern length for
   * "aa", so the overlapping occurrence at 1 in "aaaa" is skipped.
   */
  lemma FullMatchShiftSkipsOverlap()
    ensures Search("aaaa", "aa") == [0, 2]
    ensures OccursAt("aaaa", "aa", 1)
  {
    var p, text := "aa", "aaaa";
    TablesOfAa();
    var table, L, l := BadCharTable(p), [0, 1], [1, 0, 0];
    assert WellFormedTables(2, L, l);
    assert Mismatch(text, p, 2, 1) == -1;
    assert Scan(text, p, table, L, l, [0], 2) == [0, 2];
    assert Mismatch(text, p, 0, 1) == -1;
    assert Scan(text, p, table, L, l, [], 0) == [0, 2];
    assert text[1..3] == p;
  }

  /**
   * After a mismatch with no strong re-occurrence of the matched suffix, the
   * fallback shift is the whole pattern length: in "aabab" the comparison of
   * "bab" at 0 fails at index 0 after matching "ab", the shift is 3, and the
   * occurrence at 2 is skipped.
   */
  lemma FallbackShiftSkipsOccurrence()
    ensures Search("aabab", "bab") == []
    ensures OccursAt("aabab", "bab", 2)
  {
    var p, text := "bab", "aabab";
    TablesOfBab();
    var table, L, l := BadCharTable(p), [0, 0, 1], [2, 0, 0, 1];
    assert WellFormedTables(3, L, l);
    assert Mismatch(text, p, 0, 2) == 0;
    assert MismatchShift(table, 3, L, l, 0, 'a') == 3;
    assert Scan(text, p, table, L, l, [], 0) == [];
    assert text[2..5] == p;
  }
}
