/**
 * The bad-character table of Boyer-Moore matching: for each character of the
 * pattern, the last index at which it occurs.
 */
module BadCharacter {

  /**
   * The table built by the dictionary comprehension over `enumerate(pattern)`:
   * characters are entered left to right, so a later index overwrites an
   * earlier one and each key ends up with its last occurrence.
   */
  function BadCharTable(p: string): (table: map<char, int>)
    ensures forall c :: c in table <==> c in p
    ensures forall c :: c in table ==>
              0 <= table[c] < |p| && p[table[c]] == c &&
              forall i :: table[c] < i < |p| ==> p[i] != c
  {
    if p == [] then map[]
    else
      var init := p[..|p| - 1];
      assert p == init + [p[|p| - 1]];
      BadCharTable(init)[p[|p| - 1] := |p| - 1]
  }

  /** A table lookup that answers -1 for a character the pattern lacks. */
  function LastOccurrence(table: map<char, int>, c: char): (r: int)
    ensures c in table ==> r == table[c]
    ensures c !in table ==> r == -1
  {
    if c in table then table[c] else -1
  }

  /**
   * The bad-character shift for a mismatch at pattern index `j` against text
   * character `c`. It is not clamped: it is zero or negative when the last
   * occurrence of `c` lies at or to the right of `j`.
   */
  function BadCharShift(table: map<char, int>, j: int, c: char): (r: int)
    ensures c !in table ==> r == j + 1
    ensures c in table ==> r == j - table[c]
  {
    j - LastOccurrence(table, c)
  }

  /**
   * What the shift means: a character absent from the pattern moves the
   * pattern past it; otherwise the shift lines the text character up with
   * its last occurrence in the pattern, which may lie at or right of `j`.
   */
  lemma BadCharShiftAligns(p: string, j: int, c: char)
    requires 0 <= j < |p|
    ensures var r := BadCharShift(BadCharTable(p), j, c);
            (c !in p ==> r == j + 1) &&
            (c in p ==> r <= j && 0 <= j - r < |p| && p[j - r] == c &&
                        forall t :: j - r < t < |p| ==> p[t] != c)
  {
  }

  /** The shift is positive exactly when the last occurrence of `c` is left of `j`. */
  lemma BadCharShiftPositive(p: string, j: int, c: char)
    requires 0 <= j < |p|
    ensures BadCharShift(BadCharTable(p), j, c) >= 1 <==>
            forall t :: j <= t < |p| ==> p[t] != c
  {
    var table := BadCharTable(p);
    if c in table && table[c] >= j {
      assert p[table[c]] == c;
    }
  }
}
