/**
 * The Boyer-Moore matching loop: right-to-left comparison at each alignment,
 * then a shift chosen from the bad-character and good-suffix rules.
 */
module Matcher {
  import opened BadCharacter
  import opened GoodSuffix

  /**
   * The right-to-left comparison at alignment `s`, continued from pattern
   * index `j`: the largest index at or below `j` where pattern and text
   * disagree, or -1 when they agree all the way down.
   */
  function Mismatch(text: string, p: string, s: int, j: int): (r: int)
    requires 0 <= s && s + |p| <= |text| && -1 <= j < |p|
    ensures -1 <= r <= j
    decreases j + 1
  {
    if j < 0 || p[j] != text[s + j] then j else Mismatch(text, p, s, j - 1)
  }

  /**
   * What the comparison finds: pattern and text agree strictly above the
   * returned index, up to `j`, and disagree at it.
   */
  lemma {:induction false} MismatchSpec(text: string, p: string, s: int, j: int)
    requires 0 <= s && s + |p| <= |text| && -1 <= j < |p|
    ensures var r := Mismatch(text, p, s, j);
            (forall t :: r < t <= j ==> p[t] == text[s + t]) &&
            (r >= 0 ==> p[r] != text[s + r])
    decreases j + 1
  {
    if j >= 0 && p[j] == text[s + j] {
      MismatchSpec(text, p, s, j - 1);
    }
  }

  /** The shift after a full match: `m - l[1]`, or 1 for a one-character pattern. */
  function MatchShift(m: int, L: seq<int>, l: seq<int>): (r: int)
    requires WellFormedTables(m, L, l)
    ensures 1 <= r <= m
  {
    if m > 1 then m - l[1] else 1
  }

  /**
   * The good-suffix shift for a mismatch at pattern index `j`: 1 when nothing
   * has matched yet, the strong rule when `L[j+1]` is nonzero, else `l[j+1]`.
   */
  function GoodSuffixShift(m: int, L: seq<int>, l: seq<int>, j: int): (r: int)
    requires WellFormedTables(m, L, l) && 0 <= j < m
    ensures 1 <= r <= m
  {
    if j + 1 == m then 1
    else if L[j + 1] > 0 then m - L[j + 1]
    else m - l[j + 1]
  }

  /**
   * The shift after a mismatch: the larger of the two rules. It is at least
   * 1 even when the unclamped bad-character shift is zero or negative.
   */
  function MismatchShift(table: map<char, int>, m: int, L: seq<int>, l: seq<int>, j: int, c: char): (r: int)
    requires WellFormedTables(m, L, l) && 0 <= j < m
    ensures r >= 1
    ensures r >= BadCharShift(table, j, c) && r >= GoodSuffixShift(m, L, l, j)
  {
    var bc, gs := BadCharShift(table, j, c), GoodSuffixShift(m, L, l, j);
    if bc >= gs then bc else gs
  }

  /**
   * The offsets `boyer_moore` has reported once it leaves the loop, when it
   * has reported `found` before reaching alignment `s`: the loop of
   * `boyer_moore` as a tail-recursive definition. It terminates because
   * every shift is at least 1, and it only appends: the offsets already
   * reported stay a prefix of the result.
   */
  function Scan(text: string, p: string, table: map<char, int>, L: seq<int>, l: seq<int>, found: seq<int>, s: int): (r: seq<int>)
    requires WellFormedTables(|p|, L, l) && 0 <= s
    ensures found <= r
    decreases |text| - |p| + 1 - s
  {
    if s > |text| - |p| then found
    else
      var j := Mismatch(text, p, s, |p| - 1);
      if j < 0 then Scan(text, p, table, L, l, found + [s], s + MatchShift(|p|, L, l))
      else Scan(text, p, table, L, l, found, s + MismatchShift(table, |p|, L, l, j, text[s + j]))
  }

  /** The pattern occurs in `text` at alignment `s`. */
  ghost predicate OccursAt(text: string, p: string, s: int)
  {
    0 <= s <= |text| - |p| && text[s..s + |p|] == p
  }

  /** Every offset in `r` is an alignment at which `p` occurs in `text`. */
  ghost predicate Occurrences(text: string, p: string, r: seq<int>)
  {
    forall k :: 0 <= k < |r| ==> OccursAt(text, p, r[k])
  }

  /** The offsets in `r` strictly increase. */
  ghost predicate StrictlyIncreasing(r: seq<int>)
  {
    forall a, b :: 0 <= a < b < |r| ==> r[a] < r[b]
  }

  /** Every offset in `r` lies left of alignment `s`. */
  ghost predicate Before(r: seq<int>, s: int)
  {
    r == [] || r[|r| - 1] < s
  }

  /**
   * Soundness of the scan: started from offsets at which the pattern occurs,
   * it reports only offsets at which the pattern occurs.
   */
  lemma {:induction false} ScanSound(text: string, p: string, table: map<char, int>, L: seq<int>, l: seq<int>, found: seq<int>, s: int)
    requires WellFormedTables(|p|, L, l) && 0 <= s
    requires Occurrences(text, p, found)
    ensures Occurrences(text, p, Scan(text, p, table, L, l, found, s))
    decreases |text| - |p| + 1 - s, 1
  {
    if s <= |text| - |p| {
      var j := Mismatch(text, p, s, |p| - 1);
      if j < 0 {
        ScanSoundAfterMatch(text, p, table, L, l, found, s);
      } else {
        ScanSoundAfterMismatch(text, p, table, L, l, found, s, j);
      }
    }
  }

  /** Soundness of the scan at an alignment where the whole pattern matches. */
  lemma {:induction false} ScanSoundAfterMatch(text: string, p: string, table: map<char, int>, L: seq<int>, l: seq<int>, found: seq<int>, s: int)
    requires WellFormedTables(|p|, L, l) && 0 <= s <= |text| - |p|
    requires Mismatch(text, p, s, |p| - 1) < 0
    requires Occurrences(text, p, found)
    ensures Occurrences(text, p, Scan(text, p, table, L, l, found, s))
    decreases |text| - |p| + 1 - s, 0
  {
    var next := s + MatchShift(|p|, L, l);
    FullMatch(text, p, s);
    AppendOccurrence(text, p, found, s);
    ScanSound(text, p, table, L, l, found + [s], next);
    ScanMatchStep(text, p, table, L, l, found, s);
  }

  /** Soundness of the scan at an alignment with a mismatch at `j`. */
  lemma {:induction false} ScanSoundAfterMismatch(text: string, p: string, table: map<char, int>, L: seq<int>, l: seq<int>, found: seq<int>, s: int, j: int)
    requires WellFormedTables(|p|, L, l) && 0 <= s <= |text| - |p|
    requires j == Mismatch(text, p, s, |p| - 1) && j >= 0
    requires Occurrences(text, p, found)
    ensures Occurrences(text, p, Scan(text, p, table, L, l, found, s))
    decreases |text| - |p| + 1 - s, 0
  {
    ScanSound(text, p, table, L, l, found, s + MismatchShift(table, |p|, L, l, j, text[s + j]));
    ScanMismatchStep(text, p, table, L, l, found, s, j);
  }

  /**
   * Order of the scan: started from strictly increasing offsets that lie
   * left of `s`, it appends only larger ones, so the result strictly
   * increases.
   */
  lemma {:induction false} ScanIncreasing(text: string, p: string, table: map<char, int>, L: seq<int>, l: seq<int>, found: seq<int>, s: int)
    requires WellFormedTables(|p|, L, l) && 0 <= s
    requires StrictlyIncreasing(found) && Before(found, s)
    ensures StrictlyIncreasing(Scan(text, p, table, L, l, found, s))
    decreases |text| - |p| + 1 - s
  {
    if s <= |text| - |p| {
      var j := Mismatch(text, p, s, |p| - 1);
      if j < 0 {
        var next := s + MatchShift(|p|, L, l);
        assert StrictlyIncreasing(Scan(text, p, table, L, l, found, s)) by {
          AppendLarger(found, s);
          ScanIncreasing(text, p, table, L, l, found + [s], next);
          ScanMatchStep(text, p, table, L, l, found, s);
        }
      } else {
        var next := s + MismatchShift(table, |p|, L, l, j, text[s + j]);
        assert StrictlyIncreasing(Scan(text, p, table, L, l, found, s)) by {
          ScanIncreasing(text, p, table, L, l, found, next);
          ScanMismatchStep(text, p, table, L, l, found, s, j);
        }
      }
    }
  }

  /** An occurrence put after earlier occurrences keeps them all occurrences. */
  lemma AppendOccurrence(text: string, p: string, found: seq<int>, s: int)
    requires OccursAt(text, p, s)
    requires Occurrences(text, p, found)
    ensures Occurrences(text, p, found + [s])
  {
  }

  /** An offset larger than all earlier ones keeps them strictly increasing. */
  lemma AppendLarger(found: seq<int>, s: int)
    requires StrictlyIncreasing(found) && Before(found, s)
    ensures StrictlyIncreasing(found + [s])
  {
    var r := found + [s];
    forall a, b | 0 <= a < b < |r| ensures r[a] < r[b] {
      if b < |found| {
        assert r[a] == found[a] && r[b] == found[b];
      } else {
        assert r[a] == found[a] && found[a] <= found[|found| - 1];
      }
    }
  }

  /** One step of the scan at an alignment where the pattern occurs. */
  lemma ScanMatchStep(text: string, p: string, table: map<char, int>, L: seq<int>, l: seq<int>, found: seq<int>, s: int)
    requires WellFormedTables(|p|, L, l) && 0 <= s <= |text| - |p|
    requires Mismatch(text, p, s, |p| - 1) < 0
    ensures Scan(text, p, table, L, l, found, s) ==
            Scan(text, p, table, L, l, found + [s], s + MatchShift(|p|, L, l))
  {
  }

  /** One step of the scan at an alignment with a mismatch at `j`. */
  lemma ScanMismatchStep(text: string, p: string, table: map<char, int>, L: seq<int>, l: seq<int>, found: seq<int>, s: int, j: int)
    requires WellFormedTables(|p|, L, l) && 0 <= s <= |text| - |p|
    requires j == Mismatch(text, p, s, |p| - 1) && j >= 0
    ensures Scan(text, p, table, L, l, found, s) ==
            Scan(text, p, table, L, l, found, s + MismatchShift(table, |p|, L, l, j, text[s + j]))
  {
  }

  /** A comparison that runs off the left end means the pattern occurs at `s`. */
  lemma FullMatch(text: string, p: string, s: int)
    requires 0 <= s && s + |p| <= |text|
    requires Mismatch(text, p, s, |p| - 1) < 0
    ensures OccursAt(text, p, s)
  {
    MismatchSpec(text, p, s, |p| - 1);
    assert forall t :: 0 <= t < |p| ==> text[s..s + |p|][t] == p[t];
  }

  /**
   * The offsets `boyer_moore(text, pattern)` returns: none for an empty
   * pattern or text, otherwise the scan from alignment 0 with the pattern's
   * tables.
   */
  function Search(text: string, p: string): (r: seq<int>)
    ensures Occurrences(text, p, r)
    ensures StrictlyIncreasing(r)
    ensures p == [] || text == [] || |p| > |text| ==> r == []
  {
    if p == [] || text == [] then []
    else
      GoodSuffixTablesWellFormed(p);
      ScanSound(text, p, BadCharTable(p), LTable(NTable(p)), LPrimeTable(NTable(p)), [], 0);
      ScanIncreasing(text, p, BadCharTable(p), LTable(NTable(p)), LPrimeTable(NTable(p)), [], 0);
      Scan(text, p, BadCharTable(p), LTable(NTable(p)), LPrimeTable(NTable(p)), [], 0)
  }

  /**
   * The right-to-left comparison of `boyer_moore` at alignment `s`: `j`
   * moves down while pattern and text agree.
   */
  method Compare(text: string, pattern: string, s: int) returns (j: int)
    requires 0 <= s && s + |pattern| <= |text|
    ensures j == Mismatch(text, pattern, s, |pattern| - 1)
  {
    j := |pattern| - 1;
    while j >= 0 && pattern[j] == text[s + j]
      invariant -1 <= j <= |pattern| - 1
      invariant Mismatch(text, pattern, s, j) == Mismatch(text, pattern, s, |pattern| - 1)
    {
      j := j - 1;
    }
  }

  /**
   * The shift selection of `boyer_moore` after a mismatch at pattern index
   * `j` against text character `c`: the bad-character shift, the good-suffix
   * shift by its three cases, and the larger of the two.
   */
  method ShiftAfterMismatch(badChar: map<char, int>, m: int, L: seq<int>, l: seq<int>, j: int, c: char)
    returns (finalShift: int)
    requires WellFormedTables(m, L, l) && 0 <= j < m
    ensures finalShift == MismatchShift(badChar, m, L, l, j, c)
  {
    var badCharShift := j - LastOccurrence(badChar, c);
    var goodSuffixShift;
    if j + 1 == m {
      goodSuffixShift := 1;
    } else if L[j + 1] > 0 {
      goodSuffixShift := m - L[j + 1];
    } else {
      goodSuffixShift := m - l[j + 1];
    }
    finalShift := if badCharShift >= goodSuffixShift then badCharShift else goodSuffixShift;
  }

  /**
   * The matching loop of `boyer_moore`, given the pattern's tables: it
   * reports exactly the offsets of the scan from alignment 0.
   */
  method MatchLoop(text: string, pattern: string, badChar: map<char, int>, L: seq<int>, l: seq<int>)
    returns (positions: seq<int>)
    requires WellFormedTables(|pattern|, L, l)
    ensures positions == Scan(text, pattern, badChar, L, l, [], 0)
  {
    var m, n := |pattern|, |text|;
    positions := [];
    var s := 0;
    while s <= n - m
      invariant 0 <= s
      invariant Scan(text, pattern, badChar, L, l, positions, s) == Scan(text, pattern, badChar, L, l, [], 0)
      decreases n - m + 1 - s
    {
      var j := Compare(text, pattern, s);
      if j < 0 {
        ScanMatchStep(text, pattern, badChar, L, l, positions, s);
        positions := positions + [s];
        s := s + (if m > 1 then m - l[1] else 1);
      } else {
        var finalShift := ShiftAfterMismatch(badChar, m, L, l, j, text[s + j]);
        ScanMismatchStep(text, pattern, badChar, L, l, positions, s, j);
        s := s + finalShift;
      }
    }
  }

  /**
   * `boyer_moore`: no offsets for an empty pattern or text, otherwise the
   * tables are built and the matching loop runs from alignment 0. Every
   * reported offset is an occurrence and the offsets strictly increase.
   */
  method BoyerMoore(text: string, pattern: string) returns (positions: seq<int>)
    ensures positions == Search(text, pattern)
    ensures Occurrences(text, pattern, positions)
    ensures StrictlyIncreasing(positions)
    ensures pattern == [] || text == [] || |pattern| > |text| ==> positions == []
  {
    if pattern == [] || text == [] {
      return [];
    }
    var badChar := BadCharTable(pattern);
    var L, l := PreprocessGoodSuffix(pattern);
    GoodSuffixTablesWellFormed(pattern);
    positions := MatchLoop(text, pattern, badChar, L, l);
  }
}
