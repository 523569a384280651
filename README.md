# Boyer-Moore string matching (BM.py)

A Dafny model of `BM.py`, an implementation of Boyer-Moore exact string
matching over Python strings, with proofs about it. It has three parts, one
module each:

- `BadCharacter` (`bad_character.dfy`): `preprocess_bad_character`, the map
  from each pattern character to the last index where it occurs. The
  dictionary comprehension is a pure function, `BadCharTable`. The lookup
  `bad_char.get(c, -1)` and the unclamped bad-character shift `j - last(c)`
  are the functions `LastOccurrence` and `BadCharShift`.
- `GoodSuffix` (`good_suffix.dfy`): `preprocess_good_suffix`. Its three
  passes are three methods that fill arrays in place, as the source fills
  its lists:
  - `ComputeN` builds the N array. It scans right to left with the cursors
    `g` and `f`. It either reuses a value from inside the matched block
    `p[g+1..f]` or compares backwards directly.
  - `ComputeL` builds the strong good-suffix table L.
  - `ComputeLPrime` builds the table l.

  Each method is proved against a specification function:
  - `NTable`, where `N[i]` is the longest common suffix of `p[..i+1]` and `p`;
  - `LTable`;
  - `LPrimeTable`.

  Lemmas then state what the tables mean for the shifts.
- `Matcher` (`matcher.dfy`): `boyer_moore`.
  - `BoyerMoore` is the method: the early return, the preprocessing, then
    `MatchLoop`.
  - `MatchLoop` is the outer `while` over alignments `s`, which appends
    to `positions`.
  - `Compare` is the inner right-to-left `while` over `j`.
  - `ShiftAfterMismatch` is the shift selection after a mismatch.
  - `MatchLoop` is proved equal to `Scan`, a tail-recursive definition of
    the same loop.
  - `Search` is the function giving the result of `boyer_moore`.

  Soundness and ordering are proved about `Scan`: every reported offset is an
  occurrence, and the offsets strictly increase. That every shift is at least
  1 is the contract of the shift functions, which is also why the loop
  terminates.
- `Incompleteness` (`incompleteness.dfy`) gives two concrete inputs on which
  the matcher skips an occurrence.

The model follows `BM.py` where it departs from textbook Boyer-Moore and from
the repository's other implementation, `Boyer Moore Algo.py`:
- The bad-character shift is not clamped to 1. It can be zero or negative,
  and `max` with the good-suffix shift, which is always at least 1, keeps the
  loop moving. `Boyer Moore Algo.py` clamps it with `max(1, ...)` (line 96).
- l is filled as `l[m - N[i]] := i` for every `i`, including `N[i] == 0`,
  and nothing else is written. `Boyer Moore Algo.py` writes only when
  `N[i] > 0` (lines 45-46), then fills each zero `l[i]` from `l[i + 1]`
  (lines 47-49).

As a result the matcher is sound but not complete. For example,
`boyer_moore("aaaa", "aa")` is `[0, 2]`, not `[0, 1, 2]`.

## Model

| member | source | states |
|---|---|---|
| `BadCharacter.BadCharTable` | BM.py:1-3 | the keys are exactly the characters of the pattern, and each maps to the last index holding it (later indices overwrite earlier ones) |
| `BadCharacter.LastOccurrence` | BM.py:65 | the lookup `bad_char.get(c, -1)`: the stored last index when `c` is a key, -1 otherwise |
| `BadCharacter.BadCharShift` | BM.py:65 | a character absent from the table gives `j + 1`, otherwise `j` minus its stored last index, with no clamping |
| `BadCharacter.BadCharShiftAligns` | BM.py:65 | a character absent from the pattern gives shift `j+1`. Otherwise the shift moves the last occurrence of the text character under it, and no later pattern position holds that character |
| `BadCharacter.BadCharShiftPositive` | BM.py:65 | the unclamped bad-character shift is at least 1 exactly when the text character does not occur at or right of `j` in the pattern |
| `GoodSuffix.Lcs` | BM.py:12-24 | the reference value of `N[i]` is the longest common suffix of `p[..i+1]` and `p` |
| `GoodSuffix.LcsUnique` | BM.py:12-24 | the longest-common-suffix length at a position is unique, so any method computing it agrees with `NTable` |
| `GoodSuffix.NTable` | BM.py:12-24 | `N` has length `m`, every `N[i]` is the longest common suffix of `p[..i+1]` and `p`, and `N[m-1] == m` |
| `GoodSuffix.ReuseInsideBlock` | BM.py:17-18 | inside a block `p[g+1..f]` that equals the end of the pattern, the mirrored value `N[i+m-1-f]` is the correct `N[i]` when it is less than `i-g` |
| `GoodSuffix.ComputeN` | BM.py:12-24 | the right-to-left pass with cursors `g`, `f` and the backward comparison computes the exact longest common suffix at every position |
| `GoodSuffix.LTable` | BM.py:26-30 | `L[i]` is one past the largest `j <= m-2` with `N[j] == m-i`, or 0 when there is none |
| `GoodSuffix.ComputeL` | BM.py:26-30 | the forward pass with overwriting writes yields exactly `LTable(N)` |
| `GoodSuffix.LPrimeTableEntries` | BM.py:32-34 | `l[k]` is the largest `i` with `N[i] == m-k`, or 0 when there is none, with no propagation |
| `GoodSuffix.LPrimeTable` | BM.py:32-34 | l has length `m + 1`, one entry per suffix length; its entries are characterised by `LPrimeTableEntries` |
| `GoodSuffix.ComputeLPrime` | BM.py:32-34 | the forward pass `l[m - N[i]] := i` yields exactly `LPrimeTable(N)` |
| `GoodSuffix.PreprocessGoodSuffix` | BM.py:5-36 | the returned L and l are the tables of the pattern's N array |
| `GoodSuffix.GoodSuffixTablesWellFormed` | BM.py:26-34 | L has length `m` and l has length `m+1`, every entry lies in `0..m-1`, `L[0] == 0` and `l[0] == m-1` |
| `GoodSuffix.StrongShiftRealigns` | BM.py:69-70 | a nonzero `L[j+1]` gives a shift in `1..j+1`. After it the pattern agrees with the matched suffix `p[j+1..]`, and the character under `j` differs from `p[j]` |
| `GoodSuffix.FallbackShiftIsWhole` | BM.py:71-72 | when `L[j+1] == 0`, `l[j+1]` is 0 as well, so the fallback shift is the whole pattern length |
| `GoodSuffix.MatchShiftValues` | BM.py:63 | the shift after a full match is `m` or 2, and it is less than `m` exactly when `m >= 3` and all pattern characters are equal |
| `Matcher.Mismatch` | BM.py:52-54 | the right-to-left comparison stops at an index in `-1..j` |
| `Matcher.MismatchSpec` | BM.py:52-54 | the comparison stops at the largest index where pattern and text disagree. They agree above it, and -1 means agreement throughout |
| `Matcher.Compare` | BM.py:52-54 | the inner `while` computes exactly the index `Mismatch` describes |
| `Matcher.FullMatch` | BM.py:53-62 | a comparison that runs below index 0 means the pattern occurs at the alignment |
| `Matcher.MatchShift` | BM.py:63 | the shift after a full match lies in `1..m` |
| `Matcher.GoodSuffixShift` | BM.py:67-72 | the good-suffix shift lies in `1..m` in all three cases |
| `Matcher.MismatchShift` | BM.py:65-74 | the shift after a mismatch is at least 1 and at least each of the two rule shifts |
| `Matcher.ShiftAfterMismatch` | BM.py:65-74 | the statements computing `bad_char_shift`, `good_suffix_shift` and `final_shift` yield exactly `MismatchShift` |
| `Matcher.Scan` | BM.py:48-79 | the outer loop as tail recursion: it only appends, so the offsets reported before alignment `s` stay a prefix of the result |
| `Matcher.ScanSound` | BM.py:51-62 | every offset the loop appends is an alignment at which the pattern occurs |
| `Matcher.ScanIncreasing` | BM.py:48-79 | started from increasing offsets left of `s`, the loop appends only larger offsets, so the result strictly increases |
| `Matcher.Search` | BM.py:38-81 | the result holds only occurrences, in strictly increasing order, and is empty for an empty pattern, an empty text or a pattern longer than the text |
| `Matcher.MatchLoop` | BM.py:48-79 | the outer loop, with the comparison and the shift selection, appends exactly the offsets of the scan from alignment 0 |
| `Matcher.BoyerMoore` | BM.py:38-81 | returns `Search(text, pattern)`: only occurrences, strictly increasing, and empty in the degenerate cases |
| `Incompleteness.FullMatchShiftSkipsOverlap` | BM.py:60-63 | on "aaaa" with "aa" the result is `[0, 2]` although "aa" also occurs at 1 |
| `Incompleteness.FallbackShiftSkipsOccurrence` | BM.py:64-79 | on "aabab" with "bab" the result is empty although "bab" occurs at 2 |

## Left out

- The `__main__` block reads two lines from the console and prints the
  result. It is I/O glue and is not part of this model.
- The debug prints at each alignment and the `rule` string are not modelled.
  The `rule` string only labels a print, and none of them affects the
  returned offsets.
- Completeness is not claimed, because it does not hold for this code. The
  two lemmas in `Incompleteness` show inputs where an occurrence is skipped.
- Running time is not modelled. The `else` branch of the N pass resets `g`
  to `i`, unlike the linear-time textbook version. Only the values of N are
  specified, not what it costs to compute them.
- Python lists become Dafny arrays inside the three table passes and are
  returned as sequences. Strings are `seq<char>`, with no encoding.
- `GoodSuffix.ComputeN` requires a nonempty pattern. The source's
  `N[m - 1] = m` fails on an empty list, and `boyer_moore` returns early
  before calling it. `PreprocessGoodSuffix` and `ComputeL` carry the same
  requirement for the same reason.
