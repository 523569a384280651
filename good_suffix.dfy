/**
 * Good-suffix preprocessing of Boyer-Moore matching: the array N of longest
 * common suffixes and the two shift tables L and l derived from it.
 */
module GoodSuffix {

  // ---------------------------------------------------------------------
  // The N array
  // ---------------------------------------------------------------------

  /**
   * `k` is the length of the longest common suffix of `p[..i+1]` and `p`:
   * the last `k` characters up to `i` equal the last `k` characters of `p`,
   * and the match cannot be extended by one more character.
   */
  ghost predicate IsLcs(p: string, i: int, k: int)
    requires 0 <= i < |p|
  {
    0 <= k <= i + 1 &&
    BlockMatches(p, i - k, i, |p| - 1 - i) &&
    (k == i + 1 || p[i - k] != p[|p| - 1 - k])
  }

  /** The character at `u` equals the one `d` places further right. */
  predicate SameAhead(p: string, u: int, d: int)
    requires 0 <= u && 0 <= d && u + d < |p|
  {
    p[u] == p[u + d]
  }

  /**
   * Every position in `lo+1..hi` holds the same character as the position
   * `d` further right: the block `p[lo+1..hi]` reappears `d` places later.
   */
  ghost predicate BlockMatches(p: string, lo: int, hi: int, d: int)
  {
    forall u :: lo < u <= hi ==> 0 <= u && 0 <= d && u + d < |p| && SameAhead(p, u, d)
  }

  /** At most one length is the longest common suffix. */
  lemma LcsUnique(p: string, i: int, a: int, b: int)
    requires 0 <= i < |p| && IsLcs(p, i, a) && IsLcs(p, i, b)
    ensures a == b
  {
    var d := |p| - 1 - i;
    assert a < b ==> SameAhead(p, i - a, d);
    assert b < a ==> SameAhead(p, i - b, d);
  }

  /** Extends a common suffix of length `k`, comparing backwards one character at a time. */
  function MatchLen(p: string, i: int, k: nat): (r: nat)
    requires 0 <= i < |p| && k <= i + 1
    ensures k <= r <= i + 1
    ensures BlockMatches(p, i - r, i - k, |p| - 1 - i)
    ensures r == i + 1 || p[i - r] != p[|p| - 1 - r]
    decreases i + 1 - k
  {
    if k <= i && p[i - k] == p[|p| - 1 - k] then MatchLen(p, i, k + 1) else k
  }

  /** The reference value of `N[i]`, by direct backward comparison. */
  function Lcs(p: string, i: int): (k: nat)
    requires 0 <= i < |p|
    ensures IsLcs(p, i, k)
  {
    MatchLen(p, i, 0)
  }

  /** The whole N array: `N[i]` is the longest common suffix of `p[..i+1]` and `p`. */
  function NTable(p: string): (N: seq<int>)
    ensures |N| == |p|
    ensures forall i :: 0 <= i < |p| ==> IsLcs(p, i, N[i])
    ensures |p| >= 1 ==> N[|p| - 1] == |p|
  {
    seq(|p|, i requires 0 <= i < |p| => Lcs(p, i))
  }

  /**
   * The reuse step of the N computation: when the block `p[g+1..f]` equals
   * the block of the same length at the end of `p`, and `i` lies inside it,
   * the value at the mirrored position `k` carries over to `i` as long as it
   * stays strictly inside the block.
   */
  lemma ReuseInsideBlock(p: string, g: int, f: int, i: int, n: int)
    requires -1 <= g < i < f < |p| - 1
    requires BlockMatches(p, g, f, |p| - 1 - f)
    requires IsLcs(p, i + |p| - 1 - f, n) && n < i - g
    ensures IsLcs(p, i, n)
  {
    var m, k := |p|, i + |p| - 1 - f;
    var d, e := m - 1 - i, m - 1 - f;
    forall u | i - n < u <= i ensures 0 <= u && u + d < m && SameAhead(p, u, d) {
      assert SameAhead(p, u, e);
      assert SameAhead(p, u + e, m - 1 - k);
    }
    assert SameAhead(p, i - n, e);
  }

  /**
   * The right-to-left pass that fills N (the for loop with the cursors `g`
   * and `f`). The invariant kept between iterations: the block
   * `p[g+1..f]` equals the block of the same length ending at `|p| - 1`.
   */
  method ComputeN(p: string) returns (N: seq<int>)
    requires |p| >= 1
    ensures |N| == |p|
    ensures forall i :: 0 <= i < |p| ==> IsLcs(p, i, N[i])
  {
    var m := |p|;
    var a := new int[m](_ => 0);
    a[m - 1] := m;
    var g, f := m - 1, m - 1;
    for i := m - 1 downto 0
      invariant -1 <= g <= f <= m - 1 && i <= f
      invariant f == m - 1 ==> g == m - 1
      invariant BlockMatches(p, g, f, m - 1 - f)
      invariant forall k :: i <= k < m ==> IsLcs(p, k, a[k])
    {
      if i > g && a[i + m - 1 - f] < i - g {
        ReuseInsideBlock(p, g, f, i, a[i + m - 1 - f]);
        a[i] := a[i + m - 1 - f];
      } else {
        g, f := i, i;
        while g >= 0 && p[g] == p[g + m - 1 - f]
          invariant -1 <= g <= f
          invariant BlockMatches(p, g, f, m - 1 - f)
        {
          g := g - 1;
        }
        a[i] := f - g;
      }
    }
    N := a[..];
  }

  // ---------------------------------------------------------------------
  // The tables L and l
  // ---------------------------------------------------------------------

  /** The largest index `j < hi` with `N[j] == v`, or -1 when there is none. */
  function LastIndexOf(N: seq<int>, v: int, hi: int): (r: int)
    requires 0 <= hi <= |N|
    ensures -1 <= r < hi
    ensures r >= 0 ==> N[r] == v
    ensures forall j :: r < j < hi ==> N[j] != v
  {
    if hi == 0 then -1
    else if N[hi - 1] == v then hi - 1
    else LastIndexOf(N, v, hi - 1)
  }

  /**
   * The strong good-suffix table: `L[i]` is one past the largest `j <= m - 2`
   * at which a suffix of length `m - i` ends, or 0 if there is none.
   */
  function LTable(N: seq<int>): (L: seq<int>)
    ensures |L| == |N|
    ensures forall i :: 0 <= i < |N| ==>
              (L[i] == 0 && forall j :: 0 <= j < |N| - 1 ==> N[j] != |N| - i) ||
              (1 <= L[i] <= |N| - 1 && N[L[i] - 1] == |N| - i &&
               forall j :: L[i] - 1 < j < |N| - 1 ==> N[j] != |N| - i)
  {
    seq(|N|, i requires 0 <= i < |N| => LastIndexOf(N, |N| - i, |N| - 1) + 1)
  }

  /** `r` itself when it is an index, 0 when it is -1. */
  function OrZero(r: int): (z: int)
  {
    if r < 0 then 0 else r
  }

  /**
   * The table l: `l[k]` is the largest `i` with `N[i] == m - k`, or 0 if
   * there is none. Entries with `N[i] == 0` are written too (to `l[m]`),
   * and nothing is propagated from one entry to the next.
   */
  function LPrimeTable(N: seq<int>): (l: seq<int>)
    ensures |l| == |N| + 1
  {
    seq(|N| + 1, k requires 0 <= k <= |N| => OrZero(LastIndexOf(N, |N| - k, |N|)))
  }

  /**
   * What the entries of l mean: `l[k]` is 0 when no `N[i]` equals `m - k`,
   * and otherwise the largest `i` with `N[i] == m - k`.
   */
  lemma LPrimeTableEntries(N: seq<int>)
    ensures var l := LPrimeTable(N);
            forall k :: 0 <= k <= |N| ==>
              (l[k] == 0 && forall i :: 0 <= i < |N| ==> N[i] != |N| - k) ||
              (0 <= l[k] < |N| && N[l[k]] == |N| - k &&
               forall i :: l[k] < i < |N| ==> N[i] != |N| - k)
  {
    var l := LPrimeTable(N);
    forall k | 0 <= k <= |N|
      ensures (l[k] == 0 && forall i :: 0 <= i < |N| ==> N[i] != |N| - k) ||
              (0 <= l[k] < |N| && N[l[k]] == |N| - k &&
               forall i :: l[k] < i < |N| ==> N[i] != |N| - k)
    {
      var r := LastIndexOf(N, |N| - k, |N|);
      assert l[k] == OrZero(r);
    }
  }

  /** Every N value is a length that fits before its own index. */
  ghost predicate NBounded(N: seq<int>)
  {
    forall j :: 0 <= j < |N| ==> 0 <= N[j] <= j + 1
  }

  /**
   * The forward pass that fills L: for each `j <= m - 2` with a nonzero
   * `N[j]`, `L[m - N[j]]` is overwritten with `j + 1`, so the last write wins.
   */
  method ComputeL(N: seq<int>) returns (L: seq<int>)
    requires |N| >= 1 && NBounded(N)
    ensures L == LTable(N)
  {
    var m := |N|;
    var a := new int[m](_ => 0);
    for j := 0 to m - 1
      invariant forall i :: 0 <= i < m ==> a[i] == LastIndexOf(N, m - i, j) + 1
    {
      var i := m - N[j];
      if i < m {
        a[i] := j + 1;
      }
    }
    L := a[..];
  }

  /** The forward pass that fills l: `l[m - N[i]] := i` for every `i`, the last write wins. */
  method ComputeLPrime(N: seq<int>) returns (l: seq<int>)
    requires NBounded(N)
    ensures l == LPrimeTable(N)
  {
    var m := |N|;
    var a := new int[m + 1](_ => 0);
    for i := 0 to m
      invariant forall k :: 0 <= k <= m ==> a[k] == OrZero(LastIndexOf(N, m - k, i))
    {
      a[m - N[i]] := i;
    }
    l := a[..];
  }

  /** The good-suffix preprocessing: N, then L and l from it. */
  method PreprocessGoodSuffix(p: string) returns (L: seq<int>, l: seq<int>)
    requires |p| >= 1
    ensures L == LTable(NTable(p))
    ensures l == LPrimeTable(NTable(p))
  {
    var N := ComputeN(p);
    forall i | 0 <= i < |p| ensures N[i] == NTable(p)[i] {
      LcsUnique(p, i, N[i], NTable(p)[i]);
    }
    assert N == NTable(p);
    L := ComputeL(N);
    l := ComputeLPrime(N);
  }

  // ---------------------------------------------------------------------
  // Properties of the tables
  // ---------------------------------------------------------------------

  /** The shape the matcher relies on: both tables sized for `m` and every entry in `0..m-1`. */
  ghost predicate WellFormedTables(m: int, L: seq<int>, l: seq<int>)
  {
    m >= 1 && |L| == m && |l| == m + 1 &&
    (forall i :: 0 <= i < m ==> 0 <= L[i] < m) &&
    (forall k :: 0 <= k <= m ==> 0 <= l[k] < m)
  }

  /**
   * The tables of a nonempty pattern are well formed, `L[0] == 0` (no
   * proper prefix ends with the whole pattern) and `l[0] == m - 1` (the
   * whole pattern ends at `m - 1`).
   */
  lemma GoodSuffixTablesWellFormed(p: string)
    requires |p| >= 1
    ensures WellFormedTables(|p|, LTable(NTable(p)), LPrimeTable(NTable(p)))
    ensures LTable(NTable(p))[0] == 0
    ensures LPrimeTable(NTable(p))[0] == |p| - 1
  {
    LPrimeTableEntries(NTable(p));
  }

  /**
   * After the strong good-suffix shift for a mismatch at `j`, the part of the
   * pattern that lands under the matched suffix `p[j+1..]` equals it, and the
   * character that lands under position `j` differs from `p[j]` (or the
   * pattern has been moved past it).
   */
  lemma StrongShiftRealigns(p: string, j: int, shift: int)
    requires 0 <= j < |p| - 1
    requires LTable(NTable(p))[j + 1] > 0 && shift == |p| - LTable(NTable(p))[j + 1]
    ensures 1 <= shift <= j + 1
    ensures BlockMatches(p, j - shift, |p| - 1 - shift, shift)
    ensures j - shift < 0 || p[j - shift] != p[j]
  {
    var N, m := NTable(p), |p|;
    var e := LTable(N)[j + 1] - 1;
    assert N[e] == m - (j + 1);
    assert IsLcs(p, e, N[e]);
    forall u | j + 1 - shift <= u < m - shift ensures SameAhead(p, u, shift) {
      assert e - N[e] < u <= e;
    }
  }

  /**
   * When no strong re-occurrence exists, the fallback entry is 0 as well:
   * l searches the same N values plus `N[m-1] == m`, which never equals
   * `m - (j+1)`. The fallback shift is therefore the whole pattern length.
   */
  lemma FallbackShiftIsWhole(p: string, j: int)
    requires 0 <= j < |p| - 1
    requires LTable(NTable(p))[j + 1] == 0
    ensures LPrimeTable(NTable(p))[j + 1] == 0
  {
    LPrimeTableEntries(NTable(p));
  }

  /**
   * The shift after a full match, `m - l[1]`, is either `m` or 2, and it is
   * less than `m` exactly when `m >= 3` and every character of the pattern is
   * the same.
   */
  lemma MatchShiftValues(p: string)
    requires |p| >= 2
    ensures |p| - LPrimeTable(NTable(p))[1] == |p| || |p| - LPrimeTable(NTable(p))[1] == 2
    ensures |p| - LPrimeTable(NTable(p))[1] < |p| <==>
            |p| >= 3 && forall t :: 0 <= t < |p| ==> p[t] == p[0]
  {
    var N, m := NTable(p), |p|;
    var l := LPrimeTable(N);
    LPrimeTableEntries(N);
    if l[1] != 0 {
      assert N[l[1]] == m - 1 && IsLcs(p, l[1], N[l[1]]);
      assert l[1] == m - 2;
      forall t | 0 <= t < m ensures p[t] == p[0] {
        AdjacentEqualAllEqual(p, t);
      }
    }
    if m >= 3 && forall t :: 0 <= t < m ==> p[t] == p[0] {
      assert IsLcs(p, m - 2, m - 1);
      LcsUnique(p, m - 2, N[m - 2], m - 1);
    }
  }

  /** A sequence whose neighbouring characters are equal has all characters equal. */
  lemma {:induction false} AdjacentEqualAllEqual(p: string, t: int)
    requires 0 <= t < |p|
    requires BlockMatches(p, -1, |p| - 2, 1)
    ensures p[t] == p[0]
    decreases t
  {
    if t > 0 {
      AdjacentEqualAllEqual(p, t - 1);
      assert SameAhead(p, t - 1, 1);
    }
  }
}
