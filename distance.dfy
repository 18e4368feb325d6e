/**
 * `levenshtein_distance` (clear2mangled/clear2mangled.cpp:139-166): the
 * edit distance of two strings, filled into a `(len1 + 1) x (len2 + 1)`
 * table row by row.
 */
module EditDistance {
  function Min3(a: nat, b: nat, c: nat): nat {
    if a <= b && a <= c then a else if b <= c then b else c
  }

  /**
   * The textbook recurrence: the fewest insertions, deletions and
   * substitutions that turn s1[..i] into s2[..j].
   */
  function Lev(s1: string, s2: string, i: nat, j: nat): nat
    requires i <= |s1| && j <= |s2|
  {
    if i == 0 then j
    else if j == 0 then i
    else Min3(Lev(s1, s2, i - 1, j) + 1,
              Lev(s1, s2, i, j - 1) + 1,
              Lev(s1, s2, i - 1, j - 1) + (if s1[i - 1] == s2[j - 1] then 0 else 1))
  }

  /** The distance of the whole strings. */
  function Distance(s1: string, s2: string): nat {
    Lev(s1, s2, |s1|, |s2|)
  }

  /** Dropping the last character of s2 changes the distance by at most one. */
  lemma {:induction false} DropRight(s1: string, s2: string, i: nat, j: nat)
    requires i <= |s1| && 0 < j <= |s2|
    ensures Lev(s1, s2, i, j - 1) <= Lev(s1, s2, i, j) + 1
    decreases i
  {
    if i > 0 && j > 1 {
      DropRight(s1, s2, i - 1, j);
    } else if i > 0 {
      LowerBound(s1, s2, i, j);
    }
  }

  /** Dropping the last character of s1 changes the distance by at most one. */
  lemma {:induction false} DropLeft(s1: string, s2: string, i: nat, j: nat)
    requires 0 < i <= |s1| && j <= |s2|
    ensures Lev(s1, s2, i - 1, j) <= Lev(s1, s2, i, j) + 1
    decreases j
  {
    if j > 0 && i > 1 {
      DropLeft(s1, s2, i, j - 1);
    } else if j > 0 {
      LowerBound(s1, s2, i, j);
    }
  }

  /** The distance is at least the difference of the lengths. */
  lemma {:induction false} LowerBound(s1: string, s2: string, i: nat, j: nat)
    requires i <= |s1| && j <= |s2|
    ensures Lev(s1, s2, i, j) >= i - j && Lev(s1, s2, i, j) >= j - i
    decreases i + j
  {
    if i > 0 && j > 0 {
      LowerBound(s1, s2, i - 1, j);
      LowerBound(s1, s2, i, j - 1);
      LowerBound(s1, s2, i - 1, j - 1);
    }
  }

  /**
   * Line 155: on equal characters the program takes the diagonal entry
   * alone; the other two candidates are never smaller.
   */
  lemma EqualStep(s1: string, s2: string, i: nat, j: nat)
    requires 0 < i <= |s1| && 0 < j <= |s2| && s1[i - 1] == s2[j - 1]
    ensures Lev(s1, s2, i, j) == Lev(s1, s2, i - 1, j - 1)
  {
    DropRight(s1, s2, i - 1, j);
    DropLeft(s1, s2, i, j - 1);
  }

  /** The entry lines 155-161 compute from the three entries before it. */
  lemma NextEntry(s1: string, s2: string, i: nat, j: nat, up: int, left: int, diagonal: int)
    requires 0 < i <= |s1| && 0 < j <= |s2|
    requires up == Lev(s1, s2, i - 1, j) && left == Lev(s1, s2, i, j - 1) && diagonal == Lev(s1, s2, i - 1, j - 1)
    ensures s1[i - 1] == s2[j - 1] ==> diagonal == Lev(s1, s2, i, j)
    ensures s1[i - 1] != s2[j - 1] ==> Min3(up + 1, left + 1, diagonal + 1) == Lev(s1, s2, i, j)
  {
    if s1[i - 1] == s2[j - 1] {
      EqualStep(s1, s2, i, j);
    }
  }

  /** The distance lies between the difference and the larger of the lengths. */
  lemma {:induction false} Bounds(s1: string, s2: string, i: nat, j: nat)
    requires i <= |s1| && j <= |s2|
    ensures i - j <= Lev(s1, s2, i, j) && j - i <= Lev(s1, s2, i, j)
    ensures Lev(s1, s2, i, j) <= if i <= j then j else i
    decreases i + j
  {
    LowerBound(s1, s2, i, j);
    if i > 0 && j > 0 {
      Bounds(s1, s2, i - 1, j - 1);
    }
  }

  /** The distance is zero exactly when the prefixes are equal. */
  lemma {:induction false} ZeroIff(s1: string, s2: string, i: nat, j: nat)
    requires i <= |s1| && j <= |s2|
    ensures Lev(s1, s2, i, j) == 0 <==> i == j && s1[..i] == s2[..j]
    decreases i
  {
    if i > 0 && j > 0 {
      ZeroIff(s1, s2, i - 1, j - 1);
      if s1[..i] == s2[..j] {
        assert s1[i - 1] == s1[..i][i - 1];
        assert s2[j - 1] == s2[..j][j - 1];
        assert s1[..i - 1] == s1[..i][..i - 1];
        assert s2[..j - 1] == s2[..j][..j - 1];
        EqualStep(s1, s2, i, j);
      }
      if Lev(s1, s2, i, j) == 0 {
        assert s1[..i] == s1[..i - 1] + [s1[i - 1]];
        assert s2[..j] == s2[..j - 1] + [s2[j - 1]];
      }
    }
  }

  /**
   * Whole strings: the distance is zero exactly for equal strings, the
   * distance from or to "" is the other length (lines 145-150), and it never
   * exceeds the longer length.
   */
  lemma DistanceFacts(s1: string, s2: string)
    ensures Distance(s1, s2) == 0 <==> s1 == s2
    ensures Distance(s1, "") == |s1| && Distance("", s2) == |s2|
    ensures |s1| - |s2| <= Distance(s1, s2) <= if |s1| <= |s2| then |s2| else |s1|
  {
    ZeroIff(s1, s2, |s1|, |s2|);
    assert s1[..|s1|] == s1 && s2[..|s2|] == s2;
    Bounds(s1, s2, |s1|, |s2|);
  }

  /**
   * Lines 139-166. The first two loops fill column 0 and row 0; each later
   * entry takes the diagonal on equal characters and one more than the
   * least neighbour otherwise.
   */
  method LevenshteinDistance(s1: string, s2: string) returns (d: int)
    ensures d == Distance(s1, s2)
  {
    var len1, len2 := |s1|, |s2|;
    var dp := new int[len1 + 1, len2 + 1];
    FillBorders(dp);
    for i := 1 to len1 + 1
      invariant forall a, b :: 0 <= a < i && 0 <= b <= len2 ==> dp[a, b] == Lev(s1, s2, a, b)
      invariant forall a :: i <= a <= len1 ==> dp[a, 0] == a
    {
      assert RowDone(s1, s2, dp, i - 1);
      FillRow(s1, s2, dp, i);
    }
    d := dp[len1, len2];
  }

  /** Lines 145-150: `dp[i][0] = i` and `dp[0][j] = j`. */
  method FillBorders(dp: array2<int>)
    requires dp.Length0 > 0 && dp.Length1 > 0
    modifies dp
    ensures forall a :: 0 <= a < dp.Length0 ==> dp[a, 0] == a
    ensures forall b :: 0 <= b < dp.Length1 ==> dp[0, b] == b
  {
    for i := 0 to dp.Length0
      invariant forall a :: 0 <= a < i ==> dp[a, 0] == a
    {
      dp[i, 0] := i;
    }
    for j := 0 to dp.Length1
      invariant forall a :: 0 <= a < dp.Length0 ==> dp[a, 0] == a
      invariant forall b :: 0 <= b < j ==> dp[0, b] == b
    {
      dp[0, j] := j;
    }
  }

  /** Row r of the table holds the distances from s1[..r]. */
  ghost predicate RowDone(s1: string, s2: string, dp: array2<int>, r: nat)
    requires r <= |s1| && r < dp.Length0 && dp.Length1 == |s2| + 1
    reads dp
  {
    forall b :: 0 <= b <= |s2| ==> Filled(s1, s2, dp, r, b)
  }

  /** Entry (r, c) of the table holds the distance of s1[..r] and s2[..c]. */
  ghost predicate Filled(s1: string, s2: string, dp: array2<int>, r: nat, c: nat)
    requires r <= |s1| && c <= |s2| && r < dp.Length0 && c < dp.Length1
    reads dp
  {
    dp[r, c] == Lev(s1, s2, r, c)
  }

  /** Lines 153-163 for one value of i: row i from row i - 1 and column 0. */
  method FillRow(s1: string, s2: string, dp: array2<int>, i: nat)
    requires dp.Length0 == |s1| + 1 && dp.Length1 == |s2| + 1 && 0 < i <= |s1|
    requires RowDone(s1, s2, dp, i - 1)
    requires dp[i, 0] == i
    modifies dp
    ensures forall b :: 0 <= b <= |s2| ==> dp[i, b] == Lev(s1, s2, i, b)
    ensures forall a, b :: 0 <= a < dp.Length0 && 0 <= b < dp.Length1 && a != i ==> dp[a, b] == old(dp[a, b])
  {
    for j := 1 to |s2| + 1
      invariant forall b {:trigger dp[i, b]} :: 0 <= b < j ==> dp[i, b] == Lev(s1, s2, i, b)
      invariant forall a, b :: 0 <= a < dp.Length0 && 0 <= b < dp.Length1 && a != i ==> dp[a, b] == old(dp[a, b])
    {
      assert old(Filled(s1, s2, dp, i - 1, j)) && old(Filled(s1, s2, dp, i - 1, j - 1));
      var up, left, diagonal := dp[i - 1, j], dp[i, j - 1], dp[i - 1, j - 1];
      NextEntry(s1, s2, i, j, up, left, diagonal);
      if s1[i - 1] == s2[j - 1] {
        dp[i, j] := diagonal;
      } else {
        dp[i, j] := Min3(up + 1, left + 1, diagonal + 1);
      }
    }
  }
}
