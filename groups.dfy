/**
 * What the group pattern of c2m.cpp:259 finds, stated through parenthesis
 * depth: a match is exactly a group whose opening '(' is closed by the match's
 * last ')' and inside which the depth never exceeds two, and on a balanced
 * declaration of depth at most two the successive matches are its top-level
 * groups, left to right, delimiters included.
 */
module ParenGroups {
  import opened Wrappers
  import opened Patterns

  /** The change of depth one character makes. */
  function Step(c: char): int {
    if c == '(' then 1 else if c == ')' then -1 else 0
  }

  /** The parenthesis depth after reading s[..k]. */
  function Depth(s: string, k: nat): int
    requires k <= |s|
  {
    if k == 0 then 0 else Depth(s, k - 1) + Step(s[k - 1])
  }

  /**
   * The ')' at j - 1 closes the '(' at i: the depth comes back to its level
   * before i at j and not earlier, and stays at most two above it in between.
   */
  predicate ClosesAt(s: string, i: nat, j: nat) {
    && i < j <= |s|
    && s[i] == '('
    && Depth(s, j) == Depth(s, i)
    && forall k :: i < k < j ==> Depth(s, i) + 1 <= Depth(s, k) <= Depth(s, i) + 2
  }

  /** Balanced, and never more than two deep. */
  predicate Shallow(s: string) {
    && Depth(s, |s|) == 0
    && forall k :: 0 <= k <= |s| ==> 0 <= Depth(s, k) <= 2
  }

  /**
   * The top-level groups read off the depth: each runs from a '(' read at
   * depth 0 to the ')' that brings the depth back to 0; `start` is the index
   * of the last '(' read at depth 0.
   */
  function TopFrom(s: string, i: nat, start: nat): seq<string>
    requires start <= i <= |s|
    decreases |s| - i
  {
    if i == |s| then []
    else if s[i] == '(' && Depth(s, i) == 0 then TopFrom(s, i + 1, i)
    else if s[i] == ')' && Depth(s, i + 1) == 0 then [s[start..i + 1]] + TopFrom(s, i + 1, start)
    else TopFrom(s, i + 1, start)
  }

  function TopGroups(s: string): seq<string> {
    TopFrom(s, 0, 0)
  }

  /** The depth the body scan is at: one above the group's '(', two inside an inner group. */
  function Level(inner: bool): int {
    if inner then 2 else 1
  }

  /** The body scan resumed at p reaches the ')' that closes the '(' at i. */
  lemma {:induction false} BodyComplete(s: string, i: nat, p: nat, j: nat, inner: bool)
    requires ClosesAt(s, i, j) && i < p <= j
    requires Depth(s, p) == Depth(s, i) + Level(inner)
    ensures GroupBody(s, p, inner) == Some(j)
    decreases j - p
  {
    assert Depth(s, p + 1) == Depth(s, p) + Step(s[p]);
    var next := if s[p] == ')' then false else if s[p] == '(' then true else inner;
    if p + 1 < j && !(inner && s[p] == '(') {
      BodyComplete(s, i, p + 1, j, next);
    }
  }

  /** Whatever the body scan resumed at p returns closes the '(' at i. */
  lemma {:induction false} BodySound(s: string, i: nat, p: nat, j: nat, inner: bool)
    requires i < p <= |s| && s[i] == '('
    requires Depth(s, p) == Depth(s, i) + Level(inner)
    requires forall k :: i < k <= p ==> Depth(s, i) + 1 <= Depth(s, k) <= Depth(s, i) + 2
    requires GroupBody(s, p, inner) == Some(j)
    ensures ClosesAt(s, i, j)
    decreases |s| - p
  {
    if p < |s| {
      assert Depth(s, p + 1) == Depth(s, p) + Step(s[p]);
      var next := if s[p] == ')' then false else if s[p] == '(' then true else inner;
      if !(s[p] == ')' && !inner) && !(s[p] == '(' && inner) {
        BodySound(s, i, p + 1, j, next);
      }
    }
  }

  /**
   * c2m.cpp:259: the group pattern matches from i to j exactly when the '('
   * at i is closed by the ')' at j - 1 with nothing nested more than two deep.
   */
  lemma ParenGroupIff(s: string, i: nat, j: nat)
    requires i <= |s|
    ensures MatchParenGroup(s, i) == Some(j) <==> ClosesAt(s, i, j)
  {
    if i < |s| && s[i] == '(' {
      assert Depth(s, i + 1) == Depth(s, i) + 1;
      if MatchParenGroup(s, i) == Some(j) {
        BodySound(s, i, i + 1, j, false);
      }
      if ClosesAt(s, i, j) {
        BodyComplete(s, i, i + 1, j, false);
      }
    }
  }

  /** In a shallow string, a '(' at depth 0 is closed somewhere. */
  lemma {:induction false} Closer(s: string, i: nat, k: nat) returns (j: nat)
    requires Shallow(s) && i < k <= |s| && s[i] == '(' && Depth(s, i) == 0
    requires forall m :: i < m <= k ==> Depth(s, m) > 0
    ensures ClosesAt(s, i, j)
    decreases |s| - k
  {
    if Depth(s, k + 1) == 0 {
      j := k + 1;
    } else {
      j := Closer(s, i, k + 1);
    }
  }

  /** Inside a top-level group the reference scan only waits for its ')'. */
  lemma {:induction false} InsideGroup(s: string, start: nat, k: nat, j: nat)
    requires ClosesAt(s, start, j) && Depth(s, start) == 0
    requires start < k < j
    ensures TopFrom(s, k, start) == [s[start..j]] + TopFrom(s, j, start)
    decreases j - k
  {
    assert Depth(s, k + 1) == Depth(s, k) + Step(s[k]);
    if k + 1 < j {
      InsideGroup(s, start, k + 1, j);
    }
  }

  /** From a point at depth 0 on, the matches are the top-level groups. */
  lemma {:induction false} MatchesAreTop(s: string, from: nat, start: nat)
    requires Shallow(s) && start <= from <= |s| && Depth(s, from) == 0
    ensures AllMatchesFrom(ParenGroup, s, from) == TopFrom(s, from, start)
    decreases |s| - from
  {
    if from < |s| {
      assert Depth(s, from + 1) == Depth(s, from) + Step(s[from]);
      if s[from] == '(' {
        var j := Closer(s, from, from + 1);
        ParenGroupIff(s, from, j);
        MatchesAreTop(s, j, from);
        if from + 1 < j {
          InsideGroup(s, from, from + 1, j);
        }
      } else {
        MatchesAreTop(s, from + 1, start);
      }
    }
  }

  /**
   * c2m.cpp:12-25 with the pattern of line 259: on a balanced declaration
   * whose parentheses nest at most two deep, the collected groups are its
   * top-level groups, left to right, delimiters included.
   */
  lemma GroupsAreTopLevel(s: string)
    requires Shallow(s)
    ensures AllMatches(ParenGroup, s) == TopGroups(s)
  {
    MatchesAreTop(s, 0, 0);
  }

  /** A member function declaration, as `SimplifyDeclaration` leaves one. */
  const Example: string := "void N::Foo(int)"

  /** Its one parenthesis group is `(int)`, found at index 11. */
  lemma ExampleGroups()
    ensures AllMatches(ParenGroup, Example) == ["(int)"]
  {
    assert |Example| == 16;
    assert GroupBody(Example, 12, false) == Some(16);
    assert MatchAt(ParenGroup, Example, 11) == Some(16);
    forall k | 0 <= k < 11
      ensures MatchAt(ParenGroup, Example, k).None?
    {
      assert Example[k] != '(';
    }
    MatchesSkip(ParenGroup, Example, 0, 11);
    assert AllMatchesFrom(ParenGroup, Example, 16) == [];
    assert Example[11..16] == "(int)";
  }
}
