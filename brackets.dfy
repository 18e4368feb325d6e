/**
 * `RemoveAngleBrackets` (clear2mangled/c2m.cpp:48-81): cuts the template
 * argument lists out of a declaration. A left-to-right scan records every
 * outermost `<...>` region, tracking the nesting depth in a signed counter;
 * then each recorded region, in order, is deleted from the text with
 * `ReplaceSubstring`.
 */
module Brackets {
  import opened Wrappers
  import opened Patterns

  /** The change a character makes to the nesting depth. */
  function Delta(c: char): int {
    if c == '<' then 1 else if c == '>' then -1 else 0
  }

  /** The nesting depth after reading t from depth 0: '<' opens, '>' closes. */
  function Net(t: string): int {
    if |t| == 0 then 0 else Net(t[..|t| - 1]) + Delta(t[|t| - 1])
  }

  /**
   * A balanced template argument list: it opens with '<', the depth stays
   * positive until its last character, a '>', brings it back to 0.
   */
  predicate Balanced(r: string) {
    && |r| >= 2 && r[0] == '<' && r[|r| - 1] == '>'
    && Net(r) == 0
    && forall j :: 1 <= j < |r| ==> Net(r[..j]) > 0
  }

  /**
   * The regions the scan records from position i on, given the depth `level`
   * reached so far and the start of the region open at that depth. A '>' read
   * at depth 0 drives the depth negative; a '<' read then does not start a
   * region, since the depth it leaves is not 1.
   */
  function RegionsFrom(s: string, i: nat, level: int, bracket: Option<nat>): seq<Lexeme>
    requires i <= |s|
    requires level > 0 ==> bracket.Some? && bracket.value < i
    decreases |s| - i
  {
    if i == |s| then []
    else if s[i] == '<' then
      RegionsFrom(s, i + 1, level + 1, if level == 0 then Some(i) else bracket)
    else if s[i] == '>' then
      if level - 1 == 0 then [s[bracket.value..i + 1]] + RegionsFrom(s, i + 1, 0, bracket)
      else RegionsFrom(s, i + 1, level - 1, bracket)
    else RegionsFrom(s, i + 1, level, bracket)
  }

  /** The outermost `<...>` regions of s, left to right. */
  function AngleRegions(s: string): seq<Lexeme> {
    RegionsFrom(s, 0, 0, None)
  }

  /** The text after deleting every occurrence of each region in turn. */
  function RemoveEach(s: string, regions: seq<Lexeme>): string {
    if regions == [] then s
    else ReplaceLiteral(regions[|regions| - 1], "", RemoveEach(s, regions[..|regions| - 1]))
  }

  /** What `RemoveAngleBrackets` returns. */
  function StripTemplates(s: string): string {
    RemoveEach(s, AngleRegions(s))
  }

  /** `RemoveAngleBrackets` (c2m.cpp:48-81). */
  method RemoveAngleBrackets(s: string) returns (result: string)
    ensures result == StripTemplates(s)
  {
    result := s;
    var level: int := 0;
    var bracket: Option<nat> := None;
    var brackets: seq<Lexeme> := [];
    for i := 0 to |s|
      invariant level > 0 ==> bracket.Some? && bracket.value < i
      invariant brackets + RegionsFrom(s, i, level, bracket) == AngleRegions(s)
    {
      if s[i] == '<' {
        if level == 0 {
          bracket := Some(i);
        }
        level := level + 1;
      }
      if s[i] == '>' {
        level := level - 1;
        if level == 0 {
          brackets := brackets + [s[bracket.value..i + 1]];
        }
      }
    }
    assert brackets == AngleRegions(s);
    for k := 0 to |brackets|
      invariant result == RemoveEach(s, brackets[..k])
    {
      assert brackets[..k + 1][..k] == brackets[..k];
      result := ReplaceSubstring(result, brackets[k], "");
    }
    assert brackets[..|brackets|] == brackets;
  }

  /** Reading one more character changes the depth by that character's Delta. */
  lemma NetSnoc(s: string, b: nat, i: nat)
    requires b <= i < |s|
    ensures Net(s[b..i + 1]) == Net(s[b..i]) + Delta(s[i])
  {
    assert s[b..i + 1][..i - b] == s[b..i];
  }

  /** A region closed at depth 1 is a balanced template argument list. */
  lemma ClosedRegion(s: string, b: nat, i: nat)
    requires b < i < |s| && s[i] == '>'
    requires Net(s[b..i]) == 1
    requires forall j :: b < j <= i ==> Net(s[b..j]) > 0
    ensures Balanced(s[b..i + 1])
  {
    var r := s[b..i + 1];
    NetSnoc(s, b, i);
    NetSnoc(s, b, b);
    assert s[b..b] == [];
    forall j | 1 <= j < |r|
      ensures Net(r[..j]) > 0
    {
      assert r[..j] == s[b..b + j];
    }
  }

  /** The depth-tracking facts the scan keeps about the region it has open. */
  predicate OpenRegion(s: string, i: nat, level: int, bracket: Option<nat>)
    requires i <= |s|
  {
    level > 0 ==>
      && bracket.Some? && bracket.value < i
      && Net(s[bracket.value..i]) == level
      && forall j :: bracket.value < j <= i ==> Net(s[bracket.value..j]) > 0
  }

  /** The facts are kept when the scan reads s[i]. */
  lemma OpenRegionStep(s: string, i: nat, level: int, bracket: Option<nat>)
    requires i < |s| && OpenRegion(s, i, level, bracket)
    ensures s[i] == '<' ==> OpenRegion(s, i + 1, level + 1, if level == 0 then Some(i) else bracket)
    ensures s[i] == '>' ==> OpenRegion(s, i + 1, level - 1, bracket)
    ensures s[i] != '<' && s[i] != '>' ==> OpenRegion(s, i + 1, level, bracket)
  {
    if level == 0 && s[i] == '<' {
      NetSnoc(s, i, i);
      assert s[i..i] == [];
    } else if level > 0 {
      NetSnoc(s, bracket.value, i);
    }
  }

  /** Every region the scan records is a balanced template argument list. */
  lemma {:induction false} RegionsBalanced(s: string, i: nat, level: int, bracket: Option<nat>)
    requires i <= |s| && OpenRegion(s, i, level, bracket)
    ensures forall r :: r in RegionsFrom(s, i, level, bracket) ==> Balanced(r)
    decreases |s| - i
  {
    if i < |s| {
      OpenRegionStep(s, i, level, bracket);
      if s[i] == '<' {
        RegionsBalanced(s, i + 1, level + 1, if level == 0 then Some(i) else bracket);
      } else if s[i] == '>' {
        if level - 1 == 0 {
          ClosedRegion(s, bracket.value, i);
          RegionsBalanced(s, i + 1, 0, bracket);
        } else {
          RegionsBalanced(s, i + 1, level - 1, bracket);
        }
      } else {
        RegionsBalanced(s, i + 1, level, bracket);
      }
    }
  }

  /** What `RemoveAngleBrackets` deletes are balanced `<...>` lists. */
  lemma AngleRegionsBalanced(s: string)
    ensures forall r :: r in AngleRegions(s) ==> Balanced(r)
  {
    RegionsBalanced(s, 0, 0, None);
  }

  /** Text without angle brackets leaves the scan's state as it is. */
  lemma {:induction false} SkipPlain(s: string, i: nat, j: nat, level: int, bracket: Option<nat>)
    requires i <= j <= |s|
    requires level > 0 ==> bracket.Some? && bracket.value < i
    requires forall k :: i <= k < j ==> s[k] != '<' && s[k] != '>'
    ensures RegionsFrom(s, i, level, bracket) == RegionsFrom(s, j, level, bracket)
    decreases j - i
  {
    if i < j {
      SkipPlain(s, i + 1, j, level, bracket);
    }
  }

  /** Inside a balanced list the depth stays positive until its closing '>'. */
  lemma {:induction false} ScanInside(s: string, b: nat, r: string, j: nat)
    requires Balanced(r) && 1 <= j < |r| && b + |r| <= |s| && s[b..b + |r|] == r
    ensures RegionsFrom(s, b + j, Net(r[..j]), Some(b)) == [r] + RegionsFrom(s, b + |r|, 0, Some(b))
    decreases |r| - j
  {
    assert s[b + j] == r[j];
    assert r[..j + 1][..j] == r[..j];
    if j == |r| - 1 {
      assert r[..j + 1] == r;
      assert s[b..b + j + 1] == r;
    } else {
      ScanInside(s, b, r, j + 1);
    }
  }

  /** The scan of a balanced list started at depth 0 records exactly that list. */
  lemma ScanBalanced(s: string, b: nat, r: string)
    requires Balanced(r) && b + |r| <= |s| && s[b..b + |r|] == r
    ensures RegionsFrom(s, b, 0, None) == [r] + RegionsFrom(s, b + |r|, 0, Some(b))
  {
    assert s[b] == r[0];
    assert r[..1] == [r[0]];
    assert Net(r[..1]) == Net(r[..1][..0]) + Delta(r[0]);
    assert r[..1][..0] == [];
    ScanInside(s, b, r, 1);
  }

  /**
   * A declaration with one template argument list and no other angle
   * bracket: the scan records that list and nothing else, and deleting it
   * leaves the text around it.
   */
  lemma OneTemplate(x: string, r: string, y: string)
    requires Balanced(r)
    requires forall k :: 0 <= k < |x| ==> x[k] != '<' && x[k] != '>'
    requires forall k :: 0 <= k < |y| ==> y[k] != '<' && y[k] != '>'
    ensures AngleRegions(x + r + y) == [r]
    ensures StripTemplates(x + r + y) == x + y
    ensures '<' !in StripTemplates(x + r + y) && '>' !in StripTemplates(x + r + y)
  {
    var s := x + r + y;
    assert s[|x|..|x| + |r|] == r;
    SkipPlain(s, 0, |x|, 0, None);
    ScanBalanced(s, |x|, r);
    SkipPlain(s, |x| + |r|, |s|, 0, Some(|x|));
    assert AngleRegions(s) == [r];
    assert [r][..0] == [];
    assert RemoveEach(s, []) == s;
    DeleteOne(x, r, y);
    assert StripTemplates(s) == ReplaceLiteral(r, "", s);
    forall k | 0 <= k < |x + y|
      ensures (x + y)[k] != '<' && (x + y)[k] != '>'
    {
      if k >= |x| {
        assert (x + y)[k] == y[k - |x|];
      }
    }
  }

  /** Deleting the only occurrence of a list that opens with '<'. */
  lemma DeleteOne(x: string, r: Lexeme, y: string)
    requires r[0] == '<'
    requires forall k :: 0 <= k < |x| ==> x[k] != '<'
    requires forall k :: 0 <= k < |y| ==> y[k] != '<'
    ensures ReplaceLiteral(r, "", x + r + y) == x + y
  {
    var s := x + r + y;
    NoLead(s, r, |x|);
    ReplaceSkip(r, "", s, |x|);
    var t := s[|x|..];
    assert s[..|x|] == x && t == r + y;
    assert t[..|r|] == r;
    ReplaceHit(r, "", t);
    assert t[|r|..] == y;
    NoLead(y, r, |y|);
    ReplaceSkip(r, "", y, |y|);
    assert y[..|y|] == y && y[|y|..] == [];
  }

  /** Past the last '<', a scan at depth 0 or below records nothing more. */
  lemma {:induction false} NoOpening(s: string, i: nat, level: int, bracket: Option<nat>)
    requires i <= |s| && level <= 0
    requires forall k :: i <= k < |s| ==> s[k] != '<'
    ensures RegionsFrom(s, i, level, bracket) == []
    decreases |s| - i
  {
    if i < |s| {
      if s[i] == '>' {
        NoOpening(s, i + 1, level - 1, bracket);
      } else {
        NoOpening(s, i + 1, level, bracket);
      }
    }
  }

  /**
   * A declaration without '<' has no template argument list and comes back
   * unchanged, whatever stray '>' it holds.
   */
  lemma NoTemplates(s: string)
    requires forall k :: 0 <= k < |s| ==> s[k] != '<'
    ensures AngleRegions(s) == []
    ensures StripTemplates(s) == s
  {
    NoOpening(s, 0, 0, None);
  }

  /** Deleting regions never lengthens the text. */
  lemma {:induction false} RemoveEachNotLonger(s: string, regions: seq<Lexeme>)
    ensures |RemoveEach(s, regions)| <= |s|
    decreases |regions|
  {
    if regions != [] {
      var n := |regions| - 1;
      RemoveEachNotLonger(s, regions[..n]);
      ReplaceNotLonger(regions[n], "", RemoveEach(s, regions[..n]));
    }
  }

  /** `RemoveAngleBrackets` never lengthens a declaration. */
  lemma StripTemplatesNotLonger(s: string)
    ensures |StripTemplates(s)| <= |s|
  {
    RemoveEachNotLonger(s, AngleRegions(s));
  }
}
