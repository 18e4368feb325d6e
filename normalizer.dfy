/**
 * `State::SimplifyDeclaration` (clear2mangled/c2m.cpp:85-113): brings an
 * undecorated C++ declaration to a canonical form by a fixed chain of
 * regular-expression replace-alls, then drops one leading space.
 */
module Normalizer {
  import opened Patterns

  /** One `std::regex_replace` step: every match of pattern becomes replacement. */
  datatype Rule = Rule(pattern: Pattern, replacement: string)

  /** c2m.cpp:89-98: keywords, calling conventions and blanks. */
  const Keywords: seq<Rule> := [
    Rule(Literals(["public: ", "private: ", "protected: "]), ""),  // line 89
    Rule(Literals(["static ", "virtual "]), ""),                   // line 90
    Rule(CallingConvention, ""),                                   // line 91
    Rule(Literals(["  "]), " "),                                   // line 92
    Rule(Literals(["class ", "struct "]), ""),                     // line 94
    Rule(Literals([" >"]), ">"),                                   // line 95
    Rule(Literals([" &"]), "&"),                                   // line 96
    Rule(Literals([" *"]), "*"),                                   // line 97
    Rule(Literals([")const "]), ") const")                         // line 98
  ]

  /** c2m.cpp:100-103: the quoted special names become identifiers. */
  const SpecialNames: seq<Rule> := [
    Rule(Literals(["`vftable'"]), "vftable"),
    Rule(Literals(["`vbtable'"]), "vbtable"),
    Rule(Literals(["`default constructor closure'"]), "default_constructor_closure"),
    Rule(Literals(["`vbase destructor'"]), "vbase_destructor")
  ]

  /** c2m.cpp:104: every remaining backquote and apostrophe is deleted. */
  const Unquoting: Rule := Rule(Literals(["`", "'"]), "")

  /** c2m.cpp:105-107: the pointer qualifier and brace blocks are deleted. */
  const Cleanup: seq<Rule> := [
    Rule(Literals([" __ptr64"]), ""),
    Rule(BraceBlock, "")
  ]

  /** The rewrite steps of c2m.cpp:89-107, in order. */
  const Rules: seq<Rule> := Keywords + SpecialNames + [Unquoting] + Cleanup

  /** The rules applied one after the other, each to the whole text. */
  function ApplyRules(rules: seq<Rule>, s: string): string
    decreases |rules|
  {
    if rules == [] then s
    else ApplyRules(rules[1..], RewriteAll(rules[0].pattern, rules[0].replacement, s))
  }

  /**
   * c2m.cpp:109-110. On an empty string `simplified[0]` reads the terminating
   * null character, which is not a space, so the string stays empty.
   */
  function DropLeadingSpace(s: string): (r: string)
    ensures |s| > 0 && s[0] == ' ' ==> s == [' '] + r
    ensures !(|s| > 0 && s[0] == ' ') ==> r == s
  {
    if |s| > 0 && s[0] == ' ' then s[1..] else s
  }

  /** `State::SimplifyDeclaration` (c2m.cpp:85-113). */
  function SimplifyDeclaration(declaration: string): string {
    DropLeadingSpace(ApplyRules(Rules, declaration))
  }

  /** Applying a concatenation of rule lists is applying one list after the other. */
  lemma {:induction false} ApplySplit(a: seq<Rule>, b: seq<Rule>, s: string)
    ensures ApplyRules(a + b, s) == ApplyRules(b, ApplyRules(a, s))
    decreases |a|
  {
    if a == [] {
      assert a + b == b;
    } else {
      assert (a + b)[1..] == a[1..] + b;
      ApplySplit(a[1..], b, RewriteAll(a[0].pattern, a[0].replacement, s));
    }
  }

  /** A rule whose replacement is no longer than anything its pattern matches. */
  predicate Shrinking(r: Rule) {
    |r.replacement| <= MinLen(r.pattern)
  }

  /** Shrinking rules never lengthen the text. */
  lemma {:induction false} ApplyNotLonger(rules: seq<Rule>, s: string)
    requires AllShrinking(rules)
    ensures |ApplyRules(rules, s)| <= |s|
    decreases |rules|
  {
    if rules != [] {
      var t := RewriteAll(rules[0].pattern, rules[0].replacement, s);
      RewriteNotLonger(rules[0].pattern, rules[0].replacement, s, 0);
      ApplyNotLonger(rules[1..], t);
    }
  }

  /** No rule inserts c, so c appears in the result only where it was in the text. */
  lemma {:induction false} ApplyKeepsOut(rules: seq<Rule>, s: string, c: char)
    requires forall k :: 0 <= k < |rules| ==> c !in rules[k].replacement
    requires c !in s
    ensures c !in ApplyRules(rules, s)
    decreases |rules|
  {
    if rules != [] {
      var t := RewriteAll(rules[0].pattern, rules[0].replacement, s);
      assert s[0..] == s;
      if c in t {
        RewriteChars(rules[0].pattern, rules[0].replacement, s, 0, c);
      }
      ApplyKeepsOut(rules[1..], t, c);
    }
  }

  /** No rule matches the empty text. */
  lemma {:induction false} ApplyEmpty(rules: seq<Rule>)
    ensures ApplyRules(rules, "") == ""
    decreases |rules|
  {
    if rules != [] {
      ApplyEmpty(rules[1..]);
    }
  }

  /** Every rule of the list is shrinking. */
  predicate AllShrinking(rules: seq<Rule>) {
    forall k :: 0 <= k < |rules| ==> Shrinking(rules[k])
  }

  lemma ShrinkingConcat(a: seq<Rule>, b: seq<Rule>)
    requires AllShrinking(a) && AllShrinking(b)
    ensures AllShrinking(a + b)
  {
    forall k | 0 <= k < |a + b|
      ensures Shrinking((a + b)[k])
    {
      if k >= |a| {
        assert (a + b)[k] == b[k - |a|];
      }
    }
  }

  /** Every step of `SimplifyDeclaration` is shrinking. */
  lemma RulesShrink()
    ensures AllShrinking(Rules)
  {
    assert AllShrinking(Keywords);
    assert AllShrinking(SpecialNames);
    assert AllShrinking([Unquoting]);
    assert AllShrinking(Cleanup);
    ShrinkingConcat(Keywords, SpecialNames);
    ShrinkingConcat(Keywords + SpecialNames, [Unquoting]);
    ShrinkingConcat(Keywords + SpecialNames + [Unquoting], Cleanup);
  }

  /** `SimplifyDeclaration` never lengthens a declaration. */
  lemma SimplifyNotLonger(declaration: string)
    ensures |SimplifyDeclaration(declaration)| <= |declaration|
  {
    RulesShrink();
    ApplyNotLonger(Rules, declaration);
  }

  /** An empty declaration comes back empty. */
  lemma SimplifyEmpty()
    ensures SimplifyDeclaration("") == ""
  {
    ApplyEmpty(Rules);
  }

  /**
   * The result holds no backquote and no apostrophe: line 104 deletes them,
   * and the steps after it only delete.
   */
  lemma SimplifyUnquoted(declaration: string)
    ensures '`' !in SimplifyDeclaration(declaration)
    ensures '\'' !in SimplifyDeclaration(declaration)
  {
    var before := ApplyRules(Keywords + SpecialNames, declaration);
    var after := RewriteAll(Unquoting.pattern, Unquoting.replacement, before);
    ApplySplit(Keywords + SpecialNames, [Unquoting] + Cleanup, declaration);
    assert Rules == (Keywords + SpecialNames) + ([Unquoting] + Cleanup);
    assert ([Unquoting] + Cleanup)[1..] == Cleanup;
    Unquote(before);
    assert forall k :: 0 <= k < |Cleanup| ==> Cleanup[k].replacement == "";
    ApplyKeepsOut(Cleanup, after, '`');
    ApplyKeepsOut(Cleanup, after, '\'');
  }

  /** Line 104 removes every backquote and apostrophe. */
  lemma Unquote(s: string)
    ensures '`' !in RewriteAll(Literals(["`", "'"]), "", s)
    ensures '\'' !in RewriteAll(Literals(["`", "'"]), "", s)
  {
    var p := Literals(["`", "'"]);
    forall k | 0 <= k < |s| && s[k] == '`'
      ensures MatchAt(p, s, k).Some?
    {
      assert HasAt(s, k, "`");
    }
    forall k | 0 <= k < |s| && s[k] == '\''
      ensures MatchAt(p, s, k).Some?
    {
      assert HasAt(s, k, "'");
    }
    RewriteOmits(p, "", s, 0, '`');
    RewriteOmits(p, "", s, 0, '\'');
  }
}
