/**
 * `State::ParseDeclarationDetails` (clear2mangled/c2m.cpp:256-318): splits a
 * simplified declaration into its parenthesis groups, classifies it as a C
 * function, a variable (possibly a function pointer) or a C++ function, and
 * extracts the name the export is searched by.
 */
module Parser {
  import opened Wrappers
  import opened Patterns
  import opened Brackets
  import opened Normalizer
  import opened Machine
  import ParenGroups

  /** `DeclarationDetails` (clear2mangled/c2m.hpp:20-29). */
  datatype DeclarationDetails = DeclarationDetails(
    cFunction: bool,
    variable: bool,
    constructorFunction: bool,
    destructorFunction: bool,
    name: string,
    parenthesesPairs: seq<string>)

  /** A value-initialised `DeclarationDetails{}`, as both callers pass it. */
  const Empty := DeclarationDetails(false, false, false, false, "", [])

  /** The parenthesis groups, left to right (line 259). */
  function Groups(declaration: string): seq<string> {
    AllMatches(ParenGroup, declaration)
  }

  /** Lines 262-265: a declaration without parenthesis group and without ' ', '<', '>' or ':'. */
  predicate IsCFunction(declaration: string) {
    && Groups(declaration) == []
    && !HaveSubString(declaration, " ")
    && !HaveSubString(declaration, "<")
    && !HaveSubString(declaration, ">")
    && !HaveSubString(declaration, ":")
  }

  /**
   * `declaration.find(group)` (lines 292 and 301). The first group always
   * occurs (lemma `GroupFound`), so the fallback is never taken.
   */
  function GroupStart(declaration: string, group: string): (at: nat)
    ensures at <= |declaration|
  {
    match Find(declaration, group, 0)
    case Some(k) => k
    case None => |declaration|
  }

  /** Line 292: the first group follows a space, as in `int (* f)(int)`. */
  predicate IsFunctionPointer(declaration: string) {
    var groups := Groups(declaration);
    groups != [] &&
    var at := GroupStart(declaration, groups[0]);
    at > 0 && declaration[at - 1] == ' '
  }

  /** `group.find("* ")`: npos when there is none. */
  function FindStar(group: string): (pos: nat)
    ensures pos == NPos || pos + 2 <= |group|
  {
    match Find(group, "* ", 0)
    case Some(k) => k
    case None => NPos
  }

  /**
   * Lines 296-297: `group.substr(pos + 2, group.size() - pos - 1)` in
   * `size_t` arithmetic.
   */
  function PointerName(group: string): string
    requires |group| > 0
  {
    var pos := FindStar(group);
    assert Wrap(pos + 2) <= |group| by {
      WrapNear(pos + 2);
    }
    Substr(group, Wrap(pos + 2), Wrap(|group| - pos - 1))
  }

  /** Lines 279-305: the name before the `::` removal of line 307. */
  function RawName(declaration: string): string {
    var groups := Groups(declaration);
    if groups == [] then
      if IsCFunction(declaration) then declaration
      else LastMatch(QualifiedName, StripTemplates(declaration))
    else if IsFunctionPointer(declaration) then
      MatchesLong(ParenGroup, declaration, 0);
      PointerName(groups[0])
    else
      LastMatch(QualifiedName, StripTemplates(declaration[..GroupStart(declaration, groups[0])]))
  }

  /** Lines 307-309: every `::` deleted, then one leading space dropped. */
  function CleanName(raw: string): string {
    DropLeadingSpace(RewriteAll(Literals(["::"]), "", raw))
  }

  /** What `ParseDeclarationDetails` leaves in a value-initialised `details`. */
  function Parse(declaration: string): (d: DeclarationDetails)
    ensures !(d.cFunction && d.variable)
    ensures d.parenthesesPairs == [] ==> d.cFunction || d.variable
    ensures d.constructorFunction <==> d.name == "default_constructor_closure"
  {
    var groups := Groups(declaration);
    var cFunction := IsCFunction(declaration);
    var name := CleanName(RawName(declaration));
    DeclarationDetails(
      cFunction,
      (groups == [] && !cFunction) || IsFunctionPointer(declaration),
      name == "default_constructor_closure",
      HaveSubString(name, "~") || name == "vbase_destructor",
      name,
      groups)
  }

  /** `State::ParseDeclarationDetails` (c2m.cpp:256-318), called with `DeclarationDetails{}`. */
  method ParseDeclarationDetails(declaration: string) returns (details: DeclarationDetails)
    ensures details == Parse(declaration)
  {
    details := Empty;
    var found, pairs := SearchAllSubStrings(declaration, ParenGroup, details.parenthesesPairs);
    details := details.(parenthesesPairs := pairs);
    if !found {
      if !HaveSubString(declaration, " ") && !HaveSubString(declaration, "<")
        && !HaveSubString(declaration, ">") && !HaveSubString(declaration, ":")
      {
        details := details.(cFunction := true);
      } else {
        details := details.(variable := true);
      }
    }
    assert details.parenthesesPairs == Groups(declaration);
    assert details.cFunction == IsCFunction(declaration);
    if details.parenthesesPairs == [] {
      if details.cFunction {
        details := details.(name := declaration);
      } else {
        var stripped := RemoveAngleBrackets(declaration);
        var last := FindLastMatch(stripped, QualifiedName);
        details := details.(name := last);
      }
    } else {
      GroupFound(declaration);
      var at := Find(declaration, details.parenthesesPairs[0], 0).value;
      if at > 0 && declaration[at - 1] == ' ' {
        details := details.(variable := true);
        MatchesLong(ParenGroup, declaration, 0);
        details := details.(name := PointerName(details.parenthesesPairs[0]));
      } else {
        var stripped := RemoveAngleBrackets(declaration[..at]);
        var last := FindLastMatch(stripped, QualifiedName);
        details := details.(name := last);
      }
    }
    assert details.name == RawName(declaration);
    assert details.variable == Parse(declaration).variable;
    details := details.(name := RewriteAll(Literals(["::"]), "", details.name));
    details := details.(name := DropLeadingSpace(details.name));
    if details.name == "default_constructor_closure" {
      details := details.(constructorFunction := true);
    }
    if HaveSubString(details.name, "~") || details.name == "vbase_destructor" {
      details := details.(destructorFunction := true);
    }
  }

  /** The first group is found where `find` looks for it. */
  lemma GroupFound(declaration: string)
    requires Groups(declaration) != []
    ensures Find(declaration, Groups(declaration)[0], 0).Some?
  {
    var g := Groups(declaration)[0];
    MatchesOccur(ParenGroup, declaration, 0);
    assert g in Groups(declaration);
    HaveSubStringMeansOccurs(declaration, g);
  }

  /**
   * Lines 296-297 net of the `size_t` arithmetic: the text from two past the
   * first "* " to the end, or all but the '(' when there is none (pos + 2
   * wraps to 1 and the count to the size). A `std::string` is shorter than npos.
   */
  lemma PointerNameText(group: string)
    requires 0 < |group| < Modulus
    ensures FindStar(group) < NPos ==> PointerName(group) == group[FindStar(group) + 2..]
    ensures FindStar(group) == NPos ==> PointerName(group) == group[1..]
  {
    var pos := FindStar(group);
    if pos == NPos {
      WrapNear(NPos + 2);
      WrapNear(|group| - NPos - 1);
      assert Substr(group, 1, |group|) == group[1..];
    } else {
      WrapNear(pos + 2);
      WrapNear(|group| - pos - 1);
      assert Substr(group, pos + 2, |group| - pos - 1) == group[pos + 2..];
    }
  }

  /** A name without ':' and without a leading space is kept as it is by lines 307-309. */
  lemma CleanNameKeeps(raw: string)
    requires forall k :: 0 <= k < |raw| ==> raw[k] != ':'
    requires |raw| > 0 ==> raw[0] != ' '
    ensures CleanName(raw) == raw
  {
    var p := Literals(["::"]);
    forall k | 0 <= k <= |raw|
      ensures MatchAt(p, raw, k).None?
    {
      if k + 2 <= |raw| {
        assert raw[k..k + 2][0] == raw[k];
      }
    }
    RewriteNoMatch(p, "", raw);
  }

  /**
   * Without a parenthesis group, the declaration is a C function exactly when
   * it holds none of ' ', '<', '>' and ':', and then the name is the whole
   * declaration; otherwise it is a variable.
   */
  lemma NoGroups(declaration: string)
    requires Groups(declaration) == []
    ensures Parse(declaration).cFunction <==>
      (forall k :: 0 <= k < |declaration| ==> declaration[k] !in " <>:")
    ensures Parse(declaration).cFunction ==> Parse(declaration).name == declaration
    ensures !Parse(declaration).cFunction ==> Parse(declaration).variable
  {
    HaveCharIff(declaration, ' ');
    HaveCharIff(declaration, '<');
    HaveCharIff(declaration, '>');
    HaveCharIff(declaration, ':');
    if IsCFunction(declaration) {
      CleanNameKeeps(declaration);
    }
  }

  /**
   * Lines 292-297: when the first group follows a space the declaration is a
   * variable, a function pointer, named by the first group's text from two
   * past its first "* " (from its second character when there is none).
   */
  lemma FunctionPointer(declaration: string)
    requires IsFunctionPointer(declaration)
    ensures Parse(declaration).variable && !Parse(declaration).cFunction
    ensures var g := Groups(declaration)[0];
      |g| > 0 && RawName(declaration) == PointerName(g)
  {
    MatchesLong(ParenGroup, declaration, 0);
    assert Groups(declaration)[0] in Groups(declaration);
  }

  /**
   * Lines 300-304: when the first group does not follow a space, the
   * declaration is a function, neither C function nor variable, named by the
   * last qualified name before the group once templates are removed.
   */
  lemma OrdinaryFunction(declaration: string)
    requires Groups(declaration) != [] && !IsFunctionPointer(declaration)
    ensures !Parse(declaration).variable && !Parse(declaration).cFunction
    ensures RawName(declaration) ==
      LastMatch(QualifiedName, StripTemplates(declaration[..GroupStart(declaration, Groups(declaration)[0])]))
  {
  }

  /** A name as line 303's pattern reads it: a word run, or '~' followed by one. */
  predicate Identifier(v: string) {
    && |v| > 0
    && (IsWordChar(v[0]) || (v[0] == '~' && |v| > 1))
    && forall k :: 1 <= k < |v| ==> IsWordChar(v[k])
  }

  /** In x + "::" + v, no qualified name that starts inside x runs past the ':' at |x|. */
  lemma BeforeScope(x: string, v: string)
    ensures var t := x + "::" + v;
      forall k :: 0 <= k < |x| && MatchAt(QualifiedName, t, k).Some? ==> MatchAt(QualifiedName, t, k).value <= |x|
  {
    var t := x + "::" + v;
    assert t[|x|] == ':' && !InClass(NameChar, t[|x|]);
  }

  /** The qualified name that starts at the last "::" runs to the end of the text. */
  lemma AtScope(x: string, v: string)
    requires Identifier(v)
    ensures var t := x + "::" + v; MatchAt(QualifiedName, t, |x|) == Some(|t|)
  {
    var t := x + "::" + v;
    var j := |x| + 2;
    assert HasAt(t, |x|, "::") by {
      assert t[|x|..j] == "::";
    }
    var start := if v[0] == '~' then j + 1 else j;
    forall q | start <= q < |t|
      ensures InClass(NameChar, t[q])
    {
      assert t[q] == v[q - j];
    }
    assert t[j] == v[0];
    assert RunEnd(NameChar, t, start) == |t|;
  }

  /** The last qualified name of x + "::" + v is "::" + v. */
  lemma LastScope(x: string, v: string)
    requires Identifier(v)
    ensures LastMatch(QualifiedName, x + "::" + v) == "::" + v
  {
    var t := x + "::" + v;
    BeforeScope(x, v);
    MatchesReach(QualifiedName, t, 0, |x|);
    AtScope(x, v);
    MatchToEnd(QualifiedName, t, |x|);
    assert t[|x|..] == "::" + v;
  }

  /** Lines 307-309 reduce "::" + v to v. */
  lemma CleanScope(v: string)
    requires Identifier(v)
    ensures CleanName("::" + v) == v
  {
    var p := Literals(["::"]);
    var t := "::" + v;
    assert MatchAt(p, t, 0) == Some(2) by {
      assert t[0..2] == "::";
    }
    forall k | 2 <= k < |t|
      ensures MatchAt(p, t, k).None?
    {
      if k + 2 <= |t| {
        assert t[k..k + 2][0] == t[k] == v[k - 2];
      }
    }
    RewriteSkip(p, "", t, 2, |t|);
    assert t[2..|t|] == v;
  }

  /** An identifier after "::" brings in no '<' that x does not have. */
  lemma NoAngle(x: string, v: string)
    requires '<' !in x
    requires Identifier(v)
    ensures StripTemplates(x + "::" + v) == x + "::" + v
  {
    var t := x + "::" + v;
    forall k | 0 <= k < |t|
      ensures t[k] != '<'
    {
      if k < |x| {
        assert t[k] == x[k];
      } else if k >= |x| + 2 {
        assert t[k] == v[k - |x| - 2];
      }
    }
    NoTemplates(t);
  }

  /**
   * Lines 300-315 on a declaration whose text before its first group ends in
   * "::" + v, v an identifier, with no template in front: a function, neither
   * C function nor variable, named v.
   */
  lemma OrdinaryName(d: string, x: string, v: string)
    requires Groups(d) != [] && !IsFunctionPointer(d)
    requires d[..GroupStart(d, Groups(d)[0])] == x + "::" + v
    requires '<' !in x
    requires Identifier(v)
    ensures !Parse(d).variable && !Parse(d).cFunction
    ensures Parse(d).name == v
  {
    OrdinaryFunction(d);
    NoAngle(x, v);
    LastScope(x, v);
    CleanScope(v);
  }

  /**
   * Line 315 on such a declaration: a destructor exactly when v starts with
   * '~' or is the vbase destructor.
   */
  lemma OrdinaryDestructor(d: string, x: string, v: string)
    requires Groups(d) != [] && !IsFunctionPointer(d)
    requires d[..GroupStart(d, Groups(d)[0])] == x + "::" + v
    requires '<' !in x
    requires Identifier(v)
    ensures Parse(d).destructorFunction <==> v[0] == '~' || v == "vbase_destructor"
  {
    OrdinaryName(d, x, v);
    DestructorIff(d);
    if v[0] != '~' {
      forall k | 0 <= k < |v|
        ensures v[k] != '~'
      {
        assert IsWordChar(v[k]);
      }
    }
  }

  /** `find` locates a group where it occurs with no '(' before it. */
  lemma FirstOpen(d: string, g: string, at: nat)
    requires |g| > 0 && g[0] == '(' && HasAt(d, at, g)
    requires forall k :: 0 <= k < at ==> d[k] != '('
    ensures GroupStart(d, g) == at
  {
    FindFirst(d, g, 0);
    forall k | 0 <= k < at
      ensures !HasAt(d, k, g)
    {
      assert k + |g| <= at + |g| <= |d|;
      assert d[k..k + |g|][0] == d[k];
    }
  }

  /** `N::~N(void)` is an ordinary function whose text before `(void)` is `N::~N`. */
  lemma DestructorShape()
    ensures Groups("N::~N(void)") != [] && !IsFunctionPointer("N::~N(void)")
    ensures var d := "N::~N(void)"; d[..GroupStart(d, Groups(d)[0])] == "N" + "::" + "~N"
  {
    var d := "N::~N(void)";
    assert MatchAt(ParenGroup, d, 5) == Some(11) by {
      assert GroupBody(d, 6, false) == Some(11);
    }
    forall k | 0 <= k < 5
      ensures MatchAt(ParenGroup, d, k).None?
    {
      assert d[k] != '(';
    }
    MatchesSkip(ParenGroup, d, 0, 5);
    assert AllMatchesFrom(ParenGroup, d, 11) == [];
    assert d[5..11] == "(void)";
    assert Groups(d) == ["(void)"];
    assert HasAt(d, 5, "(void)");
    FirstOpen(d, "(void)", 5);
    assert d[..5] == "N" + "::" + "~N";
  }

  /** A destructor: `N::~N(void)` is named `~N` and is a destructor. */
  lemma DestructorExample()
    ensures Parse("N::~N(void)").name == "~N"
    ensures Parse("N::~N(void)").destructorFunction
  {
    DestructorShape();
    assert Identifier("~N") by {
      assert IsWordChar('N');
    }
    OrdinaryName("N::~N(void)", "N", "~N");
    OrdinaryDestructor("N::~N(void)", "N", "~N");
  }

  /** The text of `void N::Foo(int)` around its group. */
  lemma FooText()
    ensures HasAt(ParenGroups.Example, 11, "(int)")
    ensures forall k :: 0 <= k < 11 ==> ParenGroups.Example[k] != '('
    ensures ParenGroups.Example[10] != ' '
    ensures ParenGroups.Example[..11] == "void N" + "::" + "Foo"
  {
    assert ParenGroups.Example[11..16] == "(int)";
  }

  /** `void N::Foo(int)` is an ordinary function whose text before `(int)` ends in `::Foo`. */
  lemma FooShape()
    ensures Groups(ParenGroups.Example) != [] && !IsFunctionPointer(ParenGroups.Example)
    ensures var d := ParenGroups.Example; d[..GroupStart(d, Groups(d)[0])] == "void N" + "::" + "Foo"
  {
    var d := ParenGroups.Example;
    ParenGroups.ExampleGroups();
    FooText();
    FirstOpen(d, "(int)", 11);
    assert Groups(d)[0] == "(int)";
  }

  /** A member function: `void N::Foo(int)` is a function named `Foo`. */
  lemma FooExample()
    ensures !Parse(ParenGroups.Example).variable && !Parse(ParenGroups.Example).cFunction
    ensures Parse(ParenGroups.Example).name == "Foo"
  {
    FooShape();
    assert Identifier("Foo") by {
      assert IsWordChar('F') && IsWordChar('o');
    }
    OrdinaryName(ParenGroups.Example, "void N", "Foo");
  }

  /** Line 315: a destructor is a name with a '~', or the vbase destructor. */
  lemma DestructorIff(declaration: string)
    ensures Parse(declaration).destructorFunction <==>
      '~' in Parse(declaration).name || Parse(declaration).name == "vbase_destructor"
  {
    HaveCharIff(Parse(declaration).name, '~');
  }

  /** No "::" anywhere in r. */
  predicate NoScope(r: string) {
    forall k :: 0 <= k && k + 1 < |r| ==> !(r[k] == ':' && r[k + 1] == ':')
  }

  /** After line 307 the name holds no "::", whatever the branch. */
  lemma NameHasNoScope(declaration: string)
    ensures NoScope(Parse(declaration).name)
  {
    var t := RewriteAll(Literals(["::"]), "", RawName(declaration));
    NoDoubleColon(RawName(declaration), 0);
    if |t| > 0 && t[0] == ' ' {
      forall k | 0 <= k && k + 1 < |t[1..]|
        ensures !(t[1..][k] == ':' && t[1..][k + 1] == ':')
      {
        assert t[1..][k] == t[k + 1] && t[1..][k + 1] == t[k + 2];
      }
    }
  }

  /** Deleting every "::" left to right leaves no "::" behind. */
  lemma {:induction false} NoDoubleColon(s: string, from: nat)
    requires from <= |s|
    ensures NoScope(RewriteFrom(Literals(["::"]), "", s, from))
    decreases |s| - from
  {
    var p := Literals(["::"]);
    if from < |s| {
      match MatchAt(p, s, from)
      case Some(e) =>
        NoDoubleColon(s, e);
      case None =>
        NoDoubleColon(s, from + 1);
        var rest := RewriteFrom(p, "", s, from + 1);
        if s[from] == ':' && from + 1 < |s| {
          LoneColon(s, from);
          assert rest == [s[from + 1]] + RewriteFrom(p, "", s, from + 2);
        }
        ConsNoScope(s[from], rest);
        assert RewriteFrom(p, "", s, from) == [s[from]] + rest;
    }
  }

  /** A ':' that does not start "::" is followed by a character that starts no match. */
  lemma LoneColon(s: string, from: nat)
    requires from + 1 < |s| && s[from] == ':'
    requires MatchAt(Literals(["::"]), s, from).None?
    ensures s[from + 1] != ':' && MatchAt(Literals(["::"]), s, from + 1).None?
  {
    assert s[from + 1] != ':' by {
      assert s[from..from + 2] == [s[from], s[from + 1]];
    }
    if from + 3 <= |s| {
      assert s[from + 1..from + 3][0] == s[from + 1];
    }
  }

  /** Putting a character in front keeps "::" out unless it makes one. */
  lemma ConsNoScope(c: char, rest: string)
    requires NoScope(rest)
    requires c == ':' ==> |rest| == 0 || rest[0] != ':'
    ensures NoScope([c] + rest)
  {
    var r := [c] + rest;
    forall k | 0 <= k && k + 1 < |r|
      ensures !(r[k] == ':' && r[k + 1] == ':')
    {
      if k > 0 {
        assert r[k] == rest[k - 1] && r[k + 1] == rest[k];
      }
    }
  }
}
