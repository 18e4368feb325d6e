/**
 * The regular expressions of clear2mangled/c2m.cpp and clear2mangled/clear2mangled.cpp.
 *
 * There is no general regex engine here. Each pattern the program uses is one
 * constructor of `Pattern`, and `MatchAt(p, s, i)` is the end of the match that
 * ECMAScript `std::regex` finds when it tries position i of s: alternatives in
 * order, greedy quantifiers, backtracking worked out for that one pattern. None
 * of the patterns uses `^`, `$`, `\b` or a look-behind, so a match at i depends
 * only on s[i..], and `std::regex_search` over [begin, end) is the leftmost i
 * at or after begin where `MatchAt` succeeds.
 *
 * On top of the scanners: leftmost search, all successive non-overlapping
 * matches (`SearchAllSubStrings`), the last of them (`FindLastMatch`), and
 * replace-all (`std::regex_replace`, and `ReplaceSubstring` for a literal).
 */
module Patterns {
  import opened Wrappers

  /** A non-empty string: every literal alternative the program's patterns spell out. */
  type Lexeme = s: string | |s| > 0 witness "_"

  /** `\w`: ASCII letters, digits and the underscore. */
  predicate IsWordChar(c: char) {
    ('a' <= c <= 'z') || ('A' <= c <= 'Z') || ('0' <= c <= '9') || c == '_'
  }

  /** The character classes the patterns use. */
  datatype CharClass =
    | Word          // \w
    | NameChar      // [\w<> +=+-/\*]: '+-/' is a range, so ',', '-' and '.' are in it too
    | TildeOrWord   // [~\w]
    | NotLineEnd    // .  (anything but a line terminator)

  predicate InClass(k: CharClass, c: char) {
    match k
    case Word => IsWordChar(c)
    case NameChar =>
      IsWordChar(c) || c == '<' || c == '>' || c == ' ' || c == '=' || c == '*' || ('+' <= c <= '/')
    case TildeOrWord => c == '~' || IsWordChar(c)
    case NotLineEnd => c != '\n' && c != '\r'
  }

  /** The end of the longest run of class-k characters that starts at i. */
  function RunEnd(k: CharClass, s: string, i: nat): (j: nat)
    requires i <= |s|
    ensures i <= j <= |s|
    ensures forall m :: i <= m < j ==> InClass(k, s[m])
    ensures j < |s| ==> !InClass(k, s[j])
    decreases |s| - i
  {
    if i < |s| && InClass(k, s[i]) then RunEnd(k, s, i + 1) else i
  }

  /** w occurs in s at position i. */
  predicate HasAt(s: string, i: nat, w: string) {
    i + |w| <= |s| && s[i..i + |w|] == w
  }

  /** An occurrence in a suffix is an occurrence in the whole text, shifted. */
  lemma HasAtSuffix(s: string, i: nat, d: nat, w: string)
    requires i <= |s|
    ensures HasAt(s[i..], d, w) <==> HasAt(s, i + d, w)
  {
    if i + d + |w| <= |s| {
      assert s[i..][d..d + |w|] == s[i + d..i + d + |w|];
    }
  }

  /** `std::string::find(w, from)`: the first occurrence of w at or after from. */
  function Find(s: string, w: string, from: nat): (r: Option<nat>)
    requires from <= |s|
    ensures r.Some? ==> from <= r.value && r.value + |w| <= |s|
    decreases |s| - from
  {
    if HasAt(s, from, w) then Some(from)
    else if from == |s| then None
    else Find(s, w, from + 1)
  }

  /** `Find` returns the first occurrence at or after from, and None only when there is none. */
  lemma {:induction false} FindFirst(s: string, w: string, from: nat)
    requires from <= |s|
    ensures Find(s, w, from).Some? ==> HasAt(s, Find(s, w, from).value, w)
    ensures Find(s, w, from).Some? ==> forall k :: from <= k < Find(s, w, from).value ==> !HasAt(s, k, w)
    ensures Find(s, w, from).None? ==> forall k :: from <= k <= |s| ==> !HasAt(s, k, w)
    decreases |s| - from
  {
    if !HasAt(s, from, w) && from < |s| {
      FindFirst(s, w, from + 1);
    }
  }

  /** `HaveSubString` (c2m.cpp:7-10). */
  predicate HaveSubString(parent: string, sub: string) {
    Find(parent, sub, 0).Some?
  }

  lemma HaveSubStringMeansOccurs(parent: string, sub: string)
    ensures HaveSubString(parent, sub) <==> exists k :: 0 <= k <= |parent| && HasAt(parent, k, sub)
  {
    FindFirst(parent, sub, 0);
  }

  /** A one-character string occurs exactly when the character does. */
  lemma {:induction false} HaveCharIff(s: string, c: char)
    ensures HaveSubString(s, [c]) <==> c in s
  {
    FindFirst(s, [c], 0);
    if c in s {
      var k :| 0 <= k < |s| && s[k] == c;
      assert HasAt(s, k, [c]);
    }
    if HaveSubString(s, [c]) {
      var k := Find(s, [c], 0).value;
      assert s[k..k + 1] == [c];
      assert s[k] == c;
    }
  }

  /** The patterns, each written as its own scanner. */
  datatype Pattern =
    | Literals(alternatives: seq<Lexeme>)  // (a|b|c): the first alternative present at i
    | CallingConvention                    // (__\w+call|__cdecl)
    | BraceBlock                           // \{.+\}
    | ParenGroup                           // \(([^()]*(\([^()]*\)[^()]*)*)\)
    | QualifiedName                        // (::| )~?([\w<> +=+-/\*]+)
    | TemplateKey                          // ::[~\w]+<\w+

  /** The length of the shortest text each pattern can match. */
  function MinLen(p: Pattern): (n: nat)
    ensures n >= 1
  {
    match p
    case Literals(alts) => ShortestLength(alts)
    case CallingConvention => 7
    case BraceBlock => 3
    case ParenGroup => 2
    case QualifiedName => 2
    case TemplateKey => 5
  }

  function ShortestLength(alts: seq<Lexeme>): (n: nat)
    ensures n >= 1
    ensures forall a :: a in alts ==> n <= |a|
  {
    if |alts| == 0 then 1
    else if |alts| == 1 then |alts[0]|
    else
      var rest := ShortestLength(alts[1..]);
      assert forall a :: a in alts ==> a == alts[0] || a in alts[1..];
      if |alts[0]| < rest then |alts[0]| else rest
  }

  /** The first alternative present at i, tried in order. */
  function MatchLiterals(alts: seq<Lexeme>, s: string, i: nat): (r: Option<nat>)
    ensures r.Some? ==> i < r.value <= |s| && s[i..r.value] in alts
    ensures r.None? <==> forall a :: a in alts ==> !HasAt(s, i, a)
  {
    if |alts| == 0 then None
    else if HasAt(s, i, alts[0]) then Some(i + |alts[0]|)
    else
      assert forall a :: a in alts ==> a == alts[0] || a in alts[1..];
      MatchLiterals(alts[1..], s, i)
  }

  /** The largest e in [lo + 4, hi] with "call" ending at e. */
  function LastCall(s: string, lo: nat, hi: nat): (r: Option<nat>)
    requires hi <= |s|
    ensures r.Some? ==> lo + 4 <= r.value <= hi && HasAt(s, r.value - 4, "call")
    ensures r.Some? ==> forall b: nat :: r.value - 4 < b && b + 4 <= hi ==> !HasAt(s, b, "call")
    ensures r.None? ==> forall b: nat :: lo <= b && b + 4 <= hi ==> !HasAt(s, b, "call")
    decreases hi
  {
    if hi < lo + 4 then None
    else if HasAt(s, hi - 4, "call") then Some(hi)
    else
      var r := LastCall(s, lo, hi - 1);
      assert forall b: nat :: b + 4 <= hi && HasAt(s, b, "call") ==> b + 4 <= hi - 1;
      r
  }

  /**
   * The first alternative of `(__\w+call|__cdecl)` (c2m.cpp:91). `\w+` first
   * takes the whole word run after "__" and gives characters back until "call"
   * follows, so the match ends at the LAST "call" of the run that has at least
   * one word character before it.
   */
  function MatchCallStem(s: string, i: nat): (r: Option<nat>)
    requires i <= |s|
    ensures r.Some? ==> i + 7 <= r.value <= |s|
  {
    if HasAt(s, i, "__") then LastCall(s, i + 3, RunEnd(Word, s, i + 2)) else None
  }

  /** The largest m in [lo, hi) with s[m] == '}'. */
  function LastBrace(s: string, lo: nat, hi: nat): (r: Option<nat>)
    requires hi <= |s|
    ensures r.Some? ==> lo <= r.value < hi && s[r.value] == '}'
    ensures r.Some? ==> forall m :: r.value < m < hi ==> s[m] != '}'
    ensures r.None? ==> forall m :: lo <= m < hi ==> s[m] != '}'
    decreases hi
  {
    if hi <= lo then None
    else if s[hi - 1] == '}' then Some(hi - 1)
    else LastBrace(s, lo, hi - 1)
  }

  /**
   * `\{.+\}` (c2m.cpp:107). `.+` takes the rest of the line and gives it back
   * until a `}` follows, so the match runs from the `{` to the last `}` before
   * the next line terminator, with at least one character in between.
   */
  function MatchBraceBlock(s: string, i: nat): (r: Option<nat>)
    requires i <= |s|
    ensures r.Some? ==> i + 3 <= r.value <= |s| && s[i] == '{' && s[r.value - 1] == '}'
  {
    if i < |s| && s[i] == '{' then
      match LastBrace(s, i + 2, RunEnd(NotLineEnd, s, i + 1))
      case Some(m) => Some(m + 1)
      case None => None
    else None
  }

  /**
   * The body of `\(([^()]*(\([^()]*\)[^()]*)*)\)` after its opening parenthesis,
   * read one character at a time; `inner` says whether an inner group is open.
   * Since `[^()]` never takes a parenthesis, each parenthesis decides the
   * match: outside an inner group ')' ends it and '(' opens an inner group;
   * inside one ')' closes it, while a third level of nesting, or the end of
   * the text, makes the whole attempt fail, as no backtracking helps.
   */
  function GroupBody(s: string, j: nat, inner: bool): (r: Option<nat>)
    requires j <= |s|
    ensures r.Some? ==> j < r.value <= |s| && s[r.value - 1] == ')'
    decreases |s| - j
  {
    if j == |s| then None
    else if s[j] == ')' then (if inner then GroupBody(s, j + 1, false) else Some(j + 1))
    else if s[j] == '(' then (if inner then None else GroupBody(s, j + 1, true))
    else GroupBody(s, j + 1, inner)
  }

  /** `\(([^()]*(\([^()]*\)[^()]*)*)\)` (c2m.cpp:259). */
  function MatchParenGroup(s: string, i: nat): (r: Option<nat>)
    requires i <= |s|
    ensures r.Some? ==> i + 2 <= r.value <= |s| && s[i] == '(' && s[r.value - 1] == ')'
  {
    if i < |s| && s[i] == '(' then GroupBody(s, i + 1, false) else None
  }

  /**
   * `(::| )~?([\w<> +=+-/\*]+)` (c2m.cpp:278): a `::` or a space, one optional
   * `~`, then the longest non-empty run of name characters. If a `~` is present
   * but no name character follows it, leaving the `~` out does not help, since
   * `~` is not a name character.
   */
  function MatchQualifiedName(s: string, i: nat): (r: Option<nat>)
    requires i <= |s|
    ensures r.Some? ==> i + 2 <= r.value <= |s|
  {
    var sep: Option<nat> :=
      if HasAt(s, i, "::") then Some(i + 2)
      else if i < |s| && s[i] == ' ' then Some(i + 1)
      else None;
    match sep
    case None => None
    case Some(j) =>
      if j < |s| && s[j] == '~' && RunEnd(NameChar, s, j + 1) > j + 1 then Some(RunEnd(NameChar, s, j + 1))
      else if RunEnd(NameChar, s, j) > j then Some(RunEnd(NameChar, s, j))
      else None
  }

  /**
   * `::[~\w]+<\w+` (clear2mangled.cpp:271). Backtracking into `[~\w]+` only
   * puts a `~` or word character before the `<`, so the `<` must follow the
   * whole run.
   */
  function MatchTemplateKey(s: string, i: nat): (r: Option<nat>)
    requires i <= |s|
    ensures r.Some? ==> i + 5 <= r.value <= |s|
  {
    if HasAt(s, i, "::") then
      var k := RunEnd(TildeOrWord, s, i + 2);
      if k > i + 2 && k < |s| && s[k] == '<' && RunEnd(Word, s, k + 1) > k + 1 then Some(RunEnd(Word, s, k + 1))
      else None
    else None
  }

  /** Literal alternatives come below the patterns that fall back on them. */
  function Rank(p: Pattern): nat {
    if p.Literals? then 0 else 1
  }

  /**
   * The end of the match of p that starts at position i of s, if there is one.
   * `(__\w+call|__cdecl)` tries the literal `__cdecl` only when its first
   * alternative fails.
   */
  function MatchAt(p: Pattern, s: string, i: nat): (r: Option<nat>)
    requires i <= |s|
    ensures r.Some? ==> i + MinLen(p) <= r.value <= |s|
    decreases Rank(p)
  {
    match p
    case Literals(alts) => MatchLiterals(alts, s, i)
    case CallingConvention =>
      (match MatchCallStem(s, i)
       case Some(e) => Some(e)
       case None => MatchAt(Literals(["__cdecl"]), s, i))
    case BraceBlock => MatchBraceBlock(s, i)
    case ParenGroup => MatchParenGroup(s, i)
    case QualifiedName => MatchQualifiedName(s, i)
    case TemplateKey => MatchTemplateKey(s, i)
  }

  /** `std::regex_search` over s[from..]: the leftmost match, as (start, end). */
  function Leftmost(p: Pattern, s: string, from: nat): (r: Option<(nat, nat)>)
    requires from <= |s|
    ensures r.Some? ==> from <= r.value.0 <= |s| && MatchAt(p, s, r.value.0) == Some(r.value.1)
    ensures r.Some? ==> forall k :: from <= k < r.value.0 ==> MatchAt(p, s, k).None?
    ensures r.None? ==> forall k :: from <= k <= |s| ==> MatchAt(p, s, k).None?
    decreases |s| - from
  {
    if from == |s| then None
    else match MatchAt(p, s, from)
      case Some(e) => Some((from, e))
      case None => Leftmost(p, s, from + 1)
  }

  /** The successive non-overlapping matches of p in s[from..], left to right. */
  function AllMatchesFrom(p: Pattern, s: string, from: nat): seq<string>
    requires from <= |s|
    decreases |s| - from
  {
    if from == |s| then []
    else match MatchAt(p, s, from)
      case Some(e) => [s[from..e]] + AllMatchesFrom(p, s, e)
      case None => AllMatchesFrom(p, s, from + 1)
  }

  function AllMatches(p: Pattern, s: string): seq<string> {
    AllMatchesFrom(p, s, 0)
  }

  /** The last of the successive matches, or "" when there is none. */
  function LastMatch(p: Pattern, s: string): string {
    LastOr(AllMatches(p, s))
  }

  /** The last element of xs, or "" when xs is empty. */
  function LastOr(xs: seq<string>): string {
    if xs == [] then "" else xs[|xs| - 1]
  }

  /** `std::regex_replace` from position from: every match replaced by rep. */
  function RewriteFrom(p: Pattern, rep: string, s: string, from: nat): string
    requires from <= |s|
    decreases |s| - from
  {
    if from == |s| then []
    else match MatchAt(p, s, from)
      case Some(e) => rep + RewriteFrom(p, rep, s, e)
      case None => [s[from]] + RewriteFrom(p, rep, s, from + 1)
  }

  function RewriteAll(p: Pattern, rep: string, s: string): string {
    RewriteFrom(p, rep, s, 0)
  }

  /** Every element of the match list is a match that occurs in s. */
  lemma {:induction false} MatchesOccur(p: Pattern, s: string, from: nat)
    requires from <= |s|
    ensures forall m :: m in AllMatchesFrom(p, s, from) ==> exists k :: from <= k <= |s| && HasAt(s, k, m)
    decreases |s| - from
  {
    if from < |s| {
      match MatchAt(p, s, from)
      case Some(e) =>
        MatchesOccur(p, s, e);
        assert HasAt(s, from, s[from..e]);
      case None =>
        MatchesOccur(p, s, from + 1);
    }
  }

  /** Every element of the match list is at least as long as the pattern's shortest match. */
  lemma {:induction false} MatchesLong(p: Pattern, s: string, from: nat)
    requires from <= |s|
    ensures forall m :: m in AllMatchesFrom(p, s, from) ==> |m| >= MinLen(p)
    decreases |s| - from
  {
    if from < |s| {
      match MatchAt(p, s, from)
      case Some(e) => MatchesLong(p, s, e);
      case None => MatchesLong(p, s, from + 1);
    }
  }

  /** The first match found from `from` on splits the list of matches. */
  lemma {:induction false} LeftmostSplitsMatches(p: Pattern, s: string, from: nat)
    requires from <= |s|
    ensures Leftmost(p, s, from).None? ==> AllMatchesFrom(p, s, from) == []
    ensures Leftmost(p, s, from).Some? ==>
      var (a, e) := Leftmost(p, s, from).value;
      a < e <= |s| && AllMatchesFrom(p, s, from) == [s[a..e]] + AllMatchesFrom(p, s, e)
    decreases |s| - from
  {
    if from < |s| && MatchAt(p, s, from).None? {
      LeftmostSplitsMatches(p, s, from + 1);
    }
  }

  /** Positions where p does not match contribute nothing to the match list. */
  lemma {:induction false} MatchesSkip(p: Pattern, s: string, i: nat, j: nat)
    requires i <= j <= |s|
    requires forall k :: i <= k < j ==> MatchAt(p, s, k).None?
    ensures AllMatchesFrom(p, s, i) == AllMatchesFrom(p, s, j)
    decreases j - i
  {
    if i < j {
      MatchesSkip(p, s, i + 1, j);
    }
  }

  /**
   * When every match starting before m ends by m, the matches found from m on
   * are the tail of those found from i, so a last match from m is the last
   * match from i.
   */
  lemma {:induction false} MatchesReach(p: Pattern, s: string, i: nat, m: nat)
    requires i <= m <= |s|
    requires forall k :: i <= k < m && MatchAt(p, s, k).Some? ==> MatchAt(p, s, k).value <= m
    ensures AllMatchesFrom(p, s, m) != [] ==>
      AllMatchesFrom(p, s, i) != [] && LastOr(AllMatchesFrom(p, s, i)) == LastOr(AllMatchesFrom(p, s, m))
    decreases m - i
  {
    if i < m {
      match MatchAt(p, s, i)
      case Some(e) =>
        MatchesReach(p, s, e, m);
        MatchesCons(p, s, i);
        LastOrCons(s[i..e], AllMatchesFrom(p, s, e));
      case None =>
        MatchesReach(p, s, i + 1, m);
    }
  }

  /** A match at i heads the list of matches from i. */
  lemma MatchesCons(p: Pattern, s: string, i: nat)
    requires i < |s| && MatchAt(p, s, i).Some?
    ensures var e := MatchAt(p, s, i).value;
      e <= |s| && AllMatchesFrom(p, s, i) == [s[i..e]] + AllMatchesFrom(p, s, e)
  {
  }

  /** Putting an element in front does not change a last element. */
  lemma LastOrCons(a: string, rest: seq<string>)
    ensures rest != [] ==> [a] + rest != [] && LastOr([a] + rest) == LastOr(rest)
  {
    if rest != [] {
      assert ([a] + rest)[|rest|] == rest[|rest| - 1];
    }
  }

  /** A match that runs to the end of the text is the last one. */
  lemma MatchToEnd(p: Pattern, s: string, i: nat)
    requires i < |s| && MatchAt(p, s, i) == Some(|s|)
    ensures AllMatchesFrom(p, s, i) == [s[i..]]
  {
    MatchesCons(p, s, i);
    assert AllMatchesFrom(p, s, |s|) == [];
    assert s[i..|s|] == s[i..];
  }

  /** Positions where p does not match are copied through by the rewrite. */
  lemma {:induction false} RewriteSkip(p: Pattern, rep: string, s: string, i: nat, j: nat)
    requires i <= j <= |s|
    requires forall k :: i <= k < j ==> MatchAt(p, s, k).None?
    ensures RewriteFrom(p, rep, s, i) == s[i..j] + RewriteFrom(p, rep, s, j)
    decreases j - i
  {
    if i < j {
      RewriteSkip(p, rep, s, i + 1, j);
      CopyStep(p, rep, s, i);
      assert s[i..j] == [s[i]] + s[i + 1..j];
      Associate([s[i]], s[i + 1..j], RewriteFrom(p, rep, s, j));
    }
  }

  /** A match at i is replaced as a whole. */
  lemma ReplaceStep(p: Pattern, rep: string, s: string, i: nat)
    requires i < |s| && MatchAt(p, s, i).Some?
    ensures var e := MatchAt(p, s, i).value;
      e <= |s| && RewriteFrom(p, rep, s, i) == rep + RewriteFrom(p, rep, s, e)
  {
  }

  /** A position where p does not match is copied as it is. */
  lemma CopyStep(p: Pattern, rep: string, s: string, i: nat)
    requires i < |s| && MatchAt(p, s, i).None?
    ensures RewriteFrom(p, rep, s, i) == [s[i]] + RewriteFrom(p, rep, s, i + 1)
  {
  }

  /** A rewrite whose replacement is no longer than any match never lengthens the text. */
  lemma {:induction false} RewriteNotLonger(p: Pattern, rep: string, s: string, from: nat)
    requires from <= |s|
    requires |rep| <= MinLen(p)
    ensures |RewriteFrom(p, rep, s, from)| <= |s| - from
    decreases |s| - from
  {
    if from < |s| {
      match MatchAt(p, s, from)
      case Some(e) => RewriteNotLonger(p, rep, s, e);
      case None => RewriteNotLonger(p, rep, s, from + 1);
    }
  }

  /**
   * A character that the replacement does not contain, and that is covered by
   * a match wherever it occurs, is absent from the result.
   */
  lemma {:induction false} RewriteOmits(p: Pattern, rep: string, s: string, from: nat, c: char)
    requires from <= |s|
    requires c !in rep
    requires forall k :: from <= k < |s| && s[k] == c ==> MatchAt(p, s, k).Some?
    ensures c !in RewriteFrom(p, rep, s, from)
    decreases |s| - from
  {
    if from < |s| {
      match MatchAt(p, s, from)
      case Some(e) =>
        RewriteOmits(p, rep, s, e, c);
        ReplaceStep(p, rep, s, from);
      case None =>
        RewriteOmits(p, rep, s, from + 1, c);
        CopyStep(p, rep, s, from);
    }
  }

  /** Every character of the result comes from the text or from the replacement. */
  lemma {:induction false} RewriteChars(p: Pattern, rep: string, s: string, from: nat, c: char)
    requires from <= |s|
    requires c in RewriteFrom(p, rep, s, from)
    ensures c in s[from..] || c in rep
    decreases |s| - from
  {
    match MatchAt(p, s, from)
    case Some(e) =>
      if c !in rep {
        RewriteChars(p, rep, s, e, c);
        assert s[e..] == s[from..][e - from..];
      }
    case None =>
      if c != s[from] {
        RewriteChars(p, rep, s, from + 1, c);
        assert s[from + 1..] == s[from..][1..];
      }
  }

  /** A text in which p never matches is left as it is. */
  lemma RewriteNoMatch(p: Pattern, rep: string, s: string)
    requires forall k :: 0 <= k <= |s| ==> MatchAt(p, s, k).None?
    ensures RewriteAll(p, rep, s) == s
  {
    RewriteSkip(p, rep, s, 0, |s|);
  }

  /**
   * `SearchAllSubStrings` (c2m.cpp:12-25): clears the output vector, then
   * pushes each successive match, resuming the search at the end of the
   * previous one. The prior contents of the vector play no part.
   */
  method SearchAllSubStrings(s: string, p: Pattern, previous: seq<string>) returns (found: bool, results: seq<string>)
    ensures results == AllMatches(p, s)
    ensures found <==> results != []
  {
    results := [];
    var begin: nat := 0;
    var next := Leftmost(p, s, begin);
    while next.Some?
      invariant begin <= |s|
      invariant next == Leftmost(p, s, begin)
      invariant results + AllMatchesFrom(p, s, begin) == AllMatches(p, s)
      decreases |s| - begin
    {
      var (a, e) := next.value;
      MatchesAdvance(p, s, begin, results);
      results := results + [s[a..e]];
      begin := e;
      next := Leftmost(p, s, begin);
    }
    MatchesExhausted(p, s, begin, results);
    found := |results| != 0;
  }

  /**
   * `FindLastMatch` (c2m.cpp:27-38): keeps the last of the successive
   * matches, "" when there is none.
   */
  method FindLastMatch(input: string, p: Pattern) returns (lastMatch: string)
    ensures lastMatch == LastMatch(p, input)
  {
    lastMatch := "";
    var lastPos: nat := 0;
    ghost var seen: seq<string> := [];
    var next := Leftmost(p, input, lastPos);
    while next.Some?
      invariant lastPos <= |input|
      invariant next == Leftmost(p, input, lastPos)
      invariant seen + AllMatchesFrom(p, input, lastPos) == AllMatches(p, input)
      invariant lastMatch == LastOr(seen)
      decreases |input| - lastPos
    {
      var (a, e) := next.value;
      MatchesAdvance(p, input, lastPos, seen);
      lastMatch := input[a..e];
      seen := seen + [lastMatch];
      lastPos := e;
      next := Leftmost(p, input, lastPos);
    }
    MatchesExhausted(p, input, lastPos, seen);
  }

  /** The match found from `from` on joins the list of matches already seen. */
  lemma MatchesAdvance(p: Pattern, s: string, from: nat, seen: seq<string>)
    requires from <= |s| && Leftmost(p, s, from).Some?
    requires seen + AllMatchesFrom(p, s, from) == AllMatches(p, s)
    ensures Leftmost(p, s, from).value.0 < Leftmost(p, s, from).value.1 <= |s|
    ensures var (a, e) := Leftmost(p, s, from).value;
      (seen + [s[a..e]]) + AllMatchesFrom(p, s, e) == AllMatches(p, s)
  {
    LeftmostSplitsMatches(p, s, from);
  }

  /** With no match left, the matches seen are all of them. */
  lemma MatchesExhausted(p: Pattern, s: string, from: nat, seen: seq<string>)
    requires from <= |s| && Leftmost(p, s, from).None?
    requires seen + AllMatchesFrom(p, s, from) == AllMatches(p, s)
    ensures seen == AllMatches(p, s)
  {
    LeftmostSplitsMatches(p, s, from);
  }

  /**
   * Replace-all of a literal the way `std::string::find` and `replace` do it:
   * the leftmost occurrence is replaced, and the search resumes after it, so
   * occurrences do not overlap and inserted text is never searched again.
   */
  function ReplaceLiteral(w: Lexeme, rep: string, s: string): string
    decreases |s|
  {
    if |s| == 0 then s
    else if HasAt(s, 0, w) then rep + ReplaceLiteral(w, rep, s[|w|..])
    else [s[0]] + ReplaceLiteral(w, rep, s[1..])
  }

  lemma ReplaceHit(w: Lexeme, rep: string, s: string)
    requires HasAt(s, 0, w)
    ensures ReplaceLiteral(w, rep, s) == rep + ReplaceLiteral(w, rep, s[|w|..])
  {
  }

  lemma ReplaceMiss(w: Lexeme, rep: string, s: string)
    requires |s| > 0 && !HasAt(s, 0, w)
    ensures ReplaceLiteral(w, rep, s) == [s[0]] + ReplaceLiteral(w, rep, s[1..])
  {
  }

  /** The literal cannot start where its first character is absent. */
  lemma NoLead(s: string, w: Lexeme, k: nat)
    requires k <= |s|
    requires forall j :: 0 <= j < k ==> s[j] != w[0]
    ensures forall j :: 0 <= j < k ==> !HasAt(s, j, w)
  {
    forall j | 0 <= j < k
      ensures !HasAt(s, j, w)
    {
      if j + |w| <= |s| {
        assert s[j..j + |w|][0] == s[j];
      }
    }
  }

  /** Replacing by text no longer than the literal never lengthens the text. */
  lemma {:induction false} ReplaceNotLonger(w: Lexeme, rep: string, s: string)
    requires |rep| <= |w|
    ensures |ReplaceLiteral(w, rep, s)| <= |s|
    decreases |s|
  {
    if |s| > 0 {
      if HasAt(s, 0, w) {
        ReplaceNotLonger(w, rep, s[|w|..]);
      } else {
        ReplaceNotLonger(w, rep, s[1..]);
      }
    }
  }

  /** Text that does not contain the literal comes back unchanged. */
  lemma ReplaceAbsent(w: Lexeme, rep: string, s: string)
    requires !HaveSubString(s, w)
    ensures ReplaceLiteral(w, rep, s) == s
  {
    FindFirst(s, w, 0);
    ReplaceSkip(w, rep, s, |s|);
    assert s[..|s|] == s;
    assert s[|s|..] == [];
  }

  /** A stretch without an occurrence is copied unchanged. */
  lemma {:induction false} ReplaceSkip(w: Lexeme, rep: string, s: string, k: nat)
    requires k <= |s|
    requires forall j :: 0 <= j < k ==> !HasAt(s, j, w)
    ensures ReplaceLiteral(w, rep, s) == s[..k] + ReplaceLiteral(w, rep, s[k..])
    decreases k
  {
    if k > 0 {
      ReplaceMiss(w, rep, s);
      var t := s[1..];
      forall j | 0 <= j < k - 1
        ensures !HasAt(t, j, w)
      {
        HasAtSuffix(s, 1, j, w);
      }
      ReplaceSkip(w, rep, t, k - 1);
      assert t[k - 1..] == s[k..];
      assert s[..k] == [s[0]] + t[..k - 1];
      Associate([s[0]], t[..k - 1], ReplaceLiteral(w, rep, s[k..]));
    }
  }

  lemma Associate(a: string, b: string, c: string)
    ensures a + (b + c) == (a + b) + c
  {
  }

  lemma Regroup(a: string, b: string, c: string, d: string)
    ensures (a + b + c) + d == a + (b + c + d)
  {
  }

  /** The occurrences of w in cur[pos..] are those of cur from pos on. */
  lemma FindInSuffix(w: Lexeme, cur: string, pos: nat)
    requires pos <= |cur|
    ensures Find(cur, w, pos).Some? ==> HasAt(cur[pos..], Find(cur, w, pos).value - pos, w)
    ensures Find(cur, w, pos).Some? ==>
      forall j :: 0 <= j < Find(cur, w, pos).value - pos ==> !HasAt(cur[pos..], j, w)
    ensures Find(cur, w, pos).None? ==> forall j :: 0 <= j < |cur| - pos ==> !HasAt(cur[pos..], j, w)
  {
    FindFirst(cur, w, pos);
    var bound := if Find(cur, w, pos).Some? then Find(cur, w, pos).value - pos else |cur| - pos;
    forall j | 0 <= j <= bound
      ensures HasAt(cur[pos..], j, w) <==> HasAt(cur, pos + j, w)
    {
      HasAtSuffix(cur, pos, j, w);
    }
  }

  /** One replacement in place leaves the finished prefix and the rest to do. */
  lemma ReplaceAdvance(w: Lexeme, rep: string, cur: string, pos: nat, at: nat, next: string)
    requires pos <= |cur| && Find(cur, w, pos) == Some(at)
    requires next == cur[..at] + rep + cur[at + |w|..]
    ensures at + |rep| <= |next|
    ensures next[..at + |rep|] + ReplaceLiteral(w, rep, next[at + |rep|..])
         == cur[..pos] + ReplaceLiteral(w, rep, cur[pos..])
  {
    FindInSuffix(w, cur, pos);
    var rest, k := cur[pos..], at - pos;
    ReplaceSkip(w, rep, rest, k);
    ReplaceHit(w, rep, rest[k..]);
    Splice(cur, pos, at, |w|, rep, next, ReplaceLiteral(w, rep, rest),
      ReplaceLiteral(w, rep, rest[k..]), ReplaceLiteral(w, rep, rest[k..][|w|..]));
  }

  /** The sequence bookkeeping of one replacement, whatever is replaced. */
  lemma Splice(cur: string, pos: nat, at: nat, wlen: nat, rep: string, next: string, whole: string, mid: string, tail: string)
    requires pos <= at && at + wlen <= |cur|
    requires next == cur[..at] + rep + cur[at + wlen..]
    requires whole == cur[pos..][..at - pos] + mid && mid == rep + tail
    ensures at + |rep| <= |next|
    ensures next[at + |rep|..] == cur[pos..][at - pos..][wlen..]
    ensures next[..at + |rep|] + tail == cur[..pos] + whole
  {
    assert cur[pos..][at - pos..][wlen..] == cur[at + wlen..];
    assert cur[pos..][..at - pos] == cur[pos..at];
    assert next[at + |rep|..] == cur[at + wlen..];
    assert next[..at + |rep|] == cur[..pos] + cur[pos..at] + rep;
    Regroup(cur[..pos], cur[pos..at], rep, tail);
  }

  /** With no occurrence left, the rest of the text stays as it is. */
  lemma ReplaceFinished(w: Lexeme, rep: string, cur: string, pos: nat)
    requires pos <= |cur| && Find(cur, w, pos).None?
    ensures cur[..pos] + ReplaceLiteral(w, rep, cur[pos..]) == cur
  {
    FindInSuffix(w, cur, pos);
    var rest := cur[pos..];
    ReplaceSkip(w, rep, rest, |rest|);
    assert rest[|rest|..] == [];
    assert rest[..|rest|] == rest;
  }

  /**
   * `ReplaceSubstring` (c2m.cpp:40-46): replaces, in place, every occurrence of
   * toReplace, each search resuming just after the text inserted by the
   * previous replacement. With an empty toReplace the source never
   * terminates, so callers pass a non-empty one (its only caller passes a
   * recorded `<...>`).
   */
  method ReplaceSubstring(str: string, toReplace: Lexeme, replacement: string) returns (result: string)
    ensures result == ReplaceLiteral(toReplace, replacement, str)
  {
    result := str;
    var pos: nat := 0;
    var found := Find(result, toReplace, pos);
    while found.Some?
      invariant pos <= |result|
      invariant found == Find(result, toReplace, pos)
      invariant result[..pos] + ReplaceLiteral(toReplace, replacement, result[pos..]) == ReplaceLiteral(toReplace, replacement, str)
      decreases |result| - pos
    {
      var at := found.value;
      var next := result[..at] + replacement + result[at + |toReplace|..];
      ReplaceAdvance(toReplace, replacement, result, pos, at, next);
      result, pos := next, at + |replacement|;
      found := Find(result, toReplace, pos);
    }
    ReplaceFinished(toReplace, replacement, result, pos);
  }
}
