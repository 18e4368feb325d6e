/**
 * The older program variant (clear2mangled/clear2mangled.cpp): a global
 * vector of exports built from `undname` output with the access specifier
 * cut off, and the three searches of `main` over it: the fuzzy search by
 * declaration, the search by base and virtual address, and the search by
 * RVA.
 */
module Legacy {
  import opened Wrappers
  import opened Machine
  import opened Patterns
  import opened Filtering
  import opened EditDistance
  import Exports

  /** `export_function_desc` (clear2mangled.cpp:15-21). */
  datatype ExportDesc = ExportDesc(ordinal: Word, rva: Word, mangledName: string, clearName: string)

  const Private: string := "private: "
  const Protected: string := "protected: "
  const Public: string := "public: "

  /**
   * One step of lines 58-65: when the marker occurs anywhere in s, the first
   * |marker| characters are cut off, wherever the marker is.
   */
  function DropMarked(s: string, marker: string): string {
    if HaveSubString(s, marker) then s[|marker|..] else s
  }

  /** Lines 57-65: the three steps, in this order, each on the result of the one before. */
  function StripAccess(clearName: string): (r: string)
    ensures |r| <= |clearName| && r == clearName[|clearName| - |r|..]
  {
    DropMarked(DropMarked(DropMarked(clearName, Private), Protected), Public)
  }

  /** None of the three markers occurs in s. */
  predicate Unmarked(s: string) {
    !HaveSubString(s, Private) && !HaveSubString(s, Protected) && !HaveSubString(s, Public)
  }

  /** A name without any marker is kept as it is. */
  lemma StripUnmarked(s: string)
    requires Unmarked(s)
    ensures StripAccess(s) == s
  {
  }

  /**
   * A name that starts with one of the specifiers and holds no other marker
   * loses exactly that specifier.
   */
  lemma StripLeading(marker: string, rest: string)
    requires marker == Private || marker == Protected || marker == Public
    requires Unmarked(rest)
    ensures StripAccess(marker + rest) == rest
  {
    var s := marker + rest;
    assert HasAt(s, 0, marker);
    FindFirst(s, marker, 0);
    assert s[|marker|..] == rest;
    if marker == Public {
      Absent(marker, rest, Private);
      Absent(marker, rest, Protected);
    } else if marker == Protected {
      Absent(marker, rest, Private);
    }
  }

  /**
   * A later marker does not occur in head + rest when it does not occur in
   * rest: past its first character head holds no 'p', and its third
   * character differs from the marker's.
   */
  lemma Absent(head: string, rest: string, marker: string)
    requires head == Protected || head == Public
    requires marker == Private || (marker == Protected && head == Public)
    requires !HaveSubString(rest, marker)
    ensures !HaveSubString(head + rest, marker)
  {
    var s := head + rest;
    FindFirst(rest, marker, 0);
    FindFirst(s, marker, 0);
    forall k | 0 <= k <= |s|
      ensures !HasAt(s, k, marker)
    {
      if k >= |head| {
        HasAtSuffix(s, |head|, k - |head|, marker);
        assert s[|head|..] == rest;
      } else {
        NotInHead(head, rest, marker, k);
      }
    }
  }

  /** The marker does not start inside head. */
  lemma NotInHead(head: string, rest: string, marker: string, k: nat)
    requires head == Protected || head == Public
    requires marker == Private || (marker == Protected && head == Public)
    requires k < |head|
    ensures !HasAt(head + rest, k, marker)
  {
    var s := head + rest;
    if k + |marker| <= |s| {
      var window := s[k..k + |marker|];
      assert window[0] == s[k] == head[k];
      if k == 0 {
        assert window[2] == s[2] == head[2];
        assert head[2] in "ob" && marker[2] in "io";
        assert head[2] != marker[2];
      } else {
        assert head[k] in head[1..];
        assert 'p' !in head[1..];
        assert marker[0] == 'p';
      }
    }
  }

  /** Lines 51-73: the entry one output line yields, none when it lacks the marker. */
  function DescEntry(f: Exports.ExportedFunction, line: string): seq<ExportDesc> {
    match Exports.UndnamePayload(line)
    case None => []
    case Some(payload) => [ExportDesc(f.ordinal, f.rva, f.name, StripAccess(payload))]
  }

  /** The entries for the given output lines of one export. */
  function DescEntries(f: Exports.ExportedFunction, lines: seq<string>): seq<ExportDesc> {
    if lines == [] then []
    else DescEntries(f, lines[..|lines| - 1]) + DescEntry(f, lines[|lines| - 1])
  }

  /** The entries for the given exports, in table order. */
  function AllDescs(funcs: seq<Exports.ExportedFunction>): seq<ExportDesc> {
    if funcs == [] then []
    else AllDescs(funcs[..|funcs| - 1]) + DescEntries(funcs[|funcs| - 1], funcs[|funcs| - 1].undnameLines)
  }

  lemma DescEntriesStep(f: Exports.ExportedFunction, lines: seq<string>, j: nat)
    requires j < |lines|
    ensures DescEntries(f, lines[..j + 1]) == DescEntries(f, lines[..j]) + DescEntry(f, lines[j])
  {
    assert lines[..j + 1][..j] == lines[..j];
  }

  lemma AllDescsStep(funcs: seq<Exports.ExportedFunction>, i: nat)
    requires i < |funcs|
    ensures AllDescs(funcs[..i + 1]) == AllDescs(funcs[..i]) + DescEntries(funcs[i], funcs[i].undnameLines)
  {
    assert funcs[..i + 1][..i] == funcs[..i];
  }

  /** The keys of the fuzzy search: the successive matches of `::[~\w]+<\w+` (lines 271-279). */
  function Keys(s: string): seq<string> {
    AllMatches(TemplateKey, s)
  }

  /** Line 288: a C function is exported under its plain name. */
  predicate CStyle(name: string, e: ExportDesc) {
    e.clearName == e.mangledName && name == e.mangledName
  }

  /** Lines 303-336: the same keys in the same order, and an edit distance below 100. */
  predicate Similar(keys: seq<string>, name: string, e: ExportDesc) {
    Keys(e.clearName) == keys && Distance(e.clearName, name) < 100
  }

  function CStyleTest(name: string): ExportDesc -> bool {
    e => CStyle(name, e)
  }

  function SimilarTest(keys: seq<string>, name: string): ExportDesc -> bool {
    e => Similar(keys, name, e)
  }

  function RvaTest(rva: Word): ExportDesc -> bool {
    (e: ExportDesc) => e.rva == rva
  }

  /**
   * What the fuzzy search reports: the C-style matches when the name yields
   * no key, the similar entries otherwise, in table order.
   */
  function FuzzyResults(xs: seq<ExportDesc>, name: string): seq<ExportDesc> {
    if Keys(name) == [] then Filter(xs, CStyleTest(name)) else Filter(xs, SimilarTest(Keys(name), name))
  }

  /** The global `exports` vector (clear2mangled.cpp:23) and the searches over it. */
  class Table {
    var exports: seq<ExportDesc>

    constructor()
      ensures exports == []
    {
      exports := [];
    }

    /** Lines 49-74 for one export: an entry per output line that holds the marker. */
    method AddExport(f: Exports.ExportedFunction)
      modifies this
      ensures exports == old(exports) + DescEntries(f, f.undnameLines)
    {
      ghost var start := exports;
      for j := 0 to |f.undnameLines|
        invariant exports == start + DescEntries(f, f.undnameLines[..j])
      {
        DescEntriesStep(f, f.undnameLines, j);
        var line := f.undnameLines[j];
        match Exports.UndnamePayload(line)
        case None =>
        case Some(payload) =>
          var clearName := StripAccess(payload);
          exports := exports + [ExportDesc(f.ordinal, f.rva, f.name, clearName)];
        AppendAssoc(start, DescEntries(f, f.undnameLines[..j]), DescEntry(f, line));
      }
      assert f.undnameLines[..|f.undnameLines|] == f.undnameLines;
    }

    /**
     * `generate_names` (lines 25-79) once the export table and the output of
     * `undname` are known.
     */
    method GenerateNames(funcs: seq<Exports.ExportedFunction>)
      modifies this
      ensures exports == old(exports) + AllDescs(funcs)
    {
      ghost var start := exports;
      for i := 0 to |funcs|
        invariant exports == start + AllDescs(funcs[..i])
      {
        AllDescsStep(funcs, i);
        AddExport(funcs[i]);
        AppendAssoc(start, AllDescs(funcs[..i]), DescEntries(funcs[i], funcs[i].undnameLines));
      }
      assert funcs[..|funcs|] == funcs;
    }

    /** Lines 264-350: the fuzzy search by declaration, without the printing. */
    method FuzzySearch(name: string) returns (results: seq<ExportDesc>)
      ensures results == FuzzyResults(exports, name)
    {
      var _, keys := SearchAllSubStrings(name, TemplateKey, []);
      results := [];
      if |keys| == 0 {
        for k := 0 to |exports|
          invariant results == Filter(exports[..k], CStyleTest(name))
        {
          FilterStep(exports, CStyleTest(name), k);
          var e := exports[k];
          if e.clearName == e.mangledName && name == e.mangledName {
            results := results + [e];
          }
        }
        assert exports[..|exports|] == exports;
      } else {
        for k := 0 to |exports|
          invariant results == Filter(exports[..k], SimilarTest(keys, name))
        {
          FilterStep(exports, SimilarTest(keys, name), k);
          var keep := IsSimilar(keys, name, exports[k]);
          if keep {
            results := results + [exports[k]];
          }
        }
        assert exports[..|exports|] == exports;
      }
    }

    /**
     * Lines 353-387: the search by virtual address. `va` is what `stoi`
     * made of the argument, None when the argument is missing (an error,
     * lines 356-360); the `int` is converted to `uintptr_t` and the RVA is
     * the wrapped difference.
     */
    method SearchByBase(baseAddress: Word, va: Option<int>) returns (results: Option<seq<ExportDesc>>)
      requires va.Some? ==> -0x8000_0000 <= va.value < 0x8000_0000
      ensures va.None? <==> results.None?
      ensures va.Some? ==> results.value == Filter(exports, RvaTest(Wrap(va.value - baseAddress)))
    {
      if va.None? {
        return None;
      }
      var address := Wrap(va.value);
      var rva := Wrap(address - baseAddress);
      SignExtend(va.value, baseAddress);
      var found := SearchRva(rva);
      results := Some(found);
    }

    /** Lines 389-413, and lines 364-373 with the computed RVA: the entries with that RVA, in order. */
    method SearchRva(rva: Word) returns (results: seq<ExportDesc>)
      ensures results == Filter(exports, RvaTest(rva))
    {
      results := [];
      for k := 0 to |exports|
        invariant results == Filter(exports[..k], RvaTest(rva))
      {
        FilterStep(exports, RvaTest(rva), k);
        if rva == exports[k].rva {
          results := results + [exports[k]];
        }
      }
      assert exports[..|exports|] == exports;
    }
  }

  /**
   * Lines 305-336 for one export: its keys are collected, compared by
   * count and then one by one, and only then is the distance computed.
   */
  method IsSimilar(keys: seq<string>, name: string, e: ExportDesc) returns (keep: bool)
    ensures keep == Similar(keys, name, e)
  {
    var _, own := SearchAllSubStrings(e.clearName, TemplateKey, []);
    if |own| != |keys| {
      return false;
    }
    var same := SameKeys(own, keys);
    if !same {
      return false;
    }
    var distance := LevenshteinDistance(e.clearName, name);
    keep := distance < 100;
  }

  /** Lines 316-326: the element-wise comparison that stops at the first difference. */
  method SameKeys(own: seq<string>, keys: seq<string>) returns (same: bool)
    requires |own| == |keys|
    ensures same <==> own == keys
  {
    for i := 0 to |own|
      invariant own[..i] == keys[..i]
    {
      if own[i] != keys[i] {
        return false;
      }
      assert own[..i + 1] == own[..i] + [own[i]] && keys[..i + 1] == keys[..i] + [keys[i]];
    }
    assert own == own[..|own|] && keys == keys[..|keys|];
    same := true;
  }

  /**
   * Lines 362-363: the `int` from `stoi` is sign-extended to 64 bits before
   * the base is subtracted, which is the same as wrapping the difference
   * of the plain numbers.
   */
  lemma SignExtend(va: int, baseAddress: Word)
    requires -0x8000_0000 <= va < 0x8000_0000
    ensures Wrap(Wrap(va) - baseAddress) == Wrap(va - baseAddress)
    ensures va < 0 ==> Wrap(va) == va + Modulus
  {
    WrapNear(va);
    WrapNear(va - baseAddress);
    if va < 0 {
      WrapNear(va + Modulus - baseAddress);
    }
  }

  /** With no key in the name, the search reports exactly the C-style exports of that name. */
  lemma CStyleSearch(xs: seq<ExportDesc>, name: string)
    requires Keys(name) == []
    ensures forall e :: e in FuzzyResults(xs, name) <==> e in xs && e.clearName == name && e.mangledName == name
  {
    FilterMembers(xs, CStyleTest(name));
  }

  /**
   * With keys, the search reports exactly the exports whose keys are the
   * name's, in the same order, and whose distance from the name is below 100.
   */
  lemma KeyedSearch(xs: seq<ExportDesc>, name: string)
    requires Keys(name) != []
    ensures forall e :: e in FuzzyResults(xs, name) <==>
      e in xs && Keys(e.clearName) == Keys(name) && Distance(e.clearName, name) < 100
  {
    FilterMembers(xs, SimilarTest(Keys(name), name));
  }

  /** An export whose clear name is the query itself is always found. */
  lemma FindsExactName(xs: seq<ExportDesc>, e: ExportDesc, name: string)
    requires e in xs && e.clearName == name
    requires Keys(name) != [] || e.mangledName == name
    ensures e in FuzzyResults(xs, name)
  {
    DistanceFacts(name, name);
    FilterMembers(xs, CStyleTest(name));
    FilterMembers(xs, SimilarTest(Keys(name), name));
  }

  /** The RVA search reports exactly the entries with that RVA. */
  lemma RvaSearch(xs: seq<ExportDesc>, rva: Word)
    ensures forall e :: e in Filter(xs, RvaTest(rva)) <==> e in xs && e.rva == rva
  {
    FilterMembers(xs, RvaTest(rva));
  }
}
