/**
 * The export index of `c2m::State` (clear2mangled/c2m.hpp:31-49,
 * clear2mangled/c2m.cpp:165-214 and 364-442): `m_exports` holds one record
 * per line of `undname` output, and the three lookups select records from it
 * in index order.
 */
module Exports {
  import opened Wrappers
  import opened Patterns
  import opened Machine
  import opened Normalizer
  import opened Parser
  import opened Filtering

  /** `Export` (c2m.hpp:31-38). */
  datatype Export = Export(
    ordinal: Word,
    rva: Word,
    mangledDeclaration: string,
    clearDeclaration: string,
    declarationDetails: DeclarationDetails)

  /**
   * One entry of the PE export table together with the lines `undname.exe`
   * printed for its name: reading the table and running the tool are not
   * modelled, their results are the input.
   */
  datatype ExportedFunction = ExportedFunction(ordinal: Word, rva: Word, name: string, undnameLines: seq<string>)

  /** The text `undname` prints before the undecorated name. */
  const Marker: string := "is :- \""

  /** `find_last_of(c)`: the last index holding c. */
  function FindLast(s: string, c: char): (r: Option<nat>)
    ensures r.Some? ==> r.value < |s| && s[r.value] == c
    ensures r.Some? ==> forall k :: r.value < k < |s| ==> s[k] != c
    ensures r.None? ==> forall k :: 0 <= k < |s| ==> s[k] != c
    decreases |s|
  {
    if |s| == 0 then None
    else if s[|s| - 1] == c then Some(|s| - 1)
    else FindLast(s[..|s| - 1], c)
  }

  /**
   * Lines 191-196: the text after the marker up to the last '"' of the line,
   * `result.substr(pos + 7, result.find_last_of('"') - pos - 7)` in `size_t`
   * arithmetic; None for a line without the marker.
   */
  function UndnamePayload(line: string): (r: Option<string>)
    ensures r.None? <==> !HaveSubString(line, Marker)
  {
    match Find(line, Marker, 0)
    case None => None
    case Some(pos) => Some(PayloadAt(line, pos))
  }

  /** Line 196 for a marker at pos. */
  function PayloadAt(line: string, pos: nat): string
    requires pos + 7 <= |line|
  {
    Substr(line, pos + 7, Wrap(LastQuote(line) - pos - 7))
  }

  /** `find_last_of('"')`, npos when the line has no '"'. */
  function LastQuote(line: string): (q: nat)
    ensures q == NPos || q < |line|
  {
    match FindLast(line, '"')
    case Some(q) => q
    case None => NPos
  }

  /**
   * Lines 196-208: the record built from one payload. It is found under the
   * simplified payload, and it is consistent: its details are the parse of
   * its declaration, which holds no quote character.
   */
  function Entry(f: ExportedFunction, payload: string): (e: Export)
    ensures e.clearDeclaration == SimplifyDeclaration(payload)
    ensures Consistent(e)
  {
    var clear := SimplifyDeclaration(payload);
    SimplifyUnquoted(payload);
    Export(f.ordinal, f.rva, f.name, clear, Parse(clear))
  }

  /** The record one output line yields: none when the line lacks the marker. */
  function LineEntry(f: ExportedFunction, line: string): seq<Export> {
    match UndnamePayload(line)
    case None => []
    case Some(payload) => [Entry(f, payload)]
  }

  /** The records appended for the given output lines of one export. */
  function LineEntries(f: ExportedFunction, lines: seq<string>): seq<Export> {
    if lines == [] then []
    else LineEntries(f, lines[..|lines| - 1]) + LineEntry(f, lines[|lines| - 1])
  }

  lemma LineEntriesStep(f: ExportedFunction, lines: seq<string>, j: nat)
    requires j < |lines|
    ensures LineEntries(f, lines[..j + 1]) == LineEntries(f, lines[..j]) + LineEntry(f, lines[j])
  {
    assert lines[..j + 1][..j] == lines[..j];
  }

  lemma AllEntriesStep(funcs: seq<ExportedFunction>, i: nat)
    requires i < |funcs|
    ensures AllEntries(funcs[..i + 1]) == AllEntries(funcs[..i]) + LineEntries(funcs[i], funcs[i].undnameLines)
  {
    assert funcs[..i + 1][..i] == funcs[..i];
  }

  /** The records appended for the given exports, in table order. */
  function AllEntries(funcs: seq<ExportedFunction>): seq<Export> {
    if funcs == [] then []
    else AllEntries(funcs[..|funcs| - 1]) + LineEntries(funcs[|funcs| - 1], funcs[|funcs| - 1].undnameLines)
  }

  /** What a record built from `undname` output satisfies. */
  predicate Consistent(e: Export) {
    && e.declarationDetails == Parse(e.clearDeclaration)
    && '`' !in e.clearDeclaration
    && '\'' !in e.clearDeclaration
  }

  /** The test each lookup applies to a record. */
  datatype Query =
    | ByDetails(target: DeclarationDetails)  // lines 377-380
    | ByRva(rva: Word)                       // lines 405 and 428

  /**
   * Lines 377-380 compare the name and three of the flags; `Variable` is not
   * compared.
   */
  predicate Accepts(q: Query, e: Export) {
    match q
    case ByDetails(t) =>
      && t.name == e.declarationDetails.name
      && t.cFunction == e.declarationDetails.cFunction
      && t.constructorFunction == e.declarationDetails.constructorFunction
      && t.destructorFunction == e.declarationDetails.destructorFunction
    case ByRva(rva) => rva == e.rva
  }

  /** The test of q as a function value, for `Filter`. */
  function Keep(q: Query): Export -> bool {
    e => Accepts(q, e)
  }

  /** The lookup by clear declaration: the query is simplified and parsed first (lines 366-370). */
  function DeclarationQuery(declaration: string): Query {
    ByDetails(Parse(SimplifyDeclaration(declaration)))
  }

  /** `c2m::State`, reduced to the export index. */
  class State {
    var exports: seq<Export>

    /** Every record was built from `undname` output. */
    ghost predicate Valid()
      reads this
    {
      forall k :: 0 <= k < |exports| ==> Consistent(exports[k])
    }

    constructor()
      ensures exports == [] && Valid()
    {
      exports := [];
    }

    /** Lines 190-208: one line of `undname` output appends at most one record. */
    method AddUndnameLine(f: ExportedFunction, line: string)
      requires Valid()
      modifies this
      ensures Valid()
      ensures exports == old(exports) + LineEntry(f, line)
    {
      match UndnamePayload(line)
      case None =>
      case Some(payload) =>
        var clearDeclaration := SimplifyDeclaration(payload);
        var details := ParseDeclarationDetails(clearDeclaration);
        SimplifyUnquoted(payload);
        exports := exports + [Export(f.ordinal, f.rva, f.name, clearDeclaration, details)];
    }

    /** Lines 188-209: the records for every output line of one export, in order. */
    method AddExport(f: ExportedFunction)
      requires Valid()
      modifies this
      ensures Valid()
      ensures exports == old(exports) + LineEntries(f, f.undnameLines)
    {
      ghost var start := exports;
      for j := 0 to |f.undnameLines|
        invariant Valid()
        invariant exports == start + LineEntries(f, f.undnameLines[..j])
      {
        LineEntriesStep(f, f.undnameLines, j);
        AddUndnameLine(f, f.undnameLines[j]);
        AppendAssoc(start, LineEntries(f, f.undnameLines[..j]), LineEntry(f, f.undnameLines[j]));
      }
      assert f.undnameLines[..|f.undnameLines|] == f.undnameLines;
    }

    /**
     * `LoadExportsFromPEFile` (c2m.cpp:179-213) once the export table and the
     * output of `undname` are known: one record per output line that holds
     * the marker, in table order.
     */
    method LoadExports(funcs: seq<ExportedFunction>)
      requires Valid()
      modifies this
      ensures Valid()
      ensures exports == old(exports) + AllEntries(funcs)
    {
      ghost var start := exports;
      for i := 0 to |funcs|
        invariant Valid()
        invariant exports == start + AllEntries(funcs[..i])
      {
        AllEntriesStep(funcs, i);
        AddExport(funcs[i]);
        AppendAssoc(start, AllEntries(funcs[..i]), LineEntries(funcs[i], funcs[i].undnameLines));
      }
      assert funcs[..|funcs|] == funcs;
    }

    /** The loops of lines 375-384, 404-407 and 427-430. */
    method Lookup(q: Query) returns (results: seq<Export>)
      ensures results == Filter(exports, Keep(q))
    {
      results := [];
      for k := 0 to |exports|
        invariant results == Filter(exports[..k], Keep(q))
      {
        FilterStep(exports, Keep(q), k);
        if Accepts(q, exports[k]) {
          results := results + [exports[k]];
        }
      }
      assert exports[..|exports|] == exports;
    }

    /** `PrintMangledNameByClearDeclaration` (c2m.cpp:364-396) without the printing. */
    method FindByDeclaration(declaration: string) returns (results: seq<Export>)
      ensures results == Filter(exports, Keep(DeclarationQuery(declaration)))
    {
      var simplified := SimplifyDeclaration(declaration);
      var details := ParseDeclarationDetails(simplified);
      results := Lookup(ByDetails(details));
    }

    /**
     * In a valid index every record is found by the declaration lookup of
     * any declaration that simplifies to its own, such as the payload it
     * was built from.
     */
    lemma FindsEveryRecord(k: nat, declaration: string)
      requires Valid() && k < |exports|
      requires SimplifyDeclaration(declaration) == exports[k].clearDeclaration
      ensures exports[k] in Filter(exports, Keep(DeclarationQuery(declaration)))
    {
      FindsOwnDeclaration(exports, exports[k], declaration);
    }

    /** `PrintMangledNameByAddress` (c2m.cpp:398-421) without the printing. */
    method FindByAddress(baseAddress: Word, address: Word) returns (results: seq<Export>)
      ensures results == Filter(exports, Keep(ByRva(Wrap(address - baseAddress))))
    {
      var rva := Wrap(address - baseAddress);
      results := Lookup(ByRva(rva));
    }

    /** `PrintMangledNameByRVA` (c2m.cpp:423-442) without the printing. */
    method FindByRva(rva: Word) returns (results: seq<Export>)
      ensures results == Filter(exports, Keep(ByRva(rva)))
    {
      results := Lookup(ByRva(rva));
    }
  }

  /** The declaration lookup does not look at `Variable`. */
  lemma VariableIgnored(xs: seq<Export>, t: DeclarationDetails, v: bool)
    ensures Filter(xs, Keep(ByDetails(t))) == Filter(xs, Keep(ByDetails(t.(variable := v))))
  {
    FilterAgree(xs, Keep(ByDetails(t)), Keep(ByDetails(t.(variable := v))));
  }

  /** The RVA lookup returns exactly the records with that RVA, in index order. */
  lemma RvaLookup(xs: seq<Export>, ys: seq<Export>, rva: Word)
    ensures forall e :: e in Filter(xs, Keep(ByRva(rva))) <==> e in xs && e.rva == rva
    ensures Filter(xs + ys, Keep(ByRva(rva))) == Filter(xs, Keep(ByRva(rva))) + Filter(ys, Keep(ByRva(rva)))
  {
    FilterMembers(xs, Keep(ByRva(rva)));
    FilterAppend(xs, ys, Keep(ByRva(rva)));
  }

  /**
   * Looking up the declaration a record was built from finds that record:
   * the query goes through the same simplification and parsing.
   */
  lemma FindsOwnDeclaration(xs: seq<Export>, e: Export, declaration: string)
    requires e in xs && Consistent(e)
    requires e.clearDeclaration == SimplifyDeclaration(declaration)
    ensures e in Filter(xs, Keep(DeclarationQuery(declaration)))
  {
    FilterMembers(xs, Keep(DeclarationQuery(declaration)));
  }

  /** Line 400: below the base address the RVA wraps around 2^64. */
  lemma AddressRva(baseAddress: Word, address: Word)
    ensures address >= baseAddress ==> Wrap(address - baseAddress) == address - baseAddress
    ensures address < baseAddress ==> Wrap(address - baseAddress) == address - baseAddress + Modulus
  {
    WrapNear(address - baseAddress);
  }

  /**
   * Lines 191-196: for a line whose first marker is at pos, the payload
   * runs from the end of the marker to the last '"' of the line, or to the
   * end of the line when the marker's own '"' is the last one (the count
   * `-1` wraps to npos).
   */
  lemma PayloadText(line: string, pos: nat)
    requires |line| < Modulus && Find(line, Marker, 0) == Some(pos)
    ensures pos + 6 <= LastQuote(line) < |line|
    ensures LastQuote(line) > pos + 6 ==> UndnamePayload(line) == Some(line[pos + 7..LastQuote(line)])
    ensures LastQuote(line) == pos + 6 ==> UndnamePayload(line) == Some(line[pos + 7..])
  {
    FindFirst(line, Marker, 0);
    MarkerQuote(line, pos);
    PayloadSlice(line, pos);
    assert UndnamePayload(line) == Some(PayloadAt(line, pos));
  }

  /** The `substr` of line 196 for a marker at pos and a last '"' at last. */
  lemma PayloadSlice(line: string, pos: nat)
    requires pos + 6 <= LastQuote(line) < |line| < Modulus
    ensures LastQuote(line) > pos + 6 ==> PayloadAt(line, pos) == line[pos + 7..LastQuote(line)]
    ensures LastQuote(line) == pos + 6 ==> PayloadAt(line, pos) == line[pos + 7..]
  {
    var last: int := LastQuote(line);
    WrapNear(last - pos - 7);
  }

  /** The marker ends with a '"', so the last '"' is at or after it. */
  lemma MarkerQuote(line: string, pos: nat)
    requires HasAt(line, pos, Marker)
    ensures pos + 6 <= LastQuote(line) < |line|
  {
    assert line[pos + 6] == '"' by {
      assert line[pos..pos + 7][6] == line[pos + 6];
    }
  }
}
