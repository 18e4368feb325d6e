/**
 * `GetC2mMode` (clear2mangled/main.cpp:66-108): which search the command
 * line asks for, decided from which of the arguments were given.
 */
module Mode {
  import opened Wrappers

  /** `_C2MMODE` (main.cpp:17-26). */
  datatype C2mMode =
    | Unknown
    | Declaration
    | FileDeclaration
    | VirtualAddress
    | FileVirtualAddress
    | Rva
    | FileRva
  {
    /** The modes that read their queries from a file. */
    predicate ReadsFile() {
      this == FileDeclaration || this == FileVirtualAddress || this == FileRva
    }
  }

  /** `program.is_used(...)` for the five arguments the decision looks at. */
  datatype Used = Used(file: bool, script: bool, base: bool, rva: bool, declaration: bool)

  /** The exceptions of lines 68-87, one per message. */
  datatype ModeError =
    | ScriptWithoutFile      // "--file & --script must be used together."
    | BaseWithRva            // "--base & --rva can't be used together."
    | FileWithDeclaration    // "--file & declaration/va can't be used together."
    | RvaWithDeclaration     // "--rva & declaration/va can't be used together."
    | MissingDeclaration     // "declaration/va: 1 argument(s) expected. 0 provided."

  /** The conflict of line 68: a script needs a file. */
  predicate ScriptConflict(u: Used) {
    u.script && !u.file
  }

  /** The conflicts of lines 71-78, each tested only when the ones before it pass. */
  predicate BaseRvaConflict(u: Used) {
    !ScriptConflict(u) && u.base && u.rva
  }

  predicate FileDeclarationConflict(u: Used) {
    !ScriptConflict(u) && !(u.base && u.rva) && u.file && u.declaration
  }

  predicate RvaDeclarationConflict(u: Used) {
    !ScriptConflict(u) && !(u.base && u.rva) && !(u.file && u.declaration) && u.rva && u.declaration
  }

  /** Line 86: `--base` with nothing to read the address from. */
  predicate MissingAddress(u: Used) {
    !ScriptConflict(u) && !(u.base && u.rva) && !(u.file && u.declaration) && !(u.rva && u.declaration)
    && u.base && !u.declaration && !u.file
  }

  /**
   * The decision table of lines 66-108, stated without the order of the
   * `if`s: which error each conflict raises, and which mode each argument
   * selects. `ModeUnique` shows it leaves one answer.
   */
  predicate Decides(u: Used, r: Result<C2mMode, ModeError>) {
    && (r.Failure? <==>
      || (u.script && !u.file)
      || (u.base && u.rva)
      || (u.file && u.declaration)
      || (u.rva && u.declaration)
      || (u.base && !u.declaration && !u.file))
    && (ScriptConflict(u) ==> r == Failure(ScriptWithoutFile))
    && (BaseRvaConflict(u) ==> r == Failure(BaseWithRva))
    && (FileDeclarationConflict(u) ==> r == Failure(FileWithDeclaration))
    && (RvaDeclarationConflict(u) ==> r == Failure(RvaWithDeclaration))
    && (MissingAddress(u) ==> r == Failure(MissingDeclaration))
    && (r.Success? ==> (r.value.ReadsFile() <==> u.file))
    && (r.Success? ==> (r.value == Unknown <==> !u.base && !u.rva && !u.file && !u.declaration))
    && (r.Success? ==> (r.value == VirtualAddress || r.value == FileVirtualAddress <==> u.base))
    && (r.Success? ==> (r.value == Rva || r.value == FileRva <==> u.rva))
  }

  /**
   * Lines 66-108. The four conflicts are checked first, in this order; then
   * `--base`, `--rva` and the declaration decide the mode, and a file turns
   * it into the file mode.
   */
  function GetC2mMode(u: Used): (r: Result<C2mMode, ModeError>)
    ensures Decides(u, r)
  {
    if !u.file && u.script then Failure(ScriptWithoutFile)
    else if u.base && u.rva then Failure(BaseWithRva)
    else if u.file && u.declaration then Failure(FileWithDeclaration)
    else if u.rva && u.declaration then Failure(RvaWithDeclaration)
    else if u.base then
      if u.declaration then Success(VirtualAddress)
      else if u.file then Success(FileVirtualAddress)
      else Failure(MissingDeclaration)
    else if u.rva then
      if u.file then Success(FileRva) else Success(Rva)
    else if u.declaration then Success(Declaration)
    else if u.file then Success(FileDeclaration)
    else Success(Unknown)
  }

  /** The table fixes the answer: `GetC2mMode` is the only result it allows. */
  lemma ModeUnique(u: Used, r: Result<C2mMode, ModeError>)
    requires Decides(u, r)
    ensures r == GetC2mMode(u)
  {
  }

  /** A declaration alone selects `DECLARATION`, a file alone `FILE_DECLARATION` (lines 96-104). */
  lemma DeclarationModes(u: Used)
    ensures u == Used(false, false, false, false, true) ==> GetC2mMode(u) == Success(Declaration)
    ensures !u.script && u.file && !u.base && !u.rva && !u.declaration ==> GetC2mMode(u) == Success(FileDeclaration)
  {
  }
}
