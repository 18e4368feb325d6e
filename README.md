# clear2mangled in Dafny

clear2mangled finds the mangled (decorated) name of an export of a Windows PE
file from a clear C++ declaration, from a virtual address, or from an RVA. For
each export it runs `undname.exe` and keeps the text between `is :- "` and the
last `"` of every output line. The program has two variants, and both are
modelled.

The current variant is `c2m::State` in `clear2mangled/c2m.cpp`:

- It normalises that text with a fixed chain of regex rewrites (`SimplifyDeclaration`).
- It classifies the result as a C function, a variable (possibly a function pointer) or a C++ function. It also extracts the name it is searched by (`ParseDeclarationDetails`).
- It appends one `Export` record per line to `m_exports`.
- Its three lookups select records from `m_exports` in index order.

The older variant is in `clear2mangled/clear2mangled.cpp`:

- It cuts the access specifier off each clear name.
- Its fuzzy search extracts the `::name<arg` keys of the query. A query without keys is a C-style name: the exports whose clear name equals their mangled name and the query are kept. Otherwise it keeps the exports with the same keys, in the same order, whose edit distance to the query is below 100.
- Its other searches are by base plus virtual address and by RVA.

The model also covers the command-line mode decision of
`clear2mangled/main.cpp`.

Modules, in dependency order:

- `Wrappers` (`Option`, `Result`).
- `Machine`: 64-bit `size_t`/`uintptr_t` arithmetic, `npos` and `substr`.
- `Patterns`: the string helpers of c2m.cpp:7-46. Each regex the program uses is a hand-written scanner with ECMAScript leftmost, greedy semantics: `MatchAt` gives the end of the match that starts at a given index. `Leftmost`, `AllMatches`, `LastMatch` and `RewriteAll` are `regex_search`, the search loop, `FindLastMatch` and `regex_replace`.
- `Brackets`: `RemoveAngleBrackets`.
- `Normalizer`: `SimplifyDeclaration`.
- `Parser`: `DeclarationDetails` and `ParseDeclarationDetails`.
- `ParenGroups`: what the group pattern of c2m.cpp:259 finds, stated through parenthesis depth.
- `Filtering`: the "push every accepted record" loop shared by all lookups.
- `Exports`: `Export`, the `undname` payload and the `m_exports` index with its lookups, as the class `State`.
- `EditDistance`: `levenshtein_distance` on an `array2`.
- `Legacy`: the older variant, with the global `exports` vector as the class `Table`.
- `Mode`: `GetC2mMode`.

Loops of the source are methods with loop invariants, each proved equal to a
recursive specification function. The properties are stated about those
functions.

## Model

| member | source | states |
|---|---|---|
| Machine.WrapNear | clear2mangled/c2m.cpp:400 | a difference that is at most one modulus out of range wraps by adding or removing 2^64 |
| Patterns.Find | clear2mangled/c2m.cpp:9 | `find` returns an index at or after the start at which the whole substring fits |
| Patterns.FindFirst | clear2mangled/c2m.cpp:7-10 | `find` returns the first occurrence, and npos only when there is none |
| Patterns.HaveSubStringMeansOccurs | clear2mangled/c2m.cpp:7-10 | `HaveSubString` holds iff the substring occurs at some index |
| Patterns.HaveCharIff | clear2mangled/c2m.cpp:262-265 | a one-character substring is present iff the character is in the string |
| Patterns.RunEnd | clear2mangled/c2m.cpp:278 | a greedy character-class run ends at the first character outside the class |
| Patterns.MatchLiterals | clear2mangled/c2m.cpp:89-90 | an alternation matches one of its alternatives, and fails iff no alternative occurs at that index |
| Patterns.LastCall | clear2mangled/c2m.cpp:91 | the greedy `__\w+call` ends after the last "call" inside the word run |
| Patterns.LastBrace | clear2mangled/c2m.cpp:107 | the greedy `.+\}` ends at the last '}' of the line |
| Patterns.MatchBraceBlock | clear2mangled/c2m.cpp:107 | a `\{.+\}` match starts with '{', ends with '}' and has at least one character between them |
| Patterns.MatchParenGroup | clear2mangled/c2m.cpp:259 | a group match starts with '(' and ends with ')'; which ')' it ends at is stated by `ParenGroups.ParenGroupIff` |
| Patterns.MatchTemplateKey | clear2mangled/clear2mangled.cpp:271 | a `::[~\w]+<\w+` match is at least five characters long |
| Patterns.Leftmost | clear2mangled/c2m.cpp:19 | `regex_search` finds a match at its start, and no match starts earlier |
| Patterns.SearchAllSubStrings | clear2mangled/c2m.cpp:12-25 | the vector is cleared first and receives the successive non-overlapping matches; the result is true iff one was found |
| Patterns.MatchesOccur | clear2mangled/c2m.cpp:19-23 | every collected match is a substring of the input |
| Patterns.MatchesLong | clear2mangled/c2m.cpp:19-23 | every collected match is at least as long as the pattern's shortest match |
| Patterns.FindLastMatch | clear2mangled/c2m.cpp:27-38 | returns the last of the successive matches, or "" when there is none |
| Patterns.RewriteNotLonger | clear2mangled/c2m.cpp:89-107 | `regex_replace` with a replacement no longer than the shortest match never lengthens the text |
| Patterns.RewriteOmits | clear2mangled/c2m.cpp:104 | a character that starts a match wherever it occurs, and is not in the replacement, is absent from the output |
| Patterns.RewriteChars | clear2mangled/c2m.cpp:89-107 | every character of the output comes from the input or from the replacement |
| Patterns.RewriteNoMatch | clear2mangled/c2m.cpp:89-107 | a text without any match is returned unchanged |
| Patterns.ReplaceSubstring | clear2mangled/c2m.cpp:40-46 | the in-place replace-all loop, resuming after each replacement, yields the left-to-right replacement of every occurrence |
| Patterns.ReplaceNotLonger | clear2mangled/c2m.cpp:40-46 | replacing by something no longer never lengthens the string |
| Patterns.ReplaceAbsent | clear2mangled/c2m.cpp:42 | a string without an occurrence is left unchanged |
| Patterns.ReplaceSkip | clear2mangled/c2m.cpp:42-44 | a prefix without an occurrence is kept as it is |
| Brackets.RemoveAngleBrackets | clear2mangled/c2m.cpp:48-81 | the depth scan records the top-level `<...>` regions, and every occurrence of each one is deleted in turn |
| Brackets.ClosedRegion | clear2mangled/c2m.cpp:65-71 | the region recorded when the depth returns to 0 is balanced |
| Brackets.RegionsBalanced | clear2mangled/c2m.cpp:55-73 | every recorded region starts with '<', ends with '>' and has matched depth; the start index is set whenever the depth is positive |
| Brackets.AngleRegionsBalanced | clear2mangled/c2m.cpp:55-73 | every region recorded for a string is balanced |
| Brackets.ScanBalanced | clear2mangled/c2m.cpp:55-73 | a balanced region met at depth 0 is recorded whole, and the scan resumes after it at depth 0 |
| Brackets.NoTemplates | clear2mangled/c2m.cpp:48-81 | an input without '<' records no region and is returned unchanged |
| Brackets.OneTemplate | clear2mangled/c2m.cpp:48-81 | an input with exactly one top-level balanced region loses exactly that region, and the output has no '<' or '>' |
| Brackets.DeleteOne | clear2mangled/c2m.cpp:76-79 | deleting a region that occurs once removes just that occurrence |
| Brackets.StripTemplatesNotLonger | clear2mangled/c2m.cpp:48-81 | the output is never longer than the input |
| Normalizer.ApplySplit | clear2mangled/c2m.cpp:89-107 | the chain of rewrites composes: running two blocks of rules is running the first, then the second on its result |
| Normalizer.ApplyNotLonger | clear2mangled/c2m.cpp:89-107 | a chain of rules that each replace by something no longer never lengthens the text |
| Normalizer.ApplyKeepsOut | clear2mangled/c2m.cpp:105-107 | a character absent from the text and from every replacement stays absent |
| Normalizer.ApplyEmpty | clear2mangled/c2m.cpp:89-107 | every rule maps "" to "" |
| Normalizer.RulesShrink | clear2mangled/c2m.cpp:89-107 | each of the 16 replacements is no longer than the shortest text its pattern matches |
| Normalizer.SimplifyNotLonger | clear2mangled/c2m.cpp:85-113 | `SimplifyDeclaration` never lengthens its input |
| Normalizer.SimplifyEmpty | clear2mangled/c2m.cpp:85-113 | the empty declaration simplifies to "" |
| Normalizer.Unquote | clear2mangled/c2m.cpp:104 | after line 104 no '`' or '\'' is left |
| Normalizer.SimplifyUnquoted | clear2mangled/c2m.cpp:104-110 | the simplified declaration has no '`' or '\'', because the later steps only delete |
| Parser.GroupStart | clear2mangled/c2m.cpp:292 | the position of the first group is within the declaration |
| Parser.FindStar | clear2mangled/c2m.cpp:296 | `find("* ")` is npos or leaves room for both characters |
| Parser.Parse | clear2mangled/c2m.cpp:256-318 | C function and variable are never both set; without groups one of them is; the constructor flag is set iff the name is `default_constructor_closure` |
| Parser.ParseDeclarationDetails | clear2mangled/c2m.cpp:256-318 | filling a value-initialised `details` field by field gives `Parse` of the declaration |
| Parser.GroupFound | clear2mangled/c2m.cpp:292 | the first group is found in the declaration, so `find` never returns npos there |
| Parser.NoGroups | clear2mangled/c2m.cpp:259-289 | without a group, the declaration is a C function iff it has none of ' ', '<', '>', ':'. A C function is named by the whole declaration; otherwise the declaration is a variable |
| Parser.PointerNameText | clear2mangled/c2m.cpp:296-297 | the function-pointer name runs from two past the first "* " to the end of the group, trailing ')' included, or from the group's second character when there is no "* " |
| Parser.FunctionPointer | clear2mangled/c2m.cpp:292-297 | when the first group follows a space, the declaration is a variable and is named from that group |
| Parser.OrdinaryName | clear2mangled/c2m.cpp:299-309 | when the text before the first group is x + `::` + v, with no '<' in x and v a word run or '~' and a word run, the declaration is neither C function nor variable and its name is v |
| Parser.OrdinaryDestructor | clear2mangled/c2m.cpp:299-316 | for such a declaration, the destructor flag is set iff v starts with '~' or is `vbase_destructor` |
| Parser.FooExample | clear2mangled/c2m.cpp:256-309 | `void N::Foo(int)` is a function, neither C function nor variable, named `Foo` |
| Parser.DestructorExample | clear2mangled/c2m.cpp:256-316 | `N::~N(void)` is named `~N` and is a destructor |
| Parser.CleanNameKeeps | clear2mangled/c2m.cpp:307-309 | a name without ':' and without a leading space is kept |
| Parser.NoDoubleColon | clear2mangled/c2m.cpp:307 | deleting every "::" left to right leaves no "::" |
| Parser.NameHasNoScope | clear2mangled/c2m.cpp:307-309 | the final name holds no "::", in every branch |
| Parser.DestructorIff | clear2mangled/c2m.cpp:315-316 | the destructor flag is set iff the name contains '~' or is `vbase_destructor` |
| ParenGroups.BodyComplete | clear2mangled/c2m.cpp:259 | from inside a group at depth one or two, the body scan reaches the ')' that closes the group's '(' |
| ParenGroups.BodySound | clear2mangled/c2m.cpp:259 | whatever the body scan returns is the ')' that closes the group's '(', with the depth inside staying one or two above it |
| ParenGroups.ParenGroupIff | clear2mangled/c2m.cpp:259 | the pattern matches from i to j iff the '(' at i is closed by the ')' at j - 1 and nothing inside nests more than two deep |
| ParenGroups.GroupsAreTopLevel | clear2mangled/c2m.cpp:12-25 | with the pattern of line 259, on a balanced declaration nesting at most two deep, the collected groups are its top-level groups, left to right, delimiters included |
| ParenGroups.ExampleGroups | clear2mangled/c2m.cpp:259 | `void N::Foo(int)` has the one group `(int)` |
| Filtering.Filter | clear2mangled/c2m.cpp:375-384 | a lookup never returns more records than the index holds |
| Filtering.FilterMembers | clear2mangled/c2m.cpp:375-384 | a record is returned iff it is in the index and the test accepts it |
| Filtering.FilterAppend | clear2mangled/c2m.cpp:404-407 | the results keep index order: the lookup distributes over concatenation |
| Filtering.FilterAgree | clear2mangled/c2m.cpp:377-380 | tests that agree on every record select the same records |
| Exports.FindLast | clear2mangled/c2m.cpp:196 | `find_last_of` returns the last index holding the character, or nothing when there is none |
| Exports.LastQuote | clear2mangled/c2m.cpp:196 | the last '"' is npos or inside the line |
| Exports.UndnamePayload | clear2mangled/c2m.cpp:191-194 | a line yields a payload iff it contains `is :- "` |
| Exports.MarkerQuote | clear2mangled/c2m.cpp:191-196 | the marker's own '"' bounds the last '"' from below |
| Exports.PayloadText | clear2mangled/c2m.cpp:190-196 | the payload is the text between the marker and the last '"', or runs to the end of the line when the marker's '"' is the last one |
| Exports.Entry | clear2mangled/c2m.cpp:196-208 | every record built from a payload is consistent: its details are the parse of its declaration, and that declaration holds no quote character |
| Exports.State.AddUndnameLine | clear2mangled/c2m.cpp:190-208 | one output line appends at most one record, and every record stays consistent |
| Exports.State.AddExport | clear2mangled/c2m.cpp:188-209 | the records of one export are appended in line order |
| Exports.State.LoadExports | clear2mangled/c2m.cpp:179-213 | the index grows by the records of every export, in table order |
| Exports.State.Lookup | clear2mangled/c2m.cpp:375-384 | the loop returns the records the test accepts, in index order, and leaves the index unchanged |
| Exports.State.FindByDeclaration | clear2mangled/c2m.cpp:364-384 | the query is simplified and parsed, then compared on name, C function, constructor and destructor |
| Exports.State.FindByAddress | clear2mangled/c2m.cpp:398-407 | the address lookup is the RVA lookup at (address - base) mod 2^64 |
| Exports.State.FindByRva | clear2mangled/c2m.cpp:423-430 | the RVA lookup returns the records with that RVA, in index order |
| Exports.VariableIgnored | clear2mangled/c2m.cpp:377-380 | the declaration lookup does not depend on the `Variable` flag |
| Exports.RvaLookup | clear2mangled/c2m.cpp:427-430 | the RVA lookup returns exactly the records with that RVA, in index order |
| Exports.FindsOwnDeclaration | clear2mangled/c2m.cpp:366-380 | a record is found by the declaration it was built from |
| Exports.State.FindsEveryRecord | clear2mangled/c2m.cpp:366-384 | in a valid index every record is found by the declaration lookup of any declaration that simplifies to its own |
| Exports.AddressRva | clear2mangled/c2m.cpp:400 | below the base address the RVA wraps around 2^64 |
| EditDistance.FillBorders | clear2mangled/clear2mangled.cpp:145-150 | column 0 holds i and row 0 holds j |
| EditDistance.FillRow | clear2mangled/clear2mangled.cpp:152-164 | the inner loop fills row i with the distances from s1[..i] and leaves the other rows alone |
| EditDistance.NextEntry | clear2mangled/clear2mangled.cpp:154-161 | the entry computed from its three neighbours is the recurrence's value |
| EditDistance.EqualStep | clear2mangled/clear2mangled.cpp:154-156 | on equal characters, taking the diagonal alone gives the same value as the full minimum |
| EditDistance.DropRight | clear2mangled/clear2mangled.cpp:157-160 | removing the last character of the second string changes the distance by at most one |
| EditDistance.DropLeft | clear2mangled/clear2mangled.cpp:157-160 | removing the last character of the first string changes the distance by at most one |
| EditDistance.LowerBound | clear2mangled/clear2mangled.cpp:139-166 | the distance is at least the difference of the lengths |
| EditDistance.Bounds | clear2mangled/clear2mangled.cpp:139-166 | the distance lies between the difference and the larger of the lengths |
| EditDistance.ZeroIff | clear2mangled/clear2mangled.cpp:139-166 | the distance is 0 iff the prefixes are equal |
| EditDistance.DistanceFacts | clear2mangled/clear2mangled.cpp:145-150 | d(s, t) = 0 iff s = t; d(s, "") = \|s\| and d("", t) = \|t\|; \|s\| - \|t\| <= d(s, t) <= max(\|s\|, \|t\|) |
| EditDistance.LevenshteinDistance | clear2mangled/clear2mangled.cpp:139-166 | the returned `dp[len1][len2]` is the edit distance of the two strings |
| Legacy.StripAccess | clear2mangled/clear2mangled.cpp:57-65 | the result is a suffix of the clear name |
| Legacy.StripUnmarked | clear2mangled/clear2mangled.cpp:57-65 | a name without any of the three markers is unchanged |
| Legacy.StripLeading | clear2mangled/clear2mangled.cpp:57-65 | a name that starts with one specifier and holds no other marker loses exactly that specifier |
| Legacy.Absent | clear2mangled/clear2mangled.cpp:61-65 | a later marker cannot appear across the end of an earlier specifier |
| Legacy.Table.AddExport | clear2mangled/clear2mangled.cpp:49-74 | each output line with the marker appends one entry with the stripped payload |
| Legacy.Table.GenerateNames | clear2mangled/clear2mangled.cpp:38-77 | the vector grows by the entries of every export, in table order |
| Legacy.Table.FuzzySearch | clear2mangled/clear2mangled.cpp:264-336 | returns the C-style matches when the name has no key, and the similar exports otherwise, in table order |
| Legacy.IsSimilar | clear2mangled/clear2mangled.cpp:305-335 | an export is kept iff its key list equals the query's and its distance from the query is below 100 |
| Legacy.SameKeys | clear2mangled/clear2mangled.cpp:319-326 | the element-wise loop with early exit decides equality of two lists of the same length |
| Legacy.Table.SearchByBase | clear2mangled/clear2mangled.cpp:353-373 | without an address it fails; otherwise it returns the entries whose RVA is (va - base) mod 2^64 |
| Legacy.Table.SearchRva | clear2mangled/clear2mangled.cpp:389-401 | returns the entries with that RVA, in table order |
| Legacy.SignExtend | clear2mangled/clear2mangled.cpp:362-363 | the `int` from `stoi` is sign-extended before the subtraction, which equals wrapping the plain difference |
| Legacy.CStyleSearch | clear2mangled/clear2mangled.cpp:284-295 | with no key in the query, the result is exactly the exports with clear name = mangled name = query |
| Legacy.KeyedSearch | clear2mangled/clear2mangled.cpp:303-336 | with keys, the result is exactly the exports with the same keys in the same order and distance below 100 |
| Legacy.FindsExactName | clear2mangled/clear2mangled.cpp:284-336 | an export whose clear name is the query is found: with keys its distance is 0, without them it needs mangled name = query |
| Legacy.RvaSearch | clear2mangled/clear2mangled.cpp:394-401 | the RVA search returns exactly the entries with that RVA |
| Mode.GetC2mMode | clear2mangled/main.cpp:66-108 | fails exactly on --script without --file, --base with --rva, --file or --rva with a declaration, or --base with neither a declaration nor --file. Each conflict raises its own error when the ones tested before it pass, in the order script, base with rva, file with declaration, rva with declaration, missing address. On success: a file mode iff --file; `UNKNOWN` iff none of --base, --rva, --file and the declaration; an address mode iff --base; an RVA mode iff --rva |
| Mode.ModeUnique | clear2mangled/main.cpp:66-108 | the decision table leaves one answer: any result that meets it is the one `GetC2mMode` returns |
| Mode.DeclarationModes | clear2mangled/main.cpp:96-104 | a declaration alone gives `DECLARATION`; --file alone, without a script, gives `FILE_DECLARATION` |

## Left out

- PE parsing and process I/O are not modelled: the export table from `libpe` and the lines `undname.exe` prints are the input (`ExportedFunction.undnameLines`). Also left out are the `_popen`/`_pclose` failures and the reading of each line in 1022-byte `fgets` chunks.
- The JSON cache (`SaveToCacheFile`, `LoadExportsFromCacheFile`, `generate_cache`, `read_cache`). Its text format comes from jsoncpp, which is not part of this model. The RVA is read back with `asUInt()`, so a round trip would not hold for RVAs of 2^32 or more.
- Files, paths and the cache directory (`LoadFile`, `ReadFileLines`). Also argparse and the `--script` hook. The hexadecimal parsing of `stoi`/`stoll` is not modelled: `SearchByBase` takes the parsed `int`, or None when the argument is missing.
- All printing: `PrintExport`, `PrintSearchTargetDetails`, the "not found" messages and the debug line of c2m.cpp:367. A lookup returns its results instead. The source collects pointers into `m_exports`; the model returns copies, which the caller cannot tell apart because no lookup changes the index.
- The dispatch of `main` in both variants: which search runs for which arguments. `GetC2mMode` models the decision of the current variant.
- A first parenthesis group at index 0 makes line 292 read `declaration[-1]`, which is undefined behaviour. The model reads that case as "not after a space", which is the ordinary-function branch.
- The missing `return` at the end of `generate_names` and of two other I/O functions is undefined behaviour and is not modelled.
- `std::regex` is not modelled in general. Only the patterns the program uses are modelled, each as its own scanner.
- ParenGroups.GroupsAreTopLevel: stated only for declarations nesting at most two deep. Deeper nesting is matched as the regex of line 259 matches it (an attempt fails at the third level and the search moves on), and `ParenGroupIff` describes each attempt, but the resulting list is not described as a whole.
- Parser.Parse: the simplification of `public: static void __cdecl N::Foo(int)` to `void N::Foo(int)` is not stated on that text, because unfolding the sixteen rewrite scanners over a string literal exceeds the resource limit. Its general properties (no lengthening, no quotes) are stated instead, and the parse of the result is stated by `FooExample`.
- Parser.OrdinaryName: stated only when the text before the first group ends in `::` followed by an identifier. Without a `::`, or with template arguments or other name characters (' ', '*', '=', ...) after it, the name is still the last match of line 303's pattern, which also runs across spaces, but no closed form is stated for it.
- `SimplifyDeclaration` is not idempotent, and no such property is claimed. Three leading spaces and `x` give `" x"`, and a second pass gives `"x"`.
- EditDistance.LevenshteinDistance: the table holds C++ `int`s; the model does not bound them, so strings longer than 2^31 - 1 characters are outside what the source handles.
- The symmetry of the edit distance (the printed distance at clear2mangled.cpp:345 swaps the arguments) is not stated.
- Legacy.StripAccess: no lemma states what happens when a marker occurs anywhere but at the start. The code cuts the first 9, 11 or 8 characters wherever the marker is found; the model computes exactly this, and only the leading case is stated.
