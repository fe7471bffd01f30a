# Verified model of scythe's generator core

scythe turns annotated SQL into typed code for many languages. This project models, in Dafny, the
algorithmic core of that generator and of the harnesses around it, and proves what the code and its
documentation promise of it. `dafny verify dfyconfig.toml` checks everything.

| modules | what they model |
|---|---|
| `NeutralTypes`, `CompositeGraph`, `CompositeOrder`, `DiscoveryOrder`, `TieOrder`, `CompositeEmission`, `DefinitionEmission` | which composite definitions a generated file needs, and in which order they appear |
| `EditScript`, `KeyOrder`, `ByteOrder`, `KeySuggestions` | the two edit-distance loops and the "did you mean" rejections built on them |
| `HeaderFields`, `ProvenanceHeader`, `JavaUnicode`, `HeaderComments`, `Fnv`, `OptionsFingerprint` | the provenance header line, its two readers, the host languages' comments, and the fingerprint of a target's options |
| `SqlLiterals`, `HostNewlines`, `InterpolatedLiterals`, `RustRawStrings` | SQL text spliced into the string literals of nine host languages, with a lexer for each |
| `Naming`, `NameShapes`, `TypeResolver`, `TypeMeaning`, `ManifestOverlay` | case conversion, neutral-type resolution, and manifests overlaid in place |
| `StatementLexer`, `ScannerModes`, `SqlSplitter`, `SplitterLaws` | the statement splitter of two integration harnesses |
| `NestedDegradation`, `DivergenceRegistry` | the fallback for struct types a backend does not render, and the register of known conformance failures |
| `Wrappers`, `Text` | options and results; trimming, searching, replacing and UTF-8 |

Code that loops over mutable variables is a method with invariants, tied by its `ensures` to a
function; the theorems are about those functions. The depth-first walk and the manifest are classes
because the source updates them in place. Expressions and recursion stay functions.

Results that qualify what the source's comments say:

- The comment on `composites_in_dependency_order` (crates/scythe-codegen/src/lib.rs:477-480) says ties
  keep their relative order. `TieIsOvertaken` is an input on which they do not. The order is by the
  first input that leads to each composite, on every catalog (`TiesFollowFirstRoots`); without cycles
  `AllTiesKeptIff` has the exact condition, by first roots and then by fields, and the input is
  unchanged exactly when no composite names a later one (`OrderUnchangedIff`).
- The same comment (lines 482-485) says a cycle degrades to discovery order. `TwoCycleIsReversed` is an
  input on which it does not, and `CyclesLeaveDiscoveryOrder` shows that no cycle of two or more does.
- The comment on `sanitize_field` (crates/scythe-codegen/src/provenance.rs:122-125) calls the header
  always a comment, whatever a caller passes in. Java reads `\u{20}` as a malformed escape even in a
  comment, PHP ends a line comment at a closing tag, and Go and Elixir refuse characters that the
  encoding keeps. `HeaderIsCommentIff` has the exact condition, `JavaRejectsSpace`, `PhpLeavesTagLive`
  and `GoRefusesMark` have inputs, and the other hosts are unconditional.
- A file defines its composites before use exactly when no emitted composite is on a reference cycle.
- The Ruby escape covers `#{` only. Ruby also interpolates variables without braces; `RubyReadsBack`
  has the exact condition, and `RubyShortFormIsLost` and `RubyPlaceholderIsLost` have inputs.
- Python reads a carriage return in a literal as a newline, and Ruby one before a newline; both are in
  the exact conditions of `PythonReadsBack` and `RubyReadsBack`.
- Rust reads a carriage return before a newline as the newline before it reads literals, so such SQL
  compiles to other text (`RustDropsReturn`); any other carriage return is refused, and so is a raw
  literal with more than 255 hashes. `RustReadsBack` and `RawLiteralReadsBack` have both conditions.
- Go refuses NUL and U+FEFF in a literal, Python NUL, Elixir characters that change the direction of
  text; these are in the exact conditions too.
- A header is found exactly when it is within the 20 lines the verifier scans; the preamble need not
  end in a newline.
- The command-line verifier does not decode the fields it reads and compares encodings instead;
  `EngineDriftIsDecided` shows that this decides the same question.
- The two ports of the splitter trim differently: JavaScript treats U+FEFF as blank, .NET treats
  U+0085 as blank. They agree exactly where no piece has such an end.
- `a_b` and `ab` become `AB` and `Ab`; snake case returns the first one as `ab`. `SnakeInvertsPascal`
  has the exact condition on word boundaries.

Texts are sequences of Unicode scalar values, except in the splitter, whose two languages work on
UTF-16 code units. Hash-map iteration order is a nondeterministic choice, so what is proved holds for
every order.

## Model

| member | source | states |
|---|---|---|
| NeutralTypes.UnwrapContainers | crates/scythe-codegen/src/lib.rs:536-547 | the loop ends, for every string, with text that is neither `array<…>` nor `nullable<…>`, and that text is the innermost type |
| NeutralTypes.InnermostOfPrinted | crates/scythe-codegen/src/lib.rs:536-547 | for every wrapper tree of any depth with blank padding inside the brackets, unwrapping its spelling gives the wrapped core |
| NeutralTypes.EveryStringIsPrinted | crates/scythe-codegen/src/lib.rs:536-547 | conversely every string spells such a tree whose core is what unwrapping returns, so nothing is left half unwrapped |
| CompositeGraph.NamedIff | crates/scythe-codegen/src/lib.rs:500-506 | a type names a composite exactly when its innermost type is `composite::` and that name |
| CompositeGraph.ClosedUnderWalks | crates/scythe-codegen/src/lib.rs:582-611 | a set closed under field references contains everything any chain of references leads to |
| CompositeOrder.DependencyWalk.Visit | crates/scythe-codegen/src/lib.rs:489-511 | from any state of the walk, cycles included: the path set is restored, nothing placed is disturbed, everything new is reached from the visited composite, which ends up placed or on the path, and what is placed is exactly the post-order of the fields in their order. Terminates because the names neither placed nor on the path shrink |
| CompositeOrder.PlacedAlone | crates/scythe-codegen/src/lib.rs:489-511 | a fresh visit places its composite and nothing else exactly when every supplied composite it names is placed, on the path or itself |
| CompositeOrder.CompositesInDependencyOrder | crates/scythe-codegen/src/lib.rs:483-517 | for every catalog with unique names, cyclic or not: a permutation of the input; D stands before C for every reference C to D unless D leads back to C; composites are ordered by the first input that leads to each, and an input that is its own first root is the last of its group; the input is returned unchanged if and only if every composite names only itself and earlier ones |
| CompositeOrder.OrderUnchangedIff | crates/scythe-codegen/src/lib.rs:477-485 | discovery order is kept if and only if no composite names a later one |
| CompositeGraph.ClosedWithinSupplied | crates/scythe-codegen/src/lib.rs:489-511 | a set closed under references to supplied composites holds every supplied composite a chain from it leads to |
| CompositeGraph.WalksGoBack | crates/scythe-codegen/src/lib.rs:456-517 | in a list whose definitions name only themselves and earlier ones, no chain of references leads to a later definition |
| DiscoveryOrder.FirstRootExists | crates/scythe-codegen/src/lib.rs:513-515 | every supplied composite has a first root, at or before its own position |
| DiscoveryOrder.FirstRootIsUnique | crates/scythe-codegen/src/lib.rs:513-515 | and only one |
| DiscoveryOrder.TiesFollowFirstRoots | crates/scythe-codegen/src/lib.rs:477-480 | of two composites with different first roots the one with the earlier root is placed first, related or not, so an unrelated pair with different first roots is swapped exactly when the later one has the earlier root |
| DiscoveryOrder.RootFollowsItsOwn | crates/scythe-codegen/src/lib.rs:477-480 | an input that is its own first root follows everything else it is the first to lead to |
| TieOrder.VisitPlacesBelow | crates/scythe-codegen/src/lib.rs:489-511 | without cycles, from any settled state, a visit places exactly what its composite leads to and is not placed yet, each once |
| TieOrder.SoonerDecides | crates/scythe-codegen/src/lib.rs:500-506 | without cycles, of two unrelated composites neither of which is placed, a visit that leads to both places first the one that an earlier field leads to, the question passing down a field that is the first to lead to both |
| TieOrder.OneRootDecides | crates/scythe-codegen/src/lib.rs:477-480 | two unrelated composites with one first root come out in the order the fields below that root give |
| TieOrder.EarlierRootDecides | crates/scythe-codegen/src/lib.rs:477-480 | two composites with different first roots come out in the order of the roots |
| TieOrder.TieDecided | crates/scythe-codegen/src/lib.rs:477-480 | on every catalog without cycles, of two unrelated composites one comes out first if and only if its first root is earlier, or they have one first root whose fields lead to it sooner |
| TieOrder.AllTiesKeptIff | crates/scythe-codegen/src/lib.rs:477-480 | every tie keeps its discovery order if and only if that condition, which looks at inputs and fields alone, holds for all unrelated inputs i before j |
| DiscoveryOrder.TieIsOvertaken | crates/scythe-codegen/src/lib.rs:477-480 | an input on which a composite overtakes an unrelated one discovered before it |
| DiscoveryOrder.FieldsDecideWithinARoot | crates/scythe-codegen/src/lib.rs:500-506 | with one first root the order of the fields decides: an input on which a later input comes first |
| DiscoveryOrder.CyclesLeaveDiscoveryOrder | crates/scythe-codegen/src/lib.rs:482-485 | a catalog in which two different composites lead to each other is never left in discovery order |
| DiscoveryOrder.TwoCycleIsReversed | crates/scythe-codegen/src/lib.rs:482-485 | an input: two composites that hold each other come out reversed |
| CompositeEmission.ReferencedMeansNamed | crates/scythe-codegen/src/lib.rs:556-566 | comparing a column's or parameter's unwrapped type with the prefixed name selects exactly the composites that stripping the prefix, as the field walk does, would find there |
| CompositeEmission.ReachableCompositeNames | crates/scythe-codegen/src/lib.rs:582-611 | the worklist ends and holds exactly the names reached by a chain of field references from a root: a composite referenced by a column, a parameter or a nested struct |
| CompositeEmission.NeededIsLeastClosed | crates/scythe-codegen/src/lib.rs:582-611 | those names are the least set that contains the roots and is closed under field references |
| CompositeEmission.EmitComposites | crates/scythe-codegen/src/lib.rs:286-311 | the emitted definitions are exactly the supplied composites that are needed, each once, in the order of the walk: dependencies first outside cycles, unrelated ones on a catalog without cycles as first roots and fields decide, and in input order when the catalog is already ordered; each in nested form exactly when a nested struct names it |
| CompositeEmission.KeptInOrder | crates/scythe-codegen/src/lib.rs:288-302 | skipping composites keeps the order of the others |
| CompositeEmission.OrderDecidesTies | crates/scythe-codegen/src/lib.rs:286-311 | a list in the order of the walk breaks every tie as the walk does |
| CompositeEmission.KeptDependenciesFirst | crates/scythe-codegen/src/lib.rs:286-311 | skipping unneeded composites never leaves a reference of a kept one without its earlier definition |
| CompositeEmission.DefineBeforeUse | crates/scythe-codegen/src/lib.rs:286-311 | on an acyclic catalog, a supplied composite named by a field of an emitted definition, through any depth of wrappers and padding, is emitted earlier |
| CompositeEmission.DefinesBeforeUseIff | crates/scythe-codegen/src/lib.rs:286-311 | the emitted file defines everything before use if and only if no emitted composite is on a reference cycle; with such a cycle no order at all would do |
| DefinitionEmission.CollectComposites | crates/scythe-codegen/src/lib.rs:440-456 | the loops collect exactly the composites named, through any depth of wrappers, by fields of structs whose name has a definition |
| DefinitionEmission.DefsAreRendered | crates/scythe-codegen/src/lib.rs:842-852 | a name has a definition exactly when the backend rendered a struct of that name |
| DefinitionEmission.EmitDefinitions | crates/scythe-codegen/src/lib.rs:229-311 | degradation, collection and emission composed: the composites defined are exactly those that a column, a parameter or a field of a rendered struct leads to, each once, in the order `EmitComposites` promises, beside the degraded columns, definitions and reports; or the first error from rendering a nested struct is the result (errors from rendering a composite are left out) |
| DefinitionEmission.RefusedStructAddsNothing | crates/scythe-codegen/src/lib.rs:612-636 | a struct the backend refuses, and renders under no other struct of its name, adds nothing to what is used, so nothing only it leads to is defined |
| DefinitionEmission.DegradingKeepsReferences | crates/scythe-codegen/src/lib.rs:858-886 | degrading a column changes no reference to a composite |
| EditScript.BestScript | crates/scythe-backend/src/manifest.rs:193-208 | the distance is achieved by a script of insertions, deletions and substitutions |
| EditScript.NoCheaperScript | crates/scythe-backend/src/manifest.rs:193-208 | no script turning one text into the other costs less |
| EditScript.DistanceIsLeastCost | crates/scythe-backend/src/manifest.rs:193-208 | the recurrence is the minimum over all scripts, for all strings |
| EditScript.InverseUndoes | crates/scythe-backend/src/manifest.rs:193-208 | every script has an inverse of the same cost |
| EditScript.Fuse | crates/scythe-backend/src/manifest.rs:193-208 | two scripts that meet in the middle fuse into one that costs no more than both |
| EditScript.ZeroIffEqual | crates/scythe-backend/src/manifest.rs:193-208 | distance zero means equal texts, and conversely |
| EditScript.Symmetric | crates/scythe-backend/src/manifest.rs:193-208 | the distance is symmetric |
| EditScript.TriangleInequality | crates/scythe-backend/src/manifest.rs:193-208 | the triangle inequality |
| EditScript.LengthBounds | crates/scythe-backend/src/manifest.rs:193-208 | the distance lies between the length difference and the longer length |
| KeySuggestions.EditDistance | crates/scythe-backend/src/manifest.rs:193-208 | the swapped-row array loop returns the least script cost, for all strings |
| KeySuggestions.LevenshteinDistance | crates/scythe-codegen/src/backend_options.rs:55-74 | so does the second implementation, hence both always agree |
| KeySuggestions.LoopsAreOneMetric | crates/scythe-codegen/src/backend_options.rs:55-74 | whatever least cost either loop returns is one number and obeys the four metric laws |
| KeySuggestions.NearestIsFirstNearest | crates/scythe-backend/src/manifest.rs:213-220 | no suggestion exactly when no candidate is within the threshold; otherwise the first of the nearest candidates |
| KeySuggestions.SuggestionIsNearMiss | crates/scythe-backend/src/manifest.rs:213-220 | a suggestion for an unknown key is a candidate at distance 1 up to the threshold, nearer than or as near as every other |
| KeySuggestions.RivalSuggestionsAreClose | crates/scythe-backend/src/manifest.rs:213-220 | two candidates within the threshold of one key are within twice the threshold of each other |
| KeySuggestions.SuggestionIsStableIff | crates/scythe-backend/src/manifest.rs:258-268 | all orders a hash map may yield its keys in give one suggestion if and only if at most one key is at the nearest distance within the threshold |
| KeySuggestions.TieGoesEitherWay | crates/scythe-backend/src/manifest.rs:258-268 | of two tied keys each is the suggestion for some order |
| KeySuggestions.RejectUnknownKeys | crates/scythe-backend/src/manifest.rs:228-253 | accepts exactly overlays whose keys are all known; otherwise reports the smallest unknown key with its nearest known one, for every iteration order of the map |
| KeySuggestions.RejectUnknownOptions | crates/scythe-codegen/src/backend_options.rs:24-51 | the same for options, with the fixed threshold 2 and a sort of all keys |
| KeySuggestions.ReportIsDetermined | crates/scythe-backend/src/manifest.rs:235-253 | the reported key and suggestion leave no choice once the candidates are listed |
| KeyOrder.SortedIsUnique | crates/scythe-codegen/src/provenance.rs:434-441 | with distinct keys only one sorted arrangement exists |
| KeyOrder.SortForgetsInputOrder | crates/scythe-codegen/src/provenance.rs:439-441 | the order entries arrived in does not survive the sort |
| ByteOrder.LeIsByteOrder | crates/scythe-codegen/src/provenance.rs:434-441 | the order keys are sorted in, by code points, is the lexicographic order of their UTF-8 bytes |
| ByteOrder.CharOrder | crates/scythe-codegen/src/provenance.rs:434-441 | of two characters the encoding of the smaller has the smaller byte where they first differ |
| Text.Utf8Decodes | crates/scythe-backend/src/manifest.rs:214 | the encoding of every character reads back as section 3 of RFC 3629 lays it out |
| Text.BlanksAre | crates/scythe-codegen/src/provenance.rs:113-115 | the 25 characters taken for blanks, one by one |
| Text.ControlsAre | crates/scythe-codegen/src/provenance.rs:113-115 | the characters taken for controls |
| HeaderFields.SanitizeField | crates/scythe-codegen/src/provenance.rs:146-162 | the buffer loop, with its fast path, computes the per-character encoding |
| HeaderFields.DecodeField | crates/scythe-codegen/src/provenance.rs:188-212 | the cursor loop, with its fast path, computes the decoding for every text, malformed escapes included |
| HeaderFields.HexRoundTrip | crates/scythe-codegen/src/provenance.rs:155-173 | hexadecimal printing and reading are inverse, without bound |
| HeaderFields.UnicodeEscapeReadsBack | crates/scythe-codegen/src/provenance.rs:168-173 | the printed escape of any character is read back as that character, whatever follows |
| HeaderFields.DecodeSanitize | crates/scythe-codegen/src/provenance.rs:146-212 | decoding undoes encoding, for every text |
| HeaderFields.SanitizeInjective | crates/scythe-codegen/src/provenance.rs:146-162 | two texts have one encoding exactly when they are equal |
| HeaderFields.SanitizedIsLineSafe | crates/scythe-codegen/src/provenance.rs:113-162 | encoded text holds no whitespace and no control character |
| HeaderFields.EscapeSpelled | crates/scythe-codegen/src/provenance.rs:127-162 | one character becomes two backslashes, itself, or `\u{…}` around its code point in small hexadecimal digits without leading zeros, by its class |
| HeaderFields.UnchangedIff | crates/scythe-codegen/src/provenance.rs:127-150 | a text is its own encoding exactly when it holds no backslash, blank or control character |
| HeaderFields.UnicodeEscapeIff | crates/scythe-codegen/src/provenance.rs:168-173 | an escape is read exactly where `u{`, hexadecimal digits of a scalar value in either case, one `+` allowed, and `}` stand |
| HeaderFields.StrayBackslashStays | crates/scythe-codegen/src/provenance.rs:188-212 | any other backslash but a doubled one stands for itself |
| HeaderFields.HexValueIs | crates/scythe-codegen/src/provenance.rs:168-173 | a digit's value is its place in either spelling of the sixteen digits |
| HeaderFields.OldHeadersReadAsIs | crates/scythe-codegen/src/provenance.rs:188-212 | text without a backslash decodes to itself |
| ProvenanceHeader.BuiltLine | crates/scythe-codegen/src/provenance.rs:330-354 | the format string is the comment token, the sentinel, the rendered fields, the suffix and a newline, with five or six fields |
| ProvenanceHeader.HeaderSpelled | crates/scythe-codegen/src/provenance.rs:330-354 | the line character for character around the encoded values, each language's token and Python's suppression included |
| ProvenanceHeader.WithoutHeader | crates/scythe-codegen/src/provenance.rs:459-486 | taking the header line out of an assembled file leaves the preamble, a blank line after it if there is one, and the body |
| ProvenanceHeader.LineEndsAre | crates/scythe-cli/src/commands/generate.rs:2459-2462 | both line terminators end a line and are not part of it, a lone carriage return is |
| ProvenanceHeader.LaterValueWins | crates/scythe-cli/src/commands/generate.rs:2467-2484 | a value given again replaces the one before |
| ProvenanceHeader.HeaderIsOneCommentLine | crates/scythe-codegen/src/provenance.rs:330-354 | whatever the field texts hold, the header is one line that opens with the comment token: no line terminator, control character or unusual blank before its final newline |
| HeaderComments.HeaderIsCommentIff | crates/scythe-codegen/src/provenance.rs:113-162 | under each host's own comment rule, for every following text, the whole header is a comment and nothing after it is, if and only if: in Java, no field holds a blank or control character; in PHP, no field holds a closing tag; in Go, no field holds U+FEFF; in Elixir, no field holds a character that changes the direction of text; elsewhere, always |
| HeaderComments.OtherHostsAlwaysComment | crates/scythe-codegen/src/provenance.rs:113-162 | in every host but these four the header is a comment whatever the fields hold |
| HeaderComments.TokenOpens | crates/scythe-codegen/src/provenance.rs:47-52 | the token written is a line comment of its host: `#` in Python, Ruby and Elixir, `//` elsewhere |
| HeaderComments.NothingRefusedIff | crates/scythe-codegen/src/provenance.rs:113-162 | the header holds a character its host refuses exactly when a field holds one the encoding does not escape |
| HeaderComments.JavaHeaderPasses | crates/scythe-codegen/src/provenance.rs:146-162 | the first step of section 3.3 of the Java Language Specification keeps the header, or fails on it as soon as one field had to be escaped |
| HeaderComments.TagSurvivesSanitize | crates/scythe-codegen/src/provenance.rs:146-162 | the encoding neither makes nor breaks a PHP closing tag |
| HeaderComments.JavaRejectsSpace | crates/scythe-codegen/src/provenance.rs:330-354 | an input: an engine name with a space makes a Java file that does not compile |
| HeaderComments.PhpLeavesTagLive | crates/scythe-codegen/src/provenance.rs:330-354 | an input: a field that holds a closing tag leaves part of a PHP header live |
| HeaderComments.GoRefusesMark | crates/scythe-codegen/src/provenance.rs:330-354 | an input: a byte order mark in a field makes a Go file that does not compile |
| ProvenanceHeader.FieldsReadBack | crates/scythe-codegen/src/provenance.rs:240-250 | tokenising rendered fields and splitting at the first `=` gives back each key with its encoded value, in order, then goes on with what follows |
| ProvenanceHeader.HeaderRoundTrip | crates/scythe-codegen/src/provenance.rs:240-354 | for all field texts, every language, five or six fields and any preceding text without the sentinel, parsing the built line returns exactly the original keys and values; without decoding, exactly their encodings |
| ProvenanceHeader.FileRoundTrip | crates/scythe-cli/src/commands/generate.rs:2458-2486 | for every body and every preamble that lacks the sentinel, the verifier finds the header of an assembled file, with exactly the encoded fields, if and only if the preamble has fewer than 20 newlines |
| ProvenanceHeader.EngineDriftIsDecided | crates/scythe-cli/src/commands/generate.rs:2905-2915 | comparing the file's encoded engine with the encoding of the configured one decides whether the two engines are the same text |
| Fnv.Fnv1a64 | crates/scythe-codegen/src/provenance.rs:373-383 | the loop computes the fold of the FNV-1a step from the offset basis |
| Fnv.XorUndone | crates/scythe-codegen/src/provenance.rs:373-383 | exclusive or with one operand twice is the identity within the word |
| Fnv.MulUndone | crates/scythe-codegen/src/provenance.rs:373-383 | multiplying by 0xce965057aff6957b undoes the wrapping multiplication by the prime, for every 64-bit word |
| Fnv.StepInjectiveInHash | crates/scythe-codegen/src/provenance.rs:373-383 | one step is injective in the hash |
| Fnv.StepInjectiveInByte | crates/scythe-codegen/src/provenance.rs:373-383 | one step is injective in the byte |
| Fnv.OneByteNeverCollides | crates/scythe-codegen/src/provenance.rs:373-383 | two byte strings of one length that differ in exactly one byte never collide |
| Fnv.XorBits | crates/scythe-codegen/src/provenance.rs:373-383 | each bit of the exclusive or says whether the two bits differ |
| Fnv.HashOfNothing | crates/scythe-codegen/src/provenance.rs:374 | the hash of nothing is the offset basis of the draft |
| Fnv.HashOfA | crates/scythe-codegen/src/provenance.rs:373-383 | the value the draft publishes for `a` |
| Fnv.HashOfFoobar | crates/scythe-codegen/src/provenance.rs:373-383 | the value the draft publishes for `foobar` |
| Fnv.Hex16Injective | crates/scythe-codegen/src/provenance.rs:455-457 | the sixteen-digit form decides the hash |
| OptionsFingerprint.ComputeFingerprint | crates/scythe-codegen/src/provenance.rs:434-457 | the loop over sorted entries, the overlay line, the hash and the tag, put together as the fingerprint of the canonical text |
| OptionsFingerprint.CanonicalDecides | crates/scythe-codegen/src/provenance.rs:434-454 | two option lists with distinct keys and two optional overlays have one canonical text if and only if they hold the same entries, in whatever order, and the same overlay, whatever tabs, newlines or backslashes the texts hold |
| OptionsFingerprint.SortIgnoresValues | crates/scythe-codegen/src/provenance.rs:439-441 | changing a value moves no entry |
| OptionsFingerprint.OneCharacterEditIsSeen | crates/scythe-codegen/src/provenance.rs:434-457 | replacing one plain ASCII character of one option value always changes the fingerprint |
| OptionsFingerprint.FingerprintShape | crates/scythe-codegen/src/provenance.rs:455-457 | a fingerprint is `opt1:` and sixteen small hexadecimal digits that read as the hash of the canonical text's bytes |
| OptionsFingerprint.CanonicalSpelled | crates/scythe-codegen/src/provenance.rs:442-454 | two options out of order and an overlay, as the text that is hashed |
| SqlLiterals.EscapeCharByChar | crates/scythe-codegen/src/sql_literal.rs:271-280 | the buffer loop computes the per-character substitution |
| InterpolatedLiterals.EscapeInterpolatingDoubleQuoted | crates/scythe-codegen/src/sql_literal.rs:85-100 | the loop over a peekable iterator computes the substitution with one character of lookahead |
| SqlLiterals.TableEscapeReadsBack | crates/scythe-codegen/src/sql_literal.rs:271-280 | for any table that suits a host grammar, lexing the escaped SQL, the closer and any following text gives the SQL and that text exactly when no kept character is one the grammar forbids |
| SqlLiterals.EscapesOnly | crates/scythe-codegen/src/sql_literal.rs:46-232 | each host's escape leaves SQL alone exactly when that holds none of the host's listed characters |
| SqlLiterals.KotlinReadsBack | crates/scythe-codegen/src/sql_literal.rs:46-56 | Kotlin lexing of the literal gives back the SQL, whatever follows; any unescaped `$` would have been refused |
| SqlLiterals.PhpReadsBack | crates/scythe-codegen/src/sql_literal.rs:113-119 | the same for PHP single quotes, where a backslash before another character stands for itself |
| SqlLiterals.GoReadsBack | crates/scythe-codegen/src/sql_literal.rs:144-153 | the Go interpreted string reads back as the SQL exactly when that holds neither NUL nor U+FEFF, which the compiler refuses |
| HostNewlines.PythonReadsBack | crates/scythe-codegen/src/sql_literal.rs:177-183 | the Python triple-quoted literal, line ends read as Python reads them, is refused exactly for NUL, else ends at its closer and gives the SQL with its line ends read: the SQL itself exactly when it holds no carriage return either |
| HostNewlines.NewlinesKeptIff | crates/scythe-codegen/src/sql_literal.rs:64-79 | reading line ends changes nothing exactly when the text holds none of that kind |
| HostNewlines.RustReadsBack | crates/scythe-codegen/src/sql_literal.rs:226-232 | the Rust literal, line ends read first, is refused exactly when the SQL holds a carriage return that no newline follows, else compiles to the SQL with its line ends read: the SQL itself exactly when it holds no carriage return |
| HostNewlines.RustDropsReturn | crates/scythe-codegen/src/sql_literal.rs:226-232 | an input whose literal compiles and silently holds another text |
| HostNewlines.NewlinesOfLiteral | crates/scythe-codegen/src/sql_literal.rs:271-280 | for every table that leaves line ends alone, escaping commutes with reading line ends |
| HostNewlines.LoneReturnsStay | crates/scythe-codegen/src/sql_literal.rs:226-232 | reading line ends leaves a carriage return exactly when one has no newline after it |
| SqlLiterals.UnicodePassKeepsLiteral | crates/scythe-codegen/src/sql_literal.rs:128-137 | the Unicode-escape step of section 3.3 of the Java Language Specification leaves an escaped literal and its closing quote as they are |
| SqlLiterals.BackslashRunsBeforeUAreEven | crates/scythe-codegen/src/sql_literal.rs:128-137 | every `u` in an escaped Java literal stands after an even run of backslashes |
| SqlLiterals.FinalRunIsEven | crates/scythe-codegen/src/sql_literal.rs:128-137 | escaped text ends in an even run, so the closing quote is never escaped |
| SqlLiterals.JavaReadsBack | crates/scythe-codegen/src/sql_literal.rs:128-137 | both Java steps together give back the SQL, and what follows as the first step leaves it |
| InterpolatedLiterals.InterpolatingReadsBack | crates/scythe-codegen/src/sql_literal.rs:85-100 | the escape covers `#{` and nothing else: apart from characters the host refuses, Elixir reads the SQL back, Ruby exactly when the SQL holds no variable after a `#` |
| InterpolatedLiterals.KeptHashOpens | crates/scythe-codegen/src/sql_literal.rs:85-100 | after a `#` the escape keeps, Ruby interpolates in the escaped text exactly where the SQL holds a variable, an escaped quote, backslash or `#{` and the closing quote included |
| InterpolatedLiterals.ElixirReadsBack | crates/scythe-codegen/src/sql_literal.rs:77-79 | Elixir literals read back as the SQL exactly when it holds no character that changes the direction of text; no unescaped `#{` remains |
| InterpolatedLiterals.RubyReadsBack | crates/scythe-codegen/src/sql_literal.rs:68-70 | with Ruby's own lookahead (`#@` or `#@@` before an identifier, `#$` before an identifier, a digit, a punctuation global or `-` and an identifier) the literal reads back as the SQL if and only if the SQL holds no such variable and no carriage return before a newline |
| InterpolatedLiterals.RubyShortFormIsLost | crates/scythe-codegen/src/sql_literal.rs:68-70 | an input: an instance variable after a `#` is interpolated |
| InterpolatedLiterals.RubyPlaceholderIsLost | crates/scythe-codegen/src/sql_literal.rs:68-70 | an input: so is a numbered placeholder after PostgreSQL's `#` operator |
| SqlLiterals.CsharpReadsBack | crates/scythe-codegen/src/sql_literal.rs:164-166 | C# verbatim literals read back as the SQL exactly when no quote directly follows the literal |
| RustRawStrings.RustRawStringLiteral | crates/scythe-codegen/src/sql_literal.rs:247-258 | the widening loop ends with one hash more than the longest run of `#` directly after a quote, and the literal is the SQL between delimiters of that width |
| RustRawStrings.LongestRun | crates/scythe-codegen/src/sql_literal.rs:247-255 | that run is shorter than the SQL, so the width is at most max(1, length of the SQL) and the loop ends |
| RustRawStrings.MarkerOccurs | crates/scythe-codegen/src/sql_literal.rs:250-254 | the SQL holds a quote followed by n hashes exactly when its longest run is at least n |
| RustRawStrings.FirstCloser | crates/scythe-codegen/src/sql_literal.rs:247-258 | the first closing delimiter after the SQL is the real one: none starts inside the SQL, not even one that runs on into the closer |
| RustRawStrings.RawLiteralReadsBack | crates/scythe-codegen/src/sql_literal.rs:247-258 | the raw literal, line ends read first, is refused exactly when the longest run is 255 or more or the SQL holds a carriage return that no newline follows, else it compiles to the SQL with its line ends read, whatever follows: the SQL itself if and only if it needs few enough hashes and holds no carriage return |
| RustRawStrings.RunSurvivesNewlines | crates/scythe-codegen/src/sql_literal.rs:247-255 | reading line ends changes no run of hashes after a quote |
| RustRawStrings.NarrowerDelimiterFails | crates/scythe-codegen/src/sql_literal.rs:247-258 | with any narrower delimiter the literal does not read back as the SQL |
| Naming.ToSnakeCase | crates/scythe-backend/src/naming.rs:136-169 | the loop with its two early returns and one character of lookahead computes the word splitting |
| Naming.ToPascalCase | crates/scythe-backend/src/naming.rs:99-128 | the loop over `_`-separated parts, with its fallback for runs of underscores, computes the capitalised join |
| Naming.SnakeIdempotent | crates/scythe-backend/src/naming.rs:136-169 | snake case is idempotent |
| Naming.CaseSeesThroughSnake | crates/scythe-backend/src/naming.rs:99-205 | Pascal, camel and screaming-snake case give the same for a text and its snake case |
| Naming.CamelAndPascalShareAStem | crates/scythe-backend/src/naming.rs:180-196 | raising the first character of the camel form gives the Pascal form, for every text |
| Naming.FunctionAndRowTypeAgree | crates/scythe-backend/src/naming.rs:232-242 | with PascalCase types and any of the three function conventions, the row type name is determined by the function name: both spell one stem |
| NameShapes.CamelFunction | crates/scythe-backend/src/naming.rs:219-242 | under camelCase a function's name is the row type's stem with its first character made small, so no capital opens it |
| NameShapes.PascalFunction | crates/scythe-backend/src/naming.rs:219-242 | under PascalCase it is the stem, which no small letter opens |
| NameShapes.SnakeFunction | crates/scythe-backend/src/naming.rs:219-242 | under snake_case it holds no capital; a query without capitals is its own name; one with an underscore is only made small; any other is split before each capital that follows no capital or precedes a small letter, and nowhere else |
| NameShapes.ScreamingFunction | crates/scythe-backend/src/naming.rs:202-242 | under SCREAMING_SNAKE_CASE it holds no small letter, and made small it is the snake_case name |
| NameShapes.OtherFunction | crates/scythe-backend/src/naming.rs:219-227 | any other convention leaves the name alone |
| NameShapes.RowIsStyledAndSuffixed | crates/scythe-backend/src/naming.rs:232-235 | a row type is what a function of its convention would be, and the suffix |
| NameShapes.SnakeSplits | crates/scythe-backend/src/naming.rs:136-169 | snake case of text without underscores, decided position by position from the two neighbours |
| NameShapes.UpperSnakeIsLowered | crates/scythe-backend/src/naming.rs:137-143 | `ORDER_STATUS` becomes `order_status` |
| NameShapes.SplitIs | crates/scythe-backend/src/naming.rs:102 | splitting at underscores loses nothing and leaves none |
| NameShapes.TypeNameIs | crates/scythe-backend/src/naming.rs:257-280 | a type's name is its SQL name with other characters made underscores and a `V` before a leading digit, under the convention for types |
| Naming.SnakeInvertsPascal | crates/scythe-backend/src/naming.rs:99-169 | on lower-case words joined by single underscores, snake case undoes Pascal case if and only if every word boundary is visible: the next word starts with a letter, and after a single-letter word its second character is a letter too |
| Naming.TwoLetterWordsRoundTrip | crates/scythe-backend/src/naming.rs:99-169 | hence words that each start with two letters always round trip |
| Naming.SingleLettersMerge | crates/scythe-backend/src/naming.rs:99-169 | `a_b` does not round trip |
| TypeResolver.ResolverRendersTrees | crates/scythe-backend/src/types.rs:114-177 | for every type tree with names free of `<` and any blank padding inside the brackets, resolving its spelling equals rendering the tree by pattern substitution, errors included |
| TypeResolver.OnlyTreesResolve | crates/scythe-backend/src/types.rs:114-177 | conversely a string that resolves spells such a tree |
| TypeMeaning.PatternFills | crates/scythe-backend/src/types.rs:174-176 | filling a pattern puts the text between its pieces, once per hole |
| TypeMeaning.PatternSplits | crates/scythe-backend/src/types.rs:174-176 | every pattern is such pieces |
| TypeMeaning.LeafMeans | crates/scythe-backend/src/types.rs:123-147 | a leaf behind `enum::` or `composite::` is the type name of the rest, whatever the scalar table holds; any other leaf is its scalar entry, else itself if a capital opens it, else the error that names it |
| TypeMeaning.TypeMeans | crates/scythe-backend/src/types.rs:114-177 | at every depth, with any padding and in both positions, a type is its leaf's text put between the pieces of each container's pattern, innermost first |
| TypeMeaning.LeafErrorStands | crates/scythe-backend/src/types.rs:172 | a failing leaf is the error of every type around it |
| TypeMeaning.UnknownContainerFails | crates/scythe-backend/src/types.rs:163-165 | a container neither table of the position knows is the error, whatever it holds |
| TypeMeaning.UnclosedFails | crates/scythe-backend/src/types.rs:167-169 | a known container without its closing bracket is the unknown type |
| TypeMeaning.NullableMeans | crates/scythe-backend/src/types.rs:74-87 | a nullable type is its base between the pieces of the nullable pattern |
| TypeMeaning.MissingNullableFails | crates/scythe-backend/src/types.rs:184-193 | without a nullable pattern that fails, and so does reading one back |
| TypeMeaning.PairIsBoth | crates/scythe-backend/src/types.rs:93-107 | the pair is the type as written and its base, or the error of the first |
| TypeResolver.DocblockIsOverlaidNative | crates/scythe-backend/src/types.rs:29-41 | for every string, docblock resolution is native resolution under the containers overridden key by key by the docblock containers, at every depth, errors included |
| TypeResolver.DocblockTypeIsOverlaidNative | crates/scythe-backend/src/types.rs:66-87 | the same with the nullable wrapper on top |
| TypeResolver.VerdictDependsOnVocabulary | crates/scythe-backend/src/types.rs:114-177 | whether a string resolves, and the error if not, depends only on which names the tables know |
| TypeResolver.TypeVerdictDependsOnVocabulary | crates/scythe-backend/src/types.rs:74-87 | the same with the nullable wrapper on top |
| TypeResolver.AbsorbsIsIdentity | crates/scythe-backend/src/types.rs:184-193 | filling a pattern leaves the text as it is exactly in three cases, by the number of holes and the lengths |
| TypeResolver.RenderedNullableReadsBack | crates/scythe-backend/src/types.rs:218-234 | parsing a resolved pair returns the nullable flag that went in, except when the nullable pattern absorbs the base type, and then always no |
| TypeResolver.UsualPatternsReadBack | crates/scythe-backend/src/types.rs:218-234 | hence the flag is always recovered for a non-empty base type and a pattern that holds `{T}` and more, and never for the pattern `{T}` |
| TypeMeaning.StrangeRenderingFails | crates/scythe-backend/src/types.rs:218-234 | a full type that is neither the base nor the base made nullable is refused, and named |
| ManifestOverlay.MergeReplaceOnly | crates/scythe-backend/src/manifest.rs:258-270 | merges exactly when all keys are known; otherwise leaves the table alone and reports the smallest unknown key with a near miss |
| ManifestOverlay.BackendManifest.ApplyTypes | crates/scythe-backend/src/manifest.rs:301-322 | the three tables are checked and merged in order; a refusal reports the smallest unknown key of its table with a near miss |
| ManifestOverlay.BackendManifest.ApplyOverlay | crates/scythe-backend/src/manifest.rs:300-351 | the stateful merge ends in the specified manifest and fails exactly where specified, with what was merged before the failure left in place; a refused key is the smallest unknown one of its table, with a suggestion from that table's vocabulary |
| ManifestOverlay.AcceptedIff | crates/scythe-backend/src/manifest.rs:300-351 | an overlay is accepted if and only if its keys are known to the original manifest, docblock keys to either container table, and its case names are valid |
| ManifestOverlay.OverlayKeeps | crates/scythe-backend/src/manifest.rs:300-351 | one overlay, successful or failed halfway, keeps the scalar and container key sets, grows docblock keys only within the union, keeps valid case names valid and drops no import |
| ManifestOverlay.RunKeeps | crates/scythe-backend/src/manifest.rs:300-351 | so does any sequence of overlays, including ones that fail halfway |
| ManifestOverlay.RunKeepsVerdicts | crates/scythe-backend/src/manifest.rs:300-351 | after any sequence of overlays every neutral type resolves or fails as before, with the same error, in both positions, nullable or not |
| ManifestOverlay.OverlayIdempotent | crates/scythe-backend/src/manifest.rs:300-351 | applying a successful overlay again changes nothing and succeeds |
| ManifestOverlay.LeafMerge | crates/scythe-backend/src/manifest.rs:300-351 | after a successful overlay, in scalars, containers, docblock containers and imports, exactly the old and the mentioned keys are there, a mentioned key with its new value and every other with its old one; sections the overlay leaves out are unchanged |
| ManifestOverlay.NamingMerge | crates/scythe-backend/src/manifest.rs:324-340 | the naming section is replaced value by value |
| SqlSplitter.SplitTypeScript | integration_tests/typescript-duckdb/test.ts:45-111 | the loop with its four mode variables and multi-character jumps returns the specified statements; at most one mode is ever set |
| SqlSplitter.SplitCSharp | integration_tests/csharp-snowflake/Program.cs:74-167 | so does the C# loop, whose branches come in another order and whose jumps are counted differently, under the .NET notion of blank |
| StatementLexer.SplittingConserves | integration_tests/typescript-duckdb/test.ts:45-111 | the raw pieces joined by `;` are the input, for every input |
| ScannerModes.TagAtIff | integration_tests/typescript-duckdb/test.ts:94 | a tag is found exactly where two dollar signs with ASCII letters, digits or underscores between them, or nothing, stand |
| ScannerModes.DollarBodyCloses | integration_tests/typescript-duckdb/test.ts:59-67 | what a tag opens in normal mode closes at the next occurrence of the tag and only there |
| ScannerModes.DollarBodyIsUncut | integration_tests/typescript-duckdb/test.ts:59-101 | a tag, a body that does not hold it and the tag again are scanned back to normal mode without a cut, the empty tag included |
| ScannerModes.BareDollarBody | integration_tests/csharp-snowflake/Program.cs:130-158 | so `$$`, a body and `$$` is one piece, whatever semicolons the body holds |
| ScannerModes.QuotedIsUncut | integration_tests/typescript-duckdb/test.ts:66-93 | text in single or in double quotes is scanned uncut up to the next such quote |
| ScannerModes.CommentIsUncut | integration_tests/typescript-duckdb/test.ts:54-82 | two dashes comment out everything up to the end of the line |
| ScannerModes.PlainIsUncut | integration_tests/typescript-duckdb/test.ts:50-105 | text without quotes, dashes, dollars and semicolons stays in normal mode |
| ScannerModes.SemicolonSplits | integration_tests/typescript-duckdb/test.ts:102-106 | a semicolon reached in normal mode ends the piece |
| StatementLexer.SeparatedSplitsBack | integration_tests/typescript-duckdb/test.ts:45-111 | any pieces that hold no semicolon in normal mode, each but the last ending in normal mode, are split back from their join at exactly their separators |
| StatementLexer.RawPiecesAreSeparated | integration_tests/typescript-duckdb/test.ts:45-111 | what splitting returns is such a list, so it splits at every `;` in normal mode and nowhere else |
| StatementLexer.TrimmedPiece | integration_tests/typescript-duckdb/test.ts:105-111 | trimming a piece opens no new cut, and a newline after it returns to normal mode if the piece ended there |
| SplitterLaws.SplitJoinSplit | integration_tests/typescript-duckdb/test.ts:45-111 | splitting the statements joined by newline, semicolon, newline gives the same statements, for every script |
| SplitterLaws.BothTrimsAreProper | integration_tests/csharp-snowflake/Program.cs:160-167 | both languages' trims meet the conditions of the round trip |
| SplitterLaws.TrimsAre | integration_tests/csharp-snowflake/Program.cs:160-166 | .NET trims what Unicode calls white space, JavaScript all of that but U+0085, and U+FEFF |
| SplitterLaws.PortsAgreeIff | integration_tests/csharp-snowflake/Program.cs:74-167 | the two ports return the same list if and only if no piece, trimmed of the blanks both languages know, starts or ends with U+0085 or U+FEFF |
| SplitterLaws.PlainScriptsAgree | integration_tests/csharp-snowflake/Program.cs:74-167 | hence they agree on every script without these two characters |
| SplitterLaws.ByteOrderMarkDiffers | integration_tests/csharp-snowflake/Program.cs:74-167 | a concrete script on which they differ: a lone byte order mark |
| NestedDegradation.ShapeOfPrinted | crates/scythe-codegen/src/lib.rs:765-786 | parsing a printed shape gives it back if and only if the name does not itself look like the wrapper the parser tries next |
| NestedDegradation.PrintedShape | crates/scythe-codegen/src/lib.rs:765-786 | every type that parses is the print of its shape |
| NestedDegradation.DegradeUnsupportedNestedStructs | crates/scythe-codegen/src/lib.rs:829-887 | the pass, early returns included, returns the mapped columns, the rendered definitions and the reports, or the first error the backend raised |
| NestedDegradation.DegradationIsPrecise | crates/scythe-codegen/src/lib.rs:858-886 | columns keep number, order and every field but the type; the type changes exactly where its shape names an unsupported struct, to `json_array` for an array when the manifest has it and to `json` otherwise, and then names no unsupported struct |
| NestedDegradation.OneReportPerRewrite | crates/scythe-codegen/src/lib.rs:858-886 | one report per rewritten column, in column order, and none else |
| NestedDegradation.ReportSays | crates/scythe-codegen/src/lib.rs:868-878 | a report names the column, the struct its type names, the type it got and the backend |
| NestedDegradation.FirstErrorStands | crates/scythe-codegen/src/lib.rs:842-852 | the first error a backend raises is the result, whatever follows |
| NestedDegradation.DegradationIdempotent | crates/scythe-codegen/src/lib.rs:858-886 | degrading degraded columns changes nothing and reports nothing |
| NestedDegradation.PassIdempotent | crates/scythe-codegen/src/lib.rs:829-887 | the same for the unsupported set the pass itself computes, and no reference to an unsupported struct is left |
| DivergenceRegistry.OnlyVacuityIsRegistered | crates/scythe-conformance/src/divergence.rs:135-170 | a failure is registered exactly when it is a vacuity failure of a column some entry names for that fixture and engine |
| DivergenceRegistry.SuppressionIsExact | crates/scythe-conformance/src/divergence.rs:152-164 | suppression keeps fixture, engine and, in order, every fidelity, soundness and join-group failure, and drops exactly the registered failures |
| DivergenceRegistry.SurvivorsInOrder | crates/scythe-conformance/src/divergence.rs:152-164 | the survivors are the unregistered failures at their positions, in order, each as often as it occurred |
| DivergenceRegistry.SuppressionIdempotent | crates/scythe-conformance/src/divergence.rs:152-164 | suppressing twice is suppressing once |
| DivergenceRegistry.StalenessVerdict | crates/scythe-conformance/src/divergence.rs:187-215 | the check fails exactly when some entry whose engine ran matches no failure, and names the first such entry |
| DivergenceRegistry.ReconcileVerdict | crates/scythe-conformance/src/divergence.rs:225-232 | reconciling succeeds if and only if every entry for an engine that ran matches a raw vacuity failure; it then keeps every verdict and every other failure in order and drops exactly the registered ones |
| DivergenceRegistry.StalenessAfterSuppressionFails | crates/scythe-conformance/src/divergence.rs:218-232 | checking after suppressing fails exactly when some entry's engine ran, which is why the order matters |
| DivergenceRegistry.UnsoundNeverPasses | crates/scythe-conformance/src/divergence.rs:225-232 | a failure that is not a vacuity failure is in its verdict after reconciling, whatever the registry holds |

## Left out

- Ruby, Kotlin, Python, Go, Java and Rust literals: the lexers know the escapes the hosts share with the escape tables and a few more; other escapes (`\u`, `\x`, octal, line continuation) are refused by the lexers, which is sound here because the escaped text never holds them.
- Java text that spells half of a surrogate pair through a Unicode escape: the translation step returns nothing for it.
- TypeResolver.ResolverRendersTrees: the test for a type name that passes through, and the character classes behind type names, are ASCII, here and in the other TypeResolver members; none of the relations turns on them.
- DefinitionEmission.EmitDefinitions: rendering a composite definition can fail as well, and its error would be the result; only which composites are rendered, and in which order, is stated.
- Characters refused by a lint that a project may switch off, such as Rust's for characters that change the direction of text.
- Line ends in literals of hosts other than Python, Ruby and Rust are taken as they stand; Kotlin, Java and Go literals hold none unescaped.
- CompositeOrder.CompositesInDependencyOrder: assumes unique names, which the analyzer ensures by deduplicating.
- OptionsFingerprint.CanonicalDecides: assumes distinct keys, which the callers' maps ensure; with equal keys the unstable sort would decide.
- NameShapes.SnakeFunction: ASCII case mapping, as in all of NameShapes.
- Naming.ToSnakeCase: case mapping is ASCII; Unicode mappings that change the number of characters or map back differently break the laws.
- Naming.ToPascalCase: ASCII case mapping, as above.
- Naming.SnakeIdempotent: ASCII case mapping, as above.
- Naming.CaseSeesThroughSnake: ASCII case mapping, as above.
- Naming.CamelAndPascalShareAStem: ASCII case mapping, as above.
- Naming.FunctionAndRowTypeAgree: ASCII case mapping, as above.
- Which composites the caller forces to nested form is a parameter; `NestedTypeRefs::collect` is modelled for composites and left out for enums.
- HeaderComments.HeaderIsCommentIff: says whether the header is a comment, and nothing of what a tool may read in one, such as the encoding declarations of Python and Ruby.
- The text of a definition, an import or a query, in any language: a backend is an opaque function from a nested struct to code, a refusal or an error.
- Enum emission, duplicate-name collision checks, `resolve.rs`, `overrides.rs` and `singularize`: first-match searches and pairwise comparisons that would add only easy members.
- `field_name`, `param_name`, `identifier_name` and the keyword and digit rules around them.
- `double_percent_for_percent_paramstyle`: one replacement whose inverse is a driver's formatting pass.
- Evaluating facts into verdicts, and loading and bounding the registry file.
- Parsing of TOML, loading of manifests and files, command-line arguments, database calls and every message text; errors carry the key, section or name they are about.
- The other drift checks of the command-line verifier (schema, version, backend, queries, options), which compare fields that need no escaping.
- KeySuggestions.ReportIsDetermined: is for one listing of the candidates; `SuggestionIsStableIff` says when the listing does not matter.
- Fnv.Fnv1a64: exclusive or is written out bit by bit on integers below 2^64.
- The analyzer, parser, catalog and nullability inference are not part of this model.
