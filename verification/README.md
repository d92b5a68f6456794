# LightUSD: verified models of the text parser and its helpers

This project models, in Dafny, the parts of LightUSD whose correctness is hardest to see from
the code, and proves what they are for. Each method keeps the loops and the state of the C++
or Python original and is proved against a plain function; the laws are proved about the
functions. `dafny verify dfyconfig.toml` checks everything.

- **Blocks of a USDA layer** (`UsdaSyntax`, `UsdaMeaning`, `UsdaSteps`, `UsdaParser`, `UsdaLaws`,
  `UsdaParents`, `UsdaContents`, `UsdaEnds`).
  `ParseBlock` and `ParseVariantSet` call each other and share a path stack, a list of pending
  `reorder` statements, an index allocator and the construct callback. The mutual recursion
  refines recursive functions over the source tree, and the tree is exactly what the text says.
- **Asset resolution** (`DescriptorBudget`, `AssetResolver`, `SuffixCandidates`). The
  file-descriptor budget is a state machine over the atomic steps of any number of threads. The
  resolver keeps a cache of file look-ups and falls back to shorter paths.
- **Base122** (`Positional`, `Base122`, `Base122Laws`). Six bytes in seven digits, on 64-bit words
  with their truncation written out.
- **Array edits** (`ArrayEdit`, `ArrayEditEval`, `ArrayEditParser`, `ArrayEditGrammar`,
  `ArrayEditPrinter`, `ArrayEditLaws`, `ArrayEditStreams`). A compiler from surface edits to an
  instruction stream with a literal pool, the decoder and the evaluator of the stream, and the
  printer.
- **Splines** (`SplineSyntax`, `SplineMeaning`, `SplineFields`, `SplineParser`, `SplinePrinter`).
  The grammar of the AOUSD Core Spec, section 7.4.2.4, as the parser reads it, and the printer.
- **Time samples** (`CharReader`, `TimeSamples`, `TimeSampleLaws`, `TimeSampleEnds`,
  `TimeSampleExamples`). The separator loops on characters, with the cursor's step back at the
  end of the input.
- **Text in place** (`Texts`), character classes (`Chars`), numerals (`Decimals`) and options
  (`Options`) are shared by several of them.
- **Scanners** (`ArrayScan`, `ArrayLiteral`, `SchemaScanner`, `SchemaMatching`, `SchemaLaws`), **the
  source line of a diagnostic** (`Diagnostics`) and **the memory budget** (`MemoryBudget`).

The methods are tied to their functions, and the functions to laws that say what they compute
without them: by counting, by weights, element by element, or by a grammar of their own.

Where the code departs from what its comments or its purpose suggest, the code is modelled and
the departure is a lemma:

- A repeated variant or variant-set name replaces the earlier one, whose prims are constructed
  but listed nowhere (`UsdaLaws.ReplacedVariantLosesItsPrim`).
- Closing braces may be missing at the end of a layer (`UsdaEnds.CutBehindOpen`, exactly when in
  `UsdaEnds.UnclosedLayer`), depending on what stands behind the last token
  (`UsdaEnds.TrailVerdict`), of a time-sample block (`TimeSampleExamples.UnclosedIsAccepted`,
  exactly when in `TimeSampleEnds.UnclosedExactly`), and of a spline behind a customData
  (`SplineSyntax.DictClosesSpline`).
- `resolve` can set its flag and return an empty path when one handler finds and another
  resolves (`AssetResolver.FlagWithoutPath`; the configurations in which it can happen are those
  of `AssetResolver.EmptyPathExactly`).
- Two Base122 texts can decode to the same bytes (`Base122.DecodeIsNotInjective`).
- Printing and reading change a hermite knot without tangents
  (`SplinePrinter.BareHermiteKnotChanges`); `SplinePrinter.RoundTrip` says exactly which splines
  survive.
- A semicolon separates time samples although the comment rules it out
  (`TimeSampleEnds.SemicolonSeparates`), and differs from a comma exactly at the end of the input
  (`TimeSampleEnds.CommaForSemicolon`).
- A failed typed loop leaves its samples behind (`TimeSampleExamples.FailureLeavesSample`), exactly
  when a pair reads behind the brace (`TimeSamples.SampleParser.ParseTimeSamples`).
- A semicolon may stand in front of an entry of a spline, but not behind a knot
  (`SplineSyntax.SemicolonsBetweenEntries`).
- The comment-blind array scanner stops at a bracket in a comment
  (`ArrayScan.BlindStopsInComment`); both scanners agree exactly when the brackets in comments are
  harmless (`ArrayScan.BlindAgreesExactly`).
- Two property statements on one line are rejected in a prim and accepted in a variant
  (`UsdaEnds.TwoOnOneLine`, `UsdaEnds.SharedLine`).
- The scanner of array literals and the comment-aware one stop at different places behind a
  carriage return in a comment and at a bracket in a string (`ArrayLiteral.ScannersDispute`,
  exactly when in `ArrayLiteral.LiteralAgreesExactly`).

## Model

| member | source | states |
|---|---|---|
| UsdaSyntax.ReadsExactlyTexts | src/ascii-parser-entry.cc:1146-1440 | a prim is read from p to q exactly when its text stands there and the input may end behind it as the text does: a closing brace is missing only at the end of the input, and only where the loop has skipped the blanks or comments before that; both directions, every token sequence |
| UsdaEnds.LayerExactly | src/ascii-parser-entry.cc:1583-1690 | the same for a layer: the text of its root prims and reorders, with blanks or comments behind it or not |
| UsdaEnds.UnclosedPrim | src/ascii-parser-entry.cc:1311-1319 | a prim that is read lacks closing braces if and only if its text has fewer of them than opening ones, and lacks as many as the difference |
| UsdaEnds.UnclosedLayer | src/ascii-parser-entry.cc:1583-1600 | an accepted layer is unclosed if and only if it has more opening than closing braces |
| UsdaEnds.TrailVerdict | src/ascii-parser-entry.cc:1007-1018 | what stands behind the last token of a layer decides by the innermost unclosed block alone: a prim lets blanks pass but no comment, and behind a property that left its line open only with a line end; a variant nothing behind its brace; neither anything behind a variant set; a variant set and a closed layer everything |
| UsdaEnds.CutBehindOpen | src/ascii-parser-entry.cc:1284-1290 | `def "A" {` is read with a line end behind it and not with a comment |
| UsdaEnds.CutBehindSet | src/ascii-parser-entry.cc:1347-1367 | `def "A" { variantSet "v" = { }` is read, but not with a line end behind it; without its last brace it is read with anything |
| UsdaEnds.CutBehindVariant | src/ascii-parser-entry.cc:1005-1018 | `def "A" { variantSet "v" = { "x" {` is read, but not with a line end behind it |
| UsdaEnds.CutBehindProperty | src/ascii-parser-entry.cc:1412-1436 | `def "A" { p` is read, and with a line end behind it, but not with blanks only |
| UsdaParser.Parser.ParseBlock | src/ascii-parser-entry.cc:1146-1523 | succeeds exactly on a prim that reads, with the expected specifier, whose deepest prim or variant set is at most 512 by the parser's own counting, whose prim names are valid and whose callbacks all accept; then the path stack and the pending reorders are what they were, as many indices are taken as the tree needs, and the callbacks made are the tree's, in order. Terminates by (513 - depth, kind of block) |
| UsdaParser.Parser.ParsePrimBody | src/ascii-parser-entry.cc:1311-1440 | the statement loop of a block: properties, variant sets, child prims and reorders of exactly this body; a property or reorder statement that does not end its line fails unless no statement follows |
| UsdaParser.Parser.ParseHead | src/ascii-parser-entry.cc:1153-1290 | a head is accepted exactly when it reads as one and its name is a valid prim name |
| UsdaParser.Parser.ParseSetStmt | src/ascii-parser-entry.cc:1035-1066 | a variant set statement: a fresh index among a prim's statements, the variant's own index (and one level deeper) inside a variant |
| UsdaParser.Parser.ParseVariantSet | src/ascii-parser-entry.cc:919-1135 | succeeds exactly on variants that read, nest within the limit, have valid names and accepting callbacks; result map, callbacks, reorders and indices are those of the variants; path stack unchanged |
| UsdaParser.Parser.ParseVariantBody | src/ascii-parser-entry.cc:1005-1125 | the statement loop of one variant: its properties, listed prims and nested sets; its reorders stay pending for the enclosing prim; several properties on one line are accepted here |
| UsdaParser.Parser.ParseLayer | src/ascii-parser-entry.cc:1583-1690 | succeeds exactly on a sequence of root prims and layer reorders up to the end of the input; makes the callbacks of all root prims with parent -1 at level 0; "/" is pushed and stays on the path stack |
| UsdaEnds.SharedLine | src/ascii-parser-entry.cc:1404-1432 | a property or reorder statement on one line with the next statement: no prim body is read from there, and a variant body as behind it |
| UsdaEnds.TwoOnOneLine | src/ascii-parser-entry.cc:1404-1432 | `p q }` on one line: not read in a prim, read in a variant |
| UsdaLaws.EachPrimOnce | src/ascii-parser-entry.cc:1456-1476 | the callbacks of a prim are for exactly the prims of its text, each once, at the path joined from its ancestors' names and with its specifier, type, metadata and properties |
| UsdaLaws.PostOrder | src/ascii-parser-entry.cc:1297-1304 | the callbacks of a prim end with its own, at the joined path, and all the others are for prims strictly below that path |
| UsdaLaws.BodyWellIndexed | src/ascii-parser-entry.cc:1368-1400 | the prim indices of a body are distinct, lie in the range that the body takes, and every parent index passed down is smaller than the child's |
| UsdaLaws.IndicesInOrder | src/ascii-parser-entry.cc:1001-1102 | prims, variants and the variant sets among a prim's statements take consecutive indices, each exactly one of its own |
| UsdaLaws.ReordersConserved | src/ascii-parser-entry.cc:1442-1452 | over the whole tree each reorder statement is carried by exactly one callback, with multiplicity |
| UsdaLaws.BodyReordersConserved | src/ascii-parser-props.cc:1598-1623 | what a body leaves pending together with what its callbacks carry is every reorder statement in it |
| UsdaLaws.LayerLaws | src/ascii-parser-entry.cc:1583-1690 | for a whole layer: indices distinct and parents first, every prim below "/" and constructed once, every reorder statement carried by one callback except the layer's own, which are dropped |
| UsdaLaws.ListedExactly | src/ascii-parser-entry.cc:1061-1102 | a variant's `primIndices` lists an index exactly when that prim is a statement of a variant with that set and variant name that no later one of the same name replaces |
| UsdaLaws.DistinctNamesLoseNothing | src/ascii-parser-entry.cc:1061-1102 | with distinct set and variant names every prim inside a variant is listed at its route |
| UsdaLaws.ListedOnce | src/ascii-parser-entry.cc:1087-1102 | whatever names repeat, an index is listed at one route at most, and the index of a direct child at none |
| UsdaLaws.InsideOneVariant | src/ascii-parser-entry.cc:1087-1102 | no prim is inside two variants |
| UsdaLaws.DirectOrInside | src/ascii-parser-entry.cc:1394-1404 | a direct child of a body is in no variant of that body |
| UsdaLaws.ReplacedVariantLosesItsPrim | src/ascii-parser-entry.cc:1061-1102 | two variants of one name: a callback is made for the first one's prim, but no route lists it |
| UsdaParents.ParentsExactly | src/ascii-parser-entry.cc:1395-1400 | in a layer a callback has parent -1 if and only if its path is one step below "/"; every other one continues the path of the callback of some prim by its own name, and its parent is that callback's index for a direct statement and otherwise the number of the set that holds it |
| UsdaParents.ListedParent | src/ascii-parser-entry.cc:1087-1102 | the parent of a listed prim is the index of the `SetContent` that the route to it leads to |
| UsdaContents.PropsInOrder | src/ascii-parser-entry.cc:1406-1411 | the properties of a body are the property statements of its text, in order, with the child prims and variant sets cut out |
| UsdaContents.ReordersInOrder | src/ascii-parser-entry.cc:1442-1452 | the reorders that a prim's callback carries are those of its text, in order, with the child prims cut out and the variants left in |
| UsdaContents.ContentsExactly | src/ascii-parser-entry.cc:919-1135 | a set name stands for the last set of that name, with the number the set takes, and in it a variant name for the last variant of that name: its metadata, its own properties and prims, and its nested sets, which share its number |
| UsdaContents.GoodPrimExactly | src/ascii-parser-entry.cc:1153-1156 | what ParseBlock rejects a prim for, each on its own: more than 512 levels, one for each prim and each set inside a variant on the way down and none for a set of a prim; a name; a callback |
| UsdaContents.GoodBodyExactly | src/ascii-parser-entry.cc:1311-1440 | the same for the statements of a body |
| UsdaContents.GoodVariantsExactly | src/ascii-parser-entry.cc:919-926 | the same for a variant set |
| UsdaContents.GoodLayerExactly | src/ascii-parser-entry.cc:1680-1690 | the same for a layer, which may come to 513 levels |
| UsdaContents.ChainLimit | src/ascii-parser-entry.cc:1680 | from the root, 513 prims may stand in each other, and 514 may not |
| UsdaContents.NamesExactly | src/prim-types.cc:666-692 | a prim name is a letter or an underscore, and then these and digits |
| UsdaContents.BodyNamesExactly | src/ascii-parser-entry.cc:1247-1249 | a body passes the name check exactly when every prim that it declares, in variants too and at any depth, has a valid name |
| DescriptorBudget.CounterIsHolders | src/asset-resolution.cc:253-291 | in every interleaving of any number of threads the counter equals the number of guards held and never exceeds the limit |
| DescriptorBudget.CounterNeverWraps | src/asset-resolution.cc:261-283 | no compare-and-swap increments past 2^32 and no release goes below zero |
| DescriptorBudget.QuietCounterIsZero | src/asset-resolution.cc:279-283 | when no call is in progress the counter is back at its start |
| DescriptorBudget.RefusalIsJustified | src/asset-resolution.cc:262-271 | a call is refused only if the counter was at or above the limit at some instant during that same call |
| DescriptorBudget.CopyWasTrue | src/asset-resolution.cc:261-276 | the local copy of the counter was its value at some instant of the same call |
| DescriptorBudget.LimitEndsCall | src/asset-resolution.cc:261-271 | a call whose copy is at the limit never tries again: it stays as it is until it is refused with that copy |
| DescriptorBudget.FailuresArePaidFor | src/asset-resolution.cc:272-276 | non-spurious failures of a thread are at most as many as the counter changes by other threads |
| DescriptorBudget.BudgetIsGranted | src/asset-resolution.cc:261-276 | from every state with budget left, each thread that holds nothing comes to hold a descriptor by its own steps alone; it is refused first if and only if it carries a copy at the limit |
| DescriptorBudget.EveryUnitIsUsable | src/asset-resolution.cc:253-291 | for every n up to the limit some run ends with n holders |
| AssetResolver.Resolver.ResolveLiteral | src/asset-resolution.cc:161-241 | answers what the look-up without cache answers, misses included, and keeps every cache entry true |
| AssetResolver.Resolver.Find | src/asset-resolution.cc:33-101 | handler of the extension, else the wildcard handler, else the files; a wildcard handler that lacks a callback hides the files |
| AssetResolver.Resolver.Resolve | src/asset-resolution.cc:108-159 | path and flag are those of the uncached resolution |
| AssetResolver.Resolver.Register | src/asset-resolution.hh:252-258 | registration takes effect and leaves no stale cache entry; an empty extension is ignored |
| AssetResolver.Resolver.Unregister | src/asset-resolution.hh:265-272 | removal takes effect, reports whether the handler was known, and leaves no stale cache entry |
| AssetResolver.Resolver.SetSearchPaths | src/asset-resolution.hh:218-222 | new search paths leave no stale cache entry |
| AssetResolver.Resolver.AddSearchPath | src/asset-resolution.hh:223-226 | an added search path leaves no stale cache entry |
| AssetResolver.Resolver.SetWorkingPath | src/asset-resolution.hh:232-235 | a new working path leaves no stale cache entry |
| AssetResolver.Resolver.Run | src/asset-resolution.cc:33-241 | any sequence of find, resolve, resolve_literal, registration and path changes answers as a resolver without a cache |
| AssetResolver.AnswersInTurn | src/asset-resolution.cc:33-241 | in such a run each call is answered from the configuration that the calls before it leave, and changes the fields that it should and no others |
| AssetResolver.FirstCandidateWins | src/asset-resolution.cc:114-159 | the flag is set exactly when the path itself is not accepted, the fallback is on and some candidate is; the result is then that of the first such candidate, otherwise the literal one |
| AssetResolver.AcceptedButEmpty | src/asset-resolution.cc:33-241 | an accepted path resolves to nothing exactly when the handler that resolves it fails or answers with an empty path; it cannot fail when it is also the handler that found the path |
| AssetResolver.FlagWithoutPath | src/asset-resolution.cc:141-155 | a handler that only resolves beside a complete wildcard handler: the flag comes with an empty path |
| AssetResolver.FlagWithoutPathExactly | src/asset-resolution.cc:141-155 | the flag comes with an empty path exactly when the handler that resolves the first accepted candidate fails or answers with nothing |
| AssetResolver.FlagWithPath | src/asset-resolution.cc:108-159 | where no candidate has a handler for its extension that only resolves beside a complete wildcard handler, and no handler answers with an empty path, the flag comes with a path |
| AssetResolver.EmptyPathExactly | src/asset-resolution.cc:33-159 | with the fallback on: the same callbacks can answer, never with an empty path, so that the flag comes with an empty path, if and only if some candidate has such a handler |
| AssetResolver.WorkingDirectoryFirst | src/asset-resolution.cc:222-233 | with no handler for the path, a file in the working directory comes before the search paths, whatever they hold; "." and "./" look up the path as it is |
| AssetResolver.ExtensionBeforeWildcard | src/asset-resolution.cc:161-212 | the literal result is the answer of the extension's handler, and of the wildcard handler where that one does not resolve |
| AssetResolver.FoundExactly | src/asset-resolution.cc:33-101 | a path is found exactly when the handler that can tell gives it a size above zero, or, with neither handler, when it resolves |
| AssetResolver.AcceptedExactly | src/asset-resolution.cc:137-153 | with no handler at all a path counts when it resolves, with any handler only when it is found |
| SuffixCandidates.RebasedIsLongest | src/io-util.cc:1286-1317 | rebasing leaves the longest tail of what stands behind the drive that starts with no `/`, `./` or `../` |
| SuffixCandidates.FindCandidates | src/io-util.cc:1286-1333 | the loops compute the candidate list |
| SuffixCandidates.CandidatesAreTails | src/io-util.cc:1319-1332 | the candidates are exactly the nonempty tails of the rebased path, from its start or from behind a slash, other than the path itself |
| SuffixCandidates.CandidatesShrink | src/io-util.cc:1319-1332 | longest first: lengths strictly decrease |
| SuffixCandidates.CandidatesExactly | src/io-util.cc:1286-1332 | the candidates of a path: exactly the nonempty tails of what it is rebased to, other than itself, each once, longest first |
| Base122.BuildDecodeMap | src/base122.cc:18-26 | the table filled in place inverts the alphabet and marks all other bytes |
| Base122.AlphabetIsInjective | src/base122.cc:9-14 | the 122 bytes, the implicit NUL among them, are distinct |
| Base122.DecodeEncode | src/base122.cc:30-77 | decoding the encoding of any byte string succeeds and returns it |
| Base122.DecodeSucceeds | src/base122.cc:50-77 | decoding succeeds if and only if every byte is in the alphabet and the length modulo 7 is not 1 |
| Base122.EncodeDecode | src/base122.cc:30-77 | on texts that decode, encoding the result gives the text back if and only if every chunk's value fits its bytes |
| Base122.DecodeIsNotInjective | src/base122.cc:50-77 | two texts for the one byte 0 |
| Base122.EncodedLength | src/base122.cc:39 | n bytes take n + ceil(n/6) characters |
| Base122.DecodedLength | src/base122.cc:70 | n characters that decode give n - ceil(n/7) bytes |
| Base122Laws.AlphabetExactly | src/base122.cc:9-14 | the alphabet holds NUL, the visible ASCII characters but the two quotes and the backslash, and the bytes 0xA1 to 0xBE, and nothing else |
| Base122Laws.AlphabetInOrder | src/base122.cc:9-14 | the characters go up with their digits, but for the NUL at the end |
| Base122Laws.EncodesChunks | src/base122.cc:30-46 | for every chunk: bytes 6k and on, the first the lowest, weigh as much in powers of 256 as the characters 7k and on in powers of 122, of which there is one more |
| Base122Laws.DecodesChunks | src/base122.cc:50-77 | for every chunk: the characters weigh as much as the bytes with whatever is left over above them, also in a text that fails further on |
| Base122Laws.FailsAtChunk | src/base122.cc:50-77 | a text fails exactly at its first chunk with a foreign character or with one character only, and the caller keeps six bytes for each chunk before it |
| Base122.CountsInvert | src/base122.cc:39-70 | the byte and character counts of a chunk invert each other |
| Base122.ChunkBounds | src/base122.cc:28-29 | 256^k <= 122^(k+1) and 122^7 < 2^64 for the chunk sizes that occur |
| Base122.PackByte | src/base122.cc:36-38 | or-ing in a shifted byte neither truncates at 64 bits nor disturbs the bytes below |
| Base122.TakeDigit | src/base122.cc:59-64 | neither `val` nor `mult` wraps at 64 bits, whatever the later digits are |
| Base122.PackChunk | src/base122.cc:34-38 | the word holds the chunk's bytes, low byte first |
| Base122.EmitChars | src/base122.cc:40-43 | the characters are the word's base-122 digits, low digit first |
| Base122.ReadChunk | src/base122.cc:55-64 | fails exactly on a byte outside the alphabet; otherwise the word is the value of the digits |
| Base122.EmitBytes | src/base122.cc:71-74 | the bytes are the word's low bytes |
| Base122.EncodeLoop | src/base122.cc:30-46 | the loop computes the encoding |
| Base122.DecodeLoop | src/base122.cc:50-77 | status and output, also the output left behind by a failure |
| ArrayEditOps.WordRoundTrip | src/array-edit.hh:66-79 | packing and unpacking are inverse on all ops, all 56-bit counts and all words |
| ArrayEditParser.Parser.Parse | src/ascii-parser-props.cc:943-1117 | accepts exactly the texts of the grammar, stops behind the bracket, and appends exactly the edits' literals and instruction words |
| ArrayEditGrammar.ReadsExactlyTexts | src/ascii-parser-props.cc:943-1117 | a value is read from p to q exactly when an opening bracket and the text of its edits stand there, by a grammar stated apart from the parser: separators anywhere between edits or none, and no size without a fill in front of the word `fill`; both directions, all readers |
| ArrayEditCode.WalkCompiled | src/ascii-parser-props.cc:990-994 | walking the emitted stream with the arity table yields the edits' instructions in source order, each with count 1, and leaves no operand over |
| ArrayEditCode.LiteralIndexNames | src/ascii-parser-props.cc:966-973 | each literal operand still names the literal it was written with after the pool has grown |
| ArrayEditEval.DecodeLoop | src/next/crate/crate-reader.cc:95-179 | the decoding loop computes the records of a stream, or fails with those before the bad instruction |
| ArrayEditEval.ApplyLoop | src/next/layer/array-edit.cc:165-246 | the evaluation loop applies the records one by one |
| ArrayEditEval.ApplyRecordOf | src/next/layer/array-edit.cc:99-246 | the evaluator's index arithmetic on a record does what the edit says |
| ArrayEditEval.CompiledMeaning | src/array-edit.hh:34-64 | running the compiled stream over any array gives what running the surface edits gives, with `prepend` and `append` at 0 and at the end, size-limit errors included |
| ArrayEditEval.StackedEdits | src/next/layer/array-edit.cc:184-246 | applying weaker edits and then stronger ones is applying their concatenation |
| ArrayEditLaws.EditHasEffect | src/next/layer/array-edit.cc:184-246 | every edit element by element: which one is set, put in or taken out, what stays, what fills up, and the size-limit error |
| ArrayEditLaws.RecordHasEffect | src/next/layer/array-edit.cc:184-246 | the evaluator has the same effect on the edit's record |
| ArrayEditLaws.EffectIsUnique | src/next/layer/array-edit.cc:184-246 | only one result has the effect of an edit |
| ArrayEditLaws.WordsAre | src/array-edit.hh:34-64 | the exact words that each edit is compiled to |
| ArrayEditStreams.DecodesExactly | src/next/crate/crate-reader.cc:95-179 | any stream, with any repetition counts, is whole runs, decoded to the records of their edits, and a rest that is empty exactly on success; otherwise the rest starts with an unknown op, or with a run that is cut off or names a missing literal, and the records before that are kept |
| ArrayEditStreams.StreamMeaning | src/next/layer/array-edit.cc:165-246 | running any stream that decodes does what its edits do, repetition by repetition |
| ArrayEditPrinter.PrintLoop | src/value-pprint-dispatch.cc:400-477 | the printing loop writes the instructions with their separators; a truncated stream ends it |
| ArrayEditPrinter.PrintCompiled | src/value-pprint-dispatch.cc:400-477 | printing a compiled stream gives the canonical text of its edits |
| ArrayEditStreams.PrintsExactly | src/value-pprint-dispatch.cc:400-477 | any stream is printed repetition by repetition with semicolons between, `<?>` for a missing literal and nothing for an unknown op, up to a last run that is cut off |
| ArrayEditPrinter.PrintParse | src/value-pprint-dispatch.cc:400-477 | for every accepted text, printing what was parsed and parsing it again gives the same literals and the same stream |
| ArrayEditPrinter.InverseIsMet | src/value-pprint-dispatch.cc:400-477 | decimal readers and writers of whole numbers meet the assumption of the round trip |
| SplineSyntax.ReadsExactlyTexts | src/ascii-parser-props.cc:1225-1516 | a spline value is read from p to q exactly when a text of the grammar stands there, with line breaks and semicolons in front of entries and of the brace, in which no bare `loop` is followed by a word and no knot by a semicolon; at the end of the input the brace of a last customData closes the spline as well |
| SplineSyntax.DictClosesSpline | src/ascii-parser-props.cc:1464-1477 | `{ 0: 1; {}` is read where the input ends behind it, and not with a line end behind it |
| SplineSyntax.SemicolonsBetweenEntries | src/ascii-parser-props.cc:1356-1365 | `{ bezier; 0: 1 }` and `{ ; }` are read, `{ 0: 1; }` is not |
| SplineSyntax.TangentExact | src/ascii-parser-props.cc:1273-1313 | the four tangent shapes are told apart by the token after the first comma, exactly |
| SplineSyntax.ExtrapExact | src/ascii-parser-props.cc:1316-1354 | the extrapolation modes, with a bare `loop` taking any word with a letter in front behind it |
| SplineParser.Parser.Parse | src/ascii-parser-props.cc:1225-1516 | succeeds exactly where a spline text stands and the value type is floating-point; fills in exactly what the text means |
| SplineParser.Parser.ParseTangent | src/ascii-parser-props.cc:1273-1313 | width 1 where only the slope is given; algorithm 0 where none is given |
| SplineParser.Parser.ParseExtrap | src/ascii-parser-props.cc:1316-1354 | mode and slope of the text; an unknown word behind `loop` is `repeat` |
| SplineParser.Parser.ParseLoop | src/ascii-parser-props.cc:1389-1418 | five numbers with four commas; the closing parenthesis may be missing |
| SplineParser.Parser.ParseKnot | src/ascii-parser-props.cc:1423-1504 | time, one or two values and any number of specs, the later ones overriding |
| SplineMeaning.ExactImage | src/ascii-parser-props.cc:1225-1516 | a spline is the meaning of some accepted text if and only if its modes, algorithms and values are canonical |
| SplineMeaning.MeaningCanonical | src/ascii-parser-props.cc:1356-1513 | whatever is parsed stays canonical |
| SplineFields.EmptySpline | src/ascii-parser-props.cc:1356-1365 | `{}` is the spline with every default |
| SplineFields.CurveSets | src/ascii-parser-props.cc:1370-1373 | `bezier` and `hermite` set the curve type and nothing else |
| SplineFields.ExtrapolationSets | src/ascii-parser-props.cc:1316-1354 | the number of each mode and the slope, 0 unless sloped, set on the side that is named, and nothing else |
| SplineFields.LoopIsRepeat | src/ascii-parser-props.cc:1336-1349 | `loop` alone or with any word but `reset` and `oscillate` gives the spline of `loop repeat`, whatever follows; right behind it the mode is 4 |
| SplineFields.LoopSets | src/ascii-parser-props.cc:1401-1418 | the five loop parameters in their order, the two counts without their fractions |
| SplineFields.BareKnotSets | src/ascii-parser-props.cc:1423-1452 | a knot without specs is added at the end: times, values and defaults |
| SplineFields.SpecSets | src/ascii-parser-props.cc:1454-1508 | each further spec overrides the fields that it names, and no others |
| SplinePrinter.Print | src/pprint-meta.cc:1094-1188 | the printing loop writes the text of the spline's entries |
| SplinePrinter.PrintsExactly | src/pprint-meta.cc:1094-1188 | the printed text of any spline, token by token: what is left out, the words for modes and algorithms, and the order of the numbers |
| SplinePrinter.PrintedTextIsRead | src/pprint-meta.cc:1094-1188 | the printed text of any spline is read whole, in any surrounding text |
| SplinePrinter.PrintThenRead | src/pprint-meta.cc:1094-1188 | what printing and reading make of any spline, field by field |
| SplinePrinter.RoundTrip | src/pprint-meta.cc:1094-1188 | printing and reading give the spline back if and only if it is canonical, no tangent hides behind a mode that is not `curve`, and hermite tangents have width 1 |
| SplinePrinter.PrintingSettles | src/pprint-meta.cc:1094-1188 | a spline that was parsed is unchanged by printing and reading after one round |
| SplinePrinter.BareHermiteKnotChanges | src/pprint-meta.cc:1150-1156 | the parsed text `hermite, 0: 0` is changed by printing and reading |
| CharReader.Cursor.SkipWhitespace | src/ascii-parser.cc:2791-2814 | skips blanks; at the end of the input steps back one character, and fails only at the very start |
| CharReader.Cursor.SkipWhitespaceAndNewline | src/ascii-parser.cc:2816-2869 | skips blanks, semicolons and line ends, and does not step back |
| CharReader.Cursor.ExpectChar | src/ascii-parser.cc:2932-2955 | the character behind the blanks, read past only with its blanks |
| CharReader.Cursor.MaybeNone | src/ascii-parser.cc:1322-1341 | consumes the four characters or nothing |
| CharReader.SpaceSkipped | src/ascii-parser.cc:2791-2814 | where blanks, tabs and form feeds end; one character before the end of the input, and nowhere at the very start |
| CharReader.GapSkipped | src/ascii-parser.cc:2816-2869 | where blanks, tabs, form feeds, semicolons and line ends stop |
| TimeSamples.ReadPair | src/ascii-parser-timesamples.cc:152-204 | a time and its value move the cursor on by at least two characters in spite of the step back, which makes the loops terminate |
| TimeSamples.SampleParser.ParseTyped | src/ascii-parser-timesamples.cc:122-246 | succeeds exactly on a block of the typed reader, with its samples in text order; a failure leaves the samples before the mistake in the caller's list |
| TimeSamples.SampleParser.ParseGeneric | src/ascii-parser-timesamples.cc:326-439 | succeeds exactly on a block of the generic reader; a failure leaves the caller's list alone |
| TimeSamples.SampleParser.ParseSeparator | src/ascii-parser-timesamples.cc:206-242 | comma, closing brace, closing brace behind line ends, or nothing at all before the next sample |
| TimeSamples.SampleParser.ParseTimeSamples | src/ascii-parser-timesamples.cc:294-439 | fast path, cursor restore and fallback: accepts what either loop accepts, with the typed result first, and what is left after a failure |
| TimeSampleLaws.FastPathIsTransparent | src/ascii-parser-timesamples.cc:294-439 | with agreeing readers the typed and the generic loop accept the same inputs, stop at the same position and give the same samples, so the fast path changes nothing |
| TimeSampleLaws.SamplesAgree | src/ascii-parser-timesamples-array.cc:224-346 | the same for the loop from any position, and for the samples before a mistake |
| TimeSamples.SomethingLeft | src/ascii-parser-timesamples.cc:122-246 | samples stand before the mistake if and only if a pair reads behind the opening brace |
| TimeSampleLaws.PrefixExactly | src/ascii-parser-timesamples.cc:122-246 | what a failure leaves: all the pairs that are read one behind the separator of the other, up to one behind which no separator leads to another pair; without a failure, the samples of the block |
| TimeSampleExamples.FailureLeavesSample | src/ascii-parser-timesamples.cc:306-324 | `{1:1,x` fails and leaves one sample |
| TimeSampleEnds.UnclosedExactly | src/ascii-parser-timesamples.cc:343-354 | an accepted block lacks its closing brace if and only if it ends where the input does, gaps aside right behind an opening brace or a comma, or at a NUL behind a gap |
| TimeSampleEnds.AcceptedEnd | src/ascii-parser-timesamples.cc:343-354 | the same for the loop from any position |
| TimeSampleExamples.UnclosedIsAccepted | src/ascii-parser-timesamples.cc:343-354 | `{1:1,` is accepted with its one sample |
| TimeSampleLaws.PrintedBlockIsRead | src/timesamples-pprint.cc:553-661 | a printed list of samples is read back, in any surrounding text, by readers that invert the printers on the list's own times and values |
| TimeSampleExamples.AssumptionsAreMet | src/timesamples-pprint.cc:553-661 | a decimal reader and printer meet every assumption of these laws together, on every list of whole numbers |
| TimeSampleExamples.WholeSamplesReadBack | src/timesamples-pprint.cc:553-661 | so printed lists of whole numbers are read back without any assumption |
| TimeSampleEnds.SemicolonSeparates | src/ascii-parser-timesamples.cc:376-416 | a semicolon between samples, although the comment in the source rules it out: it ends the block before a closing brace, fails exactly where the input ends behind it, and goes on otherwise |
| TimeSampleEnds.CommaForSemicolon | src/ascii-parser-timesamples.cc:376-416 | a comma in place of a separating semicolon changes the result, samples or position, if and only if the input ends behind it, where the semicolon fails and the comma is accepted |
| TimeSampleEnds.CommaForSemicolonInBlock | src/ascii-parser-timesamples.cc:326-439 | the same for a whole block |
| TimeSampleExamples.SemicolonFailsAtEnd | src/ascii-parser-timesamples.cc:376-416 | `{1:1;` is rejected where `{1:1,` is accepted |
| TimeSampleExamples.WholeReadsAlike | src/ascii-parser-timesamples.cc:376-416 | the decimal reader meets the assumption of the comma law on every text |
| ArrayScan.Scanner.ScanAware | src/ascii-parser-basetype.cc:3162-3210 | stops one past the first position where the bracket level outside comments returns to zero, and fails exactly when there is none |
| ArrayScan.Scanner.ScanBlind | src/ascii-parser-basetype.cc:3452-3476 | the same without regard to comments |
| ArrayScan.MatchIsUnique | src/ascii-parser-basetype.cc:3177-3196 | there is at most one such position |
| ArrayScan.MatchesExactly | src/ascii-parser-basetype.cc:3177-3196 | that position, counted: closing brackets are one more than opening ones for the first time; the comment-aware scanner counts those with no `#` before them on their line |
| ArrayScan.AwareIsBlindOnBlanked | src/ascii-parser-basetype.cc:3162-3476 | for every text the comment-aware scanner stops where the comment-blind one stops on the text with its comments blanked |
| ArrayScan.ScannersAgree | src/ascii-parser-basetype.cc:3162-3476 | with no `#` before the stop of either scanner the other stops at the same place |
| ArrayScan.ScannersFailTogether | src/ascii-parser-basetype.cc:3162-3476 | with no `#` at all both stop or both fail |
| ArrayScan.BlindAgreesExactly | src/ascii-parser-basetype.cc:3162-3476 | where the comment-aware scanner stops, the comment-blind one stops if and only if the brackets in comments balance up to there and never take back the last open bracket |
| ArrayScan.AwareAgreesExactly | src/ascii-parser-basetype.cc:3162-3476 | where the comment-blind scanner stops, the comment-aware one stops if and only if taking away the brackets in comments changes neither the last level nor the sign of an earlier one |
| ArrayScan.ScannersAgreeWithoutBrackets | src/ascii-parser-basetype.cc:3162-3476 | with no bracket in a comment before the stop of either scanner the other stops at the same place |
| ArrayScan.BlindStopsInComment | src/ascii-parser-basetype.cc:3452-3476 | a closing bracket in a comment stops the blind scanner early |
| ArrayLiteral.FindArrayLiteralEnd | src/ascii-parser-basetype-impl.inc:155-202 | the pointer loop computes the end of a literal outside comments and strings, within the buffer |
| ArrayLiteral.SkipQuoted | src/ascii-parser-basetype-impl.inc:101-153 | one past the closing quote, for single and triple quotes and their escapes, within the buffer |
| ArrayLiteral.LiteralAgreesWithAware | src/ascii-parser-basetype-impl.inc:155-202 | with neither quotes nor carriage returns before the stop of either scanner, it agrees with the comment-aware scanner |
| ArrayLiteral.LiteralEndExactly | src/ascii-parser-basetype-impl.inc:155-202 | stops one past the first position where the bracket level outside comments and strings returns to zero, and fails exactly when there is none |
| ArrayLiteral.LiteralAgreesExactly | src/ascii-parser-basetype-impl.inc:155-202 | where the comment-aware scanner stops, this one stops if and only if the brackets that only one of them skips balance up to there and never take back the last open bracket |
| ArrayLiteral.LiteralAgreesUndisputed | src/ascii-parser-basetype-impl.inc:155-202 | with no bracket that only one of them skips before the stop of either scanner, the other stops at the same place |
| ArrayLiteral.LiteralIsBlind | src/ascii-parser-basetype-impl.inc:155-202 | with no comment sign and no quote before the stop of either, it agrees with the comment-blind scanner |
| ArrayLiteral.ScannersDispute | src/ascii-parser-basetype-impl.inc:155-202 | a closing bracket behind a carriage return in a comment, and one in a string, stop only one of the two |
| ArrayLiteral.StringSkipped | src/ascii-parser-basetype-impl.inc:174-179 | a quoted string is skipped whole whatever brackets and comment signs it holds |
| ArrayLiteral.SingleExactly | src/ascii-parser-basetype-impl.inc:138-153 | a string in one pair of quotes ends at e if and only if what stands before e is a content followed by that quote: both directions |
| ArrayLiteral.TripleExactly | src/ascii-parser-basetype-impl.inc:108-137 | the same for a string in triple quotes, with its own escape |
| ArrayLiteral.TripleStringSkipped | src/ascii-parser-basetype-impl.inc:174-179 | a string in triple quotes is skipped whole |
| MemoryBudget.Budget.TryCharge | src/ascii-parser-basetype.cc:57-65 | a charge is accepted exactly when the mathematical sum fits; the 64-bit subtraction and sum do not wrap |
| MemoryBudget.Budget.Release | src/ascii-parser-basetype.cc:67-71 | a reduction of more than the usage does nothing |
| MemoryBudget.Budget.Run | src/ascii-parser-basetype.cc:57-71 | any run of charges and reductions |
| MemoryBudget.RunBalances | src/ascii-parser-basetype.cc:57-71 | over any run the usage stays within the limit and is what was charged less what was released |
| MemoryBudget.VerdictsExactly | src/ascii-parser-basetype.cc:57-71 | in any run a charge is accepted exactly when it fits on top of what the operations before it left in use |
| Diagnostics.SourceLine | src/ascii-parser-entry.cc:739-770 | the line of that number, and nothing for a row that is not there |
| Diagnostics.LinesJoined | src/ascii-parser-entry.cc:739-770 | the lines are the text without carriage returns, cut at all its line feeds |
| Diagnostics.ClipLine | src/ascii-parser-entry.cc:800-824 | the window around the column, with dots where something is cut off; it never leaves the line |
| Diagnostics.CaretUnderColumn | src/ascii-parser-entry.cc:798-826 | the clipped line holds at the caret offset the character of the original column; columns past the end stay in range |
| Diagnostics.FormatCursor | src/ascii-parser-entry.cc:774-832 | the whole message for every row, column and width: nothing, the header, or the header with the clipped line and the caret |
| Diagnostics.CaretInMessage | src/ascii-parser-entry.cc:774-832 | in the last two lines of the message the caret, with only blanks before it, stands under the character of the column |
| Diagnostics.MessageExactly | src/ascii-parser-entry.cc:774-832 | the whole message in words: line and column counted from 1, the line or the nearest window of the wanted width around the column with dots where it is cut, and the caret at the column |
| SchemaScanner.SkipString | scripts/generate-openusd-schema-manifest.py:29-41 | stops where the string ends and fails exactly when it does not end; `StringTo` says where: at the first three quotes, without escapes, or at the first quote that leaves a content of escapes and other characters |
| SchemaScanner.StringExactly | scripts/generate-openusd-schema-manifest.py:29-41 | the recursive length of a string is that of `StringTo`, both directions |
| SchemaScanner.SplitsExactly | scripts/generate-openusd-schema-manifest.py:68-101 | the split of a body is the one way to write it as complete statements joined by line feeds, of which the last breaks when a string does not end: joined again the pieces give the body |
| SchemaScanner.Statements | scripts/generate-openusd-schema-manifest.py:68-101 | yields the pieces, stripped, without the blank ones; fails exactly when a string does not end, after the pieces before the one with that string |
| SchemaLaws.PieceExactly | scripts/generate-openusd-schema-manifest.py:68-101 | a complete statement, counted: with strings and comments taken out its brackets balance, kind by kind, and in front of none of its line feeds; the last piece need not balance and breaks exactly at a string that does not end |
| SchemaLaws.TokenExactly | scripts/generate-openusd-schema-manifest.py:72-79 | what is skipped: a string by `StringTo`, a comment up to its line feed, else one character |
| SchemaLaws.YieldedExactly | scripts/generate-openusd-schema-manifest.py:93-101 | what is yielded of each piece in turn: the text without the twenty-nine blanks at its ends, unless nothing is left |
| SchemaMatching.Matching | scripts/generate-openusd-schema-manifest.py:44-65 | the scanning loop computes the position, and fails exactly when there is none |
| SchemaMatching.MatchesExactly | scripts/generate-openusd-schema-manifest.py:44-65 | that position is the first where the chosen bracket's depth returns to zero outside strings and comments, both directions |
| SchemaLaws.MatchCounted | scripts/generate-openusd-schema-manifest.py:44-65 | the same, counted: the closing bracket in front of which, outside strings and comments, as many have opened as closed, and never more closed than opened |

## Left out

- UsdaParser.Parser.ParseBlock: works on tokens, in which a metadata block, a property statement and a reorder statement are one token each; whether such a statement ends its line is part of its token, and what stands between the last token and the end of the input is a token too. Their own syntax and the blanks, comments and semicolons between other tokens are not part of this model.
- UsdaParser.Parser.ParseBlock: the construct callback is a fixed verdict on its arguments. In the typed-prim mode a prim of an unknown type passes with a warning and no callback; here that is a callback that accepts. A cancellation by the progress callback fails the parse like a callback that refuses. The recorded cursors are not modelled. After a failure the path stack, the calls and the pending reorders are only said to have grown.
- UsdaParser.Parser.ParseLayer: starts behind the magic header and the stage metadata.
- AssetResolver.Resolver.Find: the file system and the handlers are fixed functions of the path and the search paths; reading, writing and opening assets are left out, and so is the variant without a file system.
- AssetResolver.Resolver.Run: copying and moving a resolver clear the cache as well and are left out.
- SuffixCandidates.CandidatesAreTails: says nothing about which candidate exists on disk.
- ArrayEditParser.Parser.Parse: works on lexemes; a number and an element are one lexeme each, and positions inside a lexeme do not exist. The literal index is not cut to 64 bits.
- ArrayEditEval.ApplyLoop: elements are values, not printed text; the round trip of the evaluated array through its text is left out.
- ArrayEditPrinter.PrintParse: assumes that the readers of numbers and elements invert their printers, on all values of the element type.
- SplineParser.Parser.Parse: works on tokens; numbers are finite reals, infinities and NaN are left out, a knot's customData is one token that the parser drops, and the cast of a loop count to `int` is truncation without overflow.
- SplinePrinter.RoundTrip: assumes that the number reader inverts the number printer; the conversion to the attribute's value type is any function, idempotent where that is needed.
- TimeSamples.SampleParser.ParseGeneric: the loops for scalar and for array values have the same text and are one method, over any value reader; so is the separator of all three loops. Adding a sample never fails, as all values of a block have one type.
- TimeSamples.ReadPair: assumes of the readers that they consume input and that a number ends neither in a colon nor in a NUL.
- TimeSampleLaws.PrintedBlockIsRead: assumes that the readers invert the printers in front of a separator, on the times and values of the list; sorting of the samples by time happens later and is left out.
- TimeSampleEnds.CommaForSemicolon: assumes that a reader reads the same whether a semicolon or a comma stands behind what it has read, or before where it starts.
- Diagnostics.FormatCursor: without the overflow of the sum of column and width beyond the largest `int`.
- MemoryBudget.Budget.TryCharge: the add-first form of the macro, whose users are elsewhere, is left out.
- Number conversion, the attribute and property classes with the merging of their statements, the dispatch on value types, file reads, the crate format other than the array-edit decoder, composition, rendering and the tools around the library.
