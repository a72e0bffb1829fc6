# Verification of the interpreter's self-contained parts

A Dafny model of the parts of this C++ interpreter that do not depend on Clang or LLVM internals, with proofs of what they keep over whole runs. `dafny verify dfyconfig.toml` checks everything.

| modules | models |
|---|---|
| `ClangTypes`, `Values` | reference-counted payloads shared by copies of a `Value`, with the layout of arrays of records |
| `Lexing`, `LexRoundTrip`, `Decimals`, `MetaLexer` | the lexer for meta commands and the decoding of its constants |
| `Linkage`, `BackendPasses` | the linkage passes every module of a session goes through |
| `Strings`, `Paths`, `EnvVars`, `IncludePaths` | splitting path lists, expanding `$NAME`, adding include paths, printing them as flags |
| `PointerCheck` | the round-robin cache in front of the page validity check |
| `LastExpr` | finding or creating the last expression of a function body |
| `Transactions` | the forest of nested transactions, its diagnostics and its deletion |
| `Options`, `Sequences`, `Words` | a value that may be absent; lists of any kind; the bounds of 32-bit and 64-bit words |

How to read it. Code that changes state is a class (`Values.Memory`, `MetaLexer.Token`, `MetaLexer.Lexer`, `BackendPasses.Module`, `IncludePaths.HeaderSearchOptions`, `PointerCheck.Checker`, `LastExpr.FunctionDecl`, `Transactions.Transaction`) whose methods keep the original's loops and assignments; each method ends in the state that a pure function (`Step`, `LexAt`, `Processed`, `Query`, `Call`, ...) describes, and the laws are proved about those functions, for single calls and for whole runs. Undefined behaviour is a value of its own: `Fault` for touching a freed payload or writing a header outside its block, `Overrun` for reading past the input, `OutsideTable`, `Undefined`. C++ memory is explicit in `Values`: a slot number stands for an object and an allocation number for a payload, so that self-assignment and sharing are equal numbers.

Where a promise is not kept by the code, the exact condition under which it is kept is proved, next to a concrete input that breaks it:

- A payload of almost 2^32 bytes wraps the 32-bit size of its block, and construction writes outside it (`Values.ConstructExact`; `Values.HeaderOutsideBlock`, `ClangTypes.BlockTooSmall`). An object larger than that gets a block that cannot hold it (`Values.ObjectInsideIff`; `Values.LargeObjectCut`).
- A copy assignment releases before it retains, so a sole owner assigned to itself touches a freed payload; the 32-bit count must not wrap; the storage of an owning `Value` must not be overwritten; the last owner of an array without elements that was written to must not let go (`Values.StepExact`; `Values.SoleOwnerSelfAssignment`, `Values.CountWraps`, `Values.OverwrittenStorage`, `Values.NoElements`).
- Over a whole run each true element is destroyed once exactly for a record or a one-dimensional array that is not hidden behind a typedef, if its first eight bytes were written to, its size fits 32 bits and padding to eight bytes does not stretch the stride (`Values.EveryElementDestroyedOnce`; `Values.UnwrittenNotDestroyed`, `ClangTypes.TypedefHidesDestructor`, `ClangTypes.PaddingMovesSecondElement`).
- An enum behind a typedef is classified as an object (`ClangTypes.EnumKindIff`; `ClangTypes.TypedefHidesEnum`).
- An escape skips two characters even when the second is the terminating NUL (`Lexing.OverrunIff`; `Lexing.TrailingBackslashOverruns`); lexing a whole input leaves the memory exactly when it ends in such an escape (`Lexing.OverrunsIff`).
- The power table is right for eight digits (`Decimals.ConstantValueIff`; `Decimals.NinthDigitDecodedWrongly`).
- The comments say that existing weak symbols are reused; only linkonce definitions ever are (`BackendPasses.DroppedIff`; `BackendPasses.ResolvableWeakKept`).
- The pass that keeps declarations free of locality runs before the pass that makes new declarations (`BackendPasses.ModuleDeclarationsPreemptibleIff`; `BackendPasses.HiddenInlineFunction`).
- A declaration that leaves the passes need not have a linkage that LLVM allows declarations (`BackendPasses.ModuleDeclarationsLegalIff`; `BackendPasses.LinkOnceDeclaration`, `BackendPasses.WeakDeclaration`).
- The documentation of `SplitPaths` says that all returned paths exist; that depends on the mode (`Paths.ReturnedExistIff`; `Paths.MissingPathReturned`).
- The comment on adding include paths says that duplicates are avoided; that is so for paths that were there before the call (`IncludePaths.DuplicatesAvoidedIff`; `IncludePaths.RepeatedPathAddedTwice`).
- A value is expanded again from its second character on, so a variable that refers to itself makes the expansion run forever; it ends exactly for the strings that ask for no name of such a cycle (`EnvVars.EndsIff`; `EnvVars.SelfReferenceNeverEnds`).
- The cache answers for the page as it was when the pointer was remembered, and for null until eight pointers have been remembered (`PointerCheck.CacheRightIff`; `PointerCheck.StaleAnswer`, `PointerCheck.NullOnEmptyCache`).
- A body without a statement that is not null has no defined last expression (`LastExpr.DefinedIff`; `LastExpr.NullStatementsUndefined`).
- Without cycles of nesting, deleting a transaction frees everything it owns once exactly when nothing is nested in two places (`Transactions.PostorderExact`; `Transactions.NestedTwice`).

## Model

| member | source | states |
|---|---|---|
| ClangTypes.GetNumberOfElements | lib/Interpreter/Value.cc:209-221 | the loop computes the 64-bit product of the array bounds that are spelled out without resolving a typedef |
| ClangTypes.CountSplits | lib/Interpreter/Value.cc:209-221 | for every type that product times the number of elements hidden behind it, by a typedef of an array, is the true number of elements |
| ClangTypes.KindIs | lib/Interpreter/Value.cc:113-140 | a type that is no enum has the kind of what its typedefs resolve to: void, the builtin's own kind, none for an unsupported builtin, object for everything else |
| ClangTypes.EnumKindIff | lib/Interpreter/Value.cc:118-125 | an enum has the kind of its integers exactly when it is written without a typedef, and is an object otherwise |
| ClangTypes.TypedefHidesEnum | lib/Interpreter/Value.cc:118-125 | an enum over int is a scalar, a typedef of it an object |
| ClangTypes.NeedsIff | lib/Interpreter/Value.cc:146-153 | a payload is needed exactly for records, arrays and member pointers, behind typedefs or not |
| ClangTypes.DtorFoundIff | lib/Interpreter/Value.cc:223-235 | for every type: a destructor is found exactly for a record that has one, or an array of such records written with one dimension |
| ClangTypes.ElementsRecognisedIff | lib/Interpreter/Value.cc:223-240 | for a type whose innermost element is a destructible record, destructor and element count are both found exactly for a record or a one-dimensional array written as such |
| ClangTypes.TypedefHidesDestructor | lib/Interpreter/Value.cc:146-153 | a typedef of an array of three records gets a payload, but no destructor and a count of one |
| ClangTypes.SizeIsCountTimesLeaf | lib/Interpreter/Value.cc:238 | the size handed to the allocation is the true number of elements times the element size |
| ClangTypes.AddressesExactIff | lib/Interpreter/Value.cc:50-58 | every destructor call address is that of a true element lying inside the allocated block, if and only if header and elements, 32 + n·s, fit 32 bits and n is 1 or n·(s+1) exceeds 8 |
| ClangTypes.OffsetsInside | lib/Interpreter/Value.cc:56-87 | a destructor call, stride included, stays inside the allocated block, whatever the padding, exactly when the 32-bit sum of header and payload size does not wrap |
| ClangTypes.OffsetsEvenlySpaced | lib/Interpreter/Value.cc:86-87 | the call for the first element goes to the start of the payload, each next one a stride further |
| ClangTypes.StrideExactIff | lib/Interpreter/Value.cc:85 | the computed stride is the element size exactly when n·s fits 32 bits and n·(s+1) exceeds 8 |
| ClangTypes.BlockTooSmall | lib/Interpreter/Value.cc:50-56 | 2^32 - 1 one-byte elements: the stride is right and the block has 31 bytes |
| ClangTypes.PaddingMovesSecondElement | lib/Interpreter/Value.cc:52-54 | two three-byte elements: the second call is one byte late |
| ClangTypes.ArrayOfPointers | lib/Interpreter/Value.cc:223-240 | an array of three pointers gets a block of 56 bytes and no destructor |
| Values.Memory.constructor | include/cppinterp/Interpreter/Value.h:140 | memory starts with no Value and no payload |
| Values.Memory.Retain | lib/Interpreter/Value.cc:77 | one more owner in 32-bit arithmetic, or a fault on a freed payload; nothing else changes |
| Values.Memory.Release | lib/Interpreter/Value.cc:79-91 | one owner less; with the last one the payload goes |
| Values.Memory.Dispose | lib/Interpreter/Value.cc:82-89 | the elements are destroyed if there is a destructor and the canary was overwritten, then the payload is freed |
| Values.Memory.DestroyElements | lib/Interpreter/Value.cc:86-87 | the loop destroys from the last element to the first |
| Values.Memory.ConstructValue | lib/Interpreter/Value.cc:50-158 | a new Value owns a fresh payload laid out for its type exactly when the type needs one; it faults where header and canary do not fit the block that was allocated |
| Values.Memory.CopyConstructValue | lib/Interpreter/Value.cc:102-111 | the copy has the same fields and the payload one more owner |
| Values.Memory.MoveConstructValue | include/cppinterp/Interpreter/Value.h:144-152 | ownership goes over and the source becomes an invalid Value that owns nothing |
| Values.Memory.CopyAssignValue | lib/Interpreter/Value.cc:160-176 | release, field by field copy, retain, in that order, also when both sides are the same object |
| Values.Memory.MoveAssignValue | lib/Interpreter/Value.cc:178-193 | release, field by field copy, source made invalid, also when both sides are the same object |
| Values.Memory.DestructValue | lib/Interpreter/Value.cc:195-199 | the payload is released if owned and the object is gone |
| Values.ConstructExact | lib/Interpreter/Value.cc:50-158 | construction stays inside its block and keeps the invariant exactly when header and payload fit 32 bits |
| Values.HeaderOutsideBlock | lib/Interpreter/Value.cc:56-60 | constructing an array of 2^32 - 1 one-byte records writes outside its block |
| Values.CopyAssignExact | lib/Interpreter/Value.cc:160-176 | copy assignment goes through and keeps counts and ownership right if and only if it is not a sole owner's self-assignment, the count does not wrap and the old payload may be let go |
| Values.MoveAssignExact | lib/Interpreter/Value.cc:178-193 | move assignment, self-assignment included, goes through and keeps counts and ownership right if and only if the old payload may be let go |
| Values.DestructExact | lib/Interpreter/Value.cc:79-199 | so does destruction: the one case in which it fails is the last owner of an array without elements that was written to |
| Values.SetStorageExact | include/cppinterp/Interpreter/Value.h:197-203 | writing the storage keeps the invariant exactly when the Value owns nothing or the storage stays what it is |
| Values.StepExact | lib/Interpreter/Value.cc:102-199 | each operation succeeds and keeps the invariant (count equals owners, no dangling owner, every freed payload went through one release) if and only if its guard holds |
| Values.CopyEqualsSource | lib/Interpreter/Value.cc:102-176 | after a copy construction or copy assignment the target has the storage, ownership, kind, type and interpreter that the source had before |
| Values.MoveHandsOver | lib/Interpreter/Value.cc:178-193 | after a move the target has all five fields the source had, and the source, a self-move included, is invalid and owns nothing while storage, type and interpreter stay |
| Values.ConstructedFields | lib/Interpreter/Value.cc:142-158 | a new Value knows its type, kind and interpreter and owns a payload nobody had before, with one owner, its layout and the canary, exactly for records, arrays and member pointers; otherwise no payload changes |
| Values.CanaryBytes | lib/Interpreter/Value.cc:95-96 | the eight bytes that mark a payload as not constructed |
| Values.PlainFields | lib/Interpreter/Value.cc:195-199 | default construction gives an invalid Value, destruction removes it, writing the storage changes nothing else |
| Values.OthersUnchanged | lib/Interpreter/Value.cc:102-199 | no operation changes, creates or removes a Value it does not name |
| Values.PayloadsKept | lib/Interpreter/Value.cc:77-91 | a payload keeps its layout and bytes through every operation, its retirement included, unless user code writes through an owner |
| Values.SoleOwnerSelfAssignment | lib/Interpreter/Value.cc:160-173 | constructing a record and assigning it to itself faults |
| Values.OverwrittenStorage | include/cppinterp/Interpreter/Value.h:197-203 | constructing a record and overwriting its storage breaks the invariant, and its destructor then faults |
| Values.CountWraps | lib/Interpreter/Value.cc:77-80 | with 2^32 owners the count is zero and the next release fails its assertion |
| Values.LargeObjectCut | lib/Interpreter/Value.cc:238-240 | 2^32 + 8 one-byte elements get a block of 40 bytes without any fault |
| Values.NoElements | lib/Interpreter/Value.cc:83 | an array of no records that was written to fails the assertion on release |
| Values.NoElementsUnwritten | lib/Interpreter/Value.cc:82 | constructing such an array and destroying it unwritten is safe |
| Values.UnwrittenNotDestroyed | lib/Interpreter/Value.cc:36-40 | a record whose first eight bytes were never written is freed without being destroyed |
| Values.FreedWithLastOwner | lib/Interpreter/Value.cc:79-91 | a live payload is freed by an operation exactly when the operation leaves it without an owner |
| Values.CopyUndone | lib/Interpreter/Value.cc:102-111 | destroying a fresh copy restores the whole state |
| Values.RunKeepsInvariant | lib/Interpreter/Value.cc:79-199 | over every safe run of any length nothing faults and the invariant holds at the end |
| Values.EverythingReleasedOnce | lib/Interpreter/Value.cc:79-91 | when no Value is left, each payload was freed exactly once, after one destructor call per element from last to first inside the allocated block if it has a destructor and its canary was overwritten, and after none otherwise |
| Values.EveryElementDestroyedOnce | lib/Interpreter/Value.cc:79-241 | those calls are at the addresses of the true elements, each once, if and only if there are no elements, or the canary was overwritten, it is a record or an array written with one dimension, and it has one element or n·s fits 32 bits and n·(s+1) exceeds 8 |
| Values.ObjectInsideIff | lib/Interpreter/Value.cc:50-56 | at every moment of a safe run an object lies inside the block allocated for it exactly when its size and the header fit 32 bits |
| Lexing.ScanStopsAtFirst | lib/MetaProcessor/MetaLexer.cc:192-231 | the literal scan ends at the first closing quote or NUL preceded inside the literal by an even run of backslashes, and runs off the memory exactly when there is none |
| Lexing.OverrunIff | lib/MetaProcessor/MetaLexer.cc:43-91 | a call reads outside the memory exactly when it starts there or at a quote without an unescaped end |
| Lexing.TrailingBackslashOverruns | lib/MetaProcessor/MetaLexer.cc:205-208 | a quote, a backslash and the end of input overrun |
| Lexing.LexAdvances | lib/MetaProcessor/MetaLexer.cc:43-91 | a call that does not leave the memory moves forward and reports exactly what it consumed, apart from unknown characters and the end of file of an unterminated literal |
| Lexing.KindSpelled | include/cppinterp/MetaProcessor/MetaLexer.h:11-42 | a token whose kind has just one text in the list of kinds has exactly that text |
| Lexing.PunctuatorSpelled | lib/MetaProcessor/MetaLexer.cc:115-190 | each punctuator gets the kind that the list of kinds gives its character |
| Lexing.UnknownIff | lib/MetaProcessor/MetaLexer.cc:43-91 | a token is unknown exactly at a character that begins nothing, or for an identifier whose length is a multiple of 2^32 |
| Lexing.LettersAre | lib/MetaProcessor/MetaLexer.cc:75-84 | the characters that begin an identifier are the letters and the underscore |
| Lexing.DigitsAre | lib/MetaProcessor/MetaLexer.cc:71-73 | the digits, one by one |
| Lexing.BlanksAre | lib/MetaProcessor/MetaLexer.cc:85 | blank and tab |
| Lexing.BracketsCloseIff | include/cppinterp/MetaProcessor/MetaLexer.h:72-80 | what is lexed at one place closes what is lexed at another exactly for ] and [, ) and (, } and { |
| Lexing.OverrunsIff | lib/MetaProcessor/MetaLexer.cc:43-231 | lexing a whole input leaves the memory exactly when a reader of quotes and escapes alone ends inside an escape of a literal |
| Lexing.LexingTiles | lib/MetaProcessor/MetaLexer.cc:43-91 | there is at most one call per character, and the calls reach the end of file with consumed ranges that follow each other without gap or overlap, exactly when that reader does not |
| Lexing.NoBackslashBeforeEnd | lib/MetaProcessor/MetaLexer.cc:205-208 | it does not for any input that ends in another character than a backslash |
| LexRoundTrip.LexOne | lib/MetaProcessor/MetaLexer.cc:115-190 | a well-formed text is read back as its own kind and text unless the next character extends it |
| LexRoundTrip.MergesByFirstCharacter | lib/MetaProcessor/MetaLexer.cc:55-69 | the table of merging neighbours is right about first characters |
| LexRoundTrip.PrintLexRoundTrip | lib/MetaProcessor/MetaLexer.cc:43-275 | printing a list of tokens and lexing it again gives the same kinds and texts and then the end of file, if and only if no two neighbours merge |
| Decimals.ShortConstant | lib/MetaProcessor/MetaLexer.cc:17-29 | up to eight digits the weighted sum is the decimal value, below 10^8 and so never the sentinel |
| Decimals.ConstantValueIff | lib/MetaProcessor/MetaLexer.cc:17-29 | up to ten digits the decoded value is the decimal value if and only if that is below 10^8 |
| Decimals.NinthDigitDecodedWrongly | lib/MetaProcessor/MetaLexer.cc:17-25 | 100000000 is decoded as 2^32 - 1 |
| Decimals.TenDigits | lib/MetaProcessor/MetaLexer.cc:17-25 | the first of ten digits counts nothing |
| Decimals.LexedConstant | lib/MetaProcessor/MetaLexer.cc:17-241 | at a digit the lexer returns a constant of digits only; with at most eight it decodes to its decimal value, with up to ten exactly when that is below 10^8 |
| Decimals.PrintLexDecode | lib/MetaProcessor/MetaLexer.cc:233-241 | a number below 10^8, printed, lexed and decoded, comes back |
| MetaLexer.Token.StartToken | include/cppinterp/MetaProcessor/MetaLexer.h:49-54 | the token is unknown, empty and not decoded |
| MetaLexer.Token.GetConstant | lib/MetaProcessor/MetaLexer.cc:20-29 | the value of the digits, memoised, the same on every later call; more than ten digits read outside the table |
| MetaLexer.LexedIsDecodable | lib/MetaProcessor/MetaLexer.cc:20-241 | whatever constant the lexer left in a token can be decoded |
| MetaLexer.SumDigits | lib/MetaProcessor/MetaLexer.cc:23-27 | the loop forms the weighted sum in 32 bits |
| MetaLexer.Lexer.constructor | lib/MetaProcessor/MetaLexer.cc:31-36 | the cursor is at the start, or behind the leading blanks |
| MetaLexer.Lexer.Lex | lib/MetaProcessor/MetaLexer.cc:43-91 | token and cursor are the ones of the described call, or the call overran |
| MetaLexer.Lexer.LexSlashOrAsterik | lib/MetaProcessor/MetaLexer.cc:55-69 | comment marks are two characters, otherwise punctuators |
| MetaLexer.Lexer.LexPunctuatorAt | lib/MetaProcessor/MetaLexer.cc:115-190 | kind and length by the character |
| MetaLexer.Lexer.LexQuotedStringAndAdvance | lib/MetaProcessor/MetaLexer.cc:192-231 | the loop ends where the scan does |
| MetaLexer.Lexer.LexConstantFrom | lib/MetaProcessor/MetaLexer.cc:233-241 | the token is the longest run of digits |
| MetaLexer.Lexer.LexIdentifierFrom | lib/MetaProcessor/MetaLexer.cc:243-255 | the token is the longest run of identifier characters |
| MetaLexer.Lexer.LexWhitespace | lib/MetaProcessor/MetaLexer.cc:271-275 | the token is the longest run of blanks |
| MetaLexer.Lexer.SkipWhiteSpace | lib/MetaProcessor/MetaLexer.cc:264-269 | the cursor is behind the run of blanks |
| BackendPasses.ReportsExactly | lib/Incremental/BackendPasses.cc:26-263 | each pass reports a change of a global exactly when the global differs afterwards |
| BackendPasses.DroppedIff | lib/Incremental/BackendPasses.cc:220-263 | through the whole chain a body is dropped exactly for a linkonce definition whose name already resolves, unless it is a small function; otherwise body and name survive |
| BackendPasses.DefinitionAfterChain | lib/Incremental/BackendPasses.cc:26-263 | a definition that is not dropped keeps name, kind, body and visibility; its linkage becomes weak exactly if it is internal, named and no string literal, or an external variable of type information; it becomes dso_local exactly if such a one is not of default visibility |
| BackendPasses.DroppedAfterChain | lib/Incremental/BackendPasses.cc:237-263 | a dropped definition becomes a declaration of the same name, kind and visibility, a function an external one |
| BackendPasses.DeclarationAfterChain | lib/Incremental/BackendPasses.cc:70-132 | a declaration stays one, of default visibility and not dso_local; a local one becomes external and an external variable of type information weak |
| BackendPasses.ResolvableWeakKept | lib/Incremental/BackendPasses.cc:220-225 | a weak function of sixty instructions whose name resolves passes through unchanged |
| BackendPasses.EmittableStaysResolvable | lib/Incremental/BackendPasses.cc:220-263 | an emittable definition is emitted or its name resolved already |
| BackendPasses.StrongIff | lib/Incremental/BackendPasses.cc:116-132 | exactly the external definitions other than type information variables come out strong |
| BackendPasses.PreventMakesPreemptible | lib/Incremental/BackendPasses.cc:70-98 | the second pass leaves a declaration non-local, of default visibility and not dso_local |
| BackendPasses.DeclarationPreemptibleIff | lib/Incremental/BackendPasses.cc:248-263 | after the chain a declaration is so exactly when it came in as a declaration or was a definition of default visibility that is not dso_local |
| BackendPasses.ModuleDeclarationsPreemptibleIff | lib/Incremental/BackendPasses.cc:328-331 | for a module: all declarations are so exactly when no linkonce definition that resolves already and is no small function came in hidden or dso_local |
| BackendPasses.DeclarationLegalIff | lib/Incremental/BackendPasses.cc:70-263 | after the chain a declaration has a linkage LLVM allows exactly when it is a dropped function or came in with such a linkage, or a local one, and not as a non-weak variable of type information |
| BackendPasses.ModuleDeclarationsLegalIff | lib/Incremental/BackendPasses.cc:328-331 | for a module: all declarations are so exactly when every global that comes in as a declaration or meets the guard of the reuse pass is of that kind |
| BackendPasses.LinkOnceDeclaration | lib/Incremental/BackendPasses.cc:237-243 | a linkonce variable that resolves already becomes a linkonce declaration |
| BackendPasses.WeakDeclaration | lib/Incremental/BackendPasses.cc:116-128 | the external declaration of a type information variable becomes a weak declaration |
| BackendPasses.HiddenInlineFunction | lib/Incremental/BackendPasses.cc:258-260 | a hidden inline function of sixty instructions becomes a hidden dso_local declaration |
| BackendPasses.SubmittedStaysResolvable | lib/Incremental/BackendPasses.cc:328-331 | over any session, every emittable definition ever submitted resolves by name at the end |
| BackendPasses.KnownWasEmitted | lib/Incremental/BackendPasses.cc:227-234 | a name is known after a session exactly if some output module holds a named definition of that name that is neither local nor available externally |
| BackendPasses.DroppedWasResolvable | lib/Incremental/BackendPasses.cc:227-234 | in any session a body is dropped only if its name resolved before its module came in |
| BackendPasses.StronglyDefinesIff | lib/Incremental/BackendPasses.cc:116-132 | an output module of a session strongly defines a name exactly when its input defined it externally and not as a type information variable |
| BackendPasses.DuplicateSymbolIff | lib/Incremental/BackendPasses.cc:116-132 | two different output modules of a session strongly define the same name exactly when two inputs defined it externally and not as a type information variable |
| BackendPasses.Module.RewriteFunctions | lib/Incremental/BackendPasses.cc:57-60 | the loop rewrites every function in place and reports whether any step changed one |
| BackendPasses.Module.RewriteVariables | lib/Incremental/BackendPasses.cc:61-64 | the loop rewrites every variable in place and reports whether any step changed one |
| BackendPasses.Module.RunPass | lib/Incremental/BackendPasses.cc:269-276 | a pass reports a change exactly when the module differs |
| BackendPasses.Module.RunPasses | lib/Incremental/BackendPasses.cc:325-337 | the four passes in order leave the module that the chain describes |
| Paths.SplitThenJoin | lib/Utils/Paths.cc:202-261 | the leftmost split loses nothing and no segment contains the delimiter |
| Paths.JoinThenSplit | lib/Utils/Paths.cc:202-261 | for every non-empty delimiter, splitting joined parts gives the parts back exactly when behind each part but the last the delimiter put there is the first one found, and the last part contains none |
| Paths.JoinCharThenSplit | lib/Utils/Paths.cc:202-261 | for a delimiter of one character that is so exactly when no part contains it |
| Paths.OverlappingDelimiter | lib/Utils/Paths.cc:202-261 | xa and b joined by aa do not come back |
| Paths.SplitPaths | lib/Utils/Paths.cc:202-261 | terminates for every non-empty delimiter, appends the non-empty segments the mode keeps (in fail mode those before the first missing directory) and is true exactly when every non-empty segment is a directory |
| Paths.KeptIs | lib/Utils/Paths.cc:202-261 | what is appended are the segments, in order and repeats included, at exactly these positions: the existing non-empty ones in prune mode, all non-empty ones in allow mode, the non-empty ones before the first missing one in fail mode |
| Paths.AllExistIs | lib/Utils/Paths.cc:211-214 | the returned truth value is about every non-empty segment |
| Paths.ReturnedExistIff | lib/Utils/Paths.cc:216-239 | all returned paths exist exactly when missing ones are not allowed or there are none |
| Paths.MissingPathReturned | lib/Utils/Paths.cc:233-234 | in allow mode a missing directory is returned |
| EnvVars.CutUpIs | lib/Utils/Paths.cc:18-26 | every string is cut into dollar-free texts and slash-free names, each name ending at a slash or the end, and nothing is lost |
| EnvVars.CutAtDollar | lib/Utils/Paths.cc:18-26 | the first cut is at the first dollar, and its name runs to the next slash or the end |
| EnvVars.TurnIs | lib/Utils/Paths.cc:26-32 | a turn of the loop settles the text and the first character of the value and leaves the rest of the value in front of the rest of the string |
| EnvVars.SearchAfterTurn | lib/Utils/Paths.cc:33 | the next search finds the first dollar of what is left |
| EnvVars.EndsIff | lib/Utils/Paths.cc:17-34 | the loop ends exactly when the string asks for no name of a trap, a set of variables each of whose values asks again for one of the set |
| EnvVars.SelfReferenceNeverEnds | lib/Utils/Paths.cc:32-33 | with A set to x$A the string $A is expanded forever |
| EnvVars.ExpandEnvVars | lib/Utils/Paths.cc:17-39 | whenever the loop ends the result is the left-to-right expansion; with path on, the answer is whether it exists |
| EnvVars.Expand | lib/Utils/Paths.cc:18-34 | the loop computes that expansion |
| EnvVars.OneTurn | lib/Utils/Paths.cc:19-34 | the body of the loop keeps what is settled and what is left in step with the string and the position |
| EnvVars.ReplaceOne | lib/Utils/Paths.cc:20-33 | the name behind the dollar is replaced by its value, an unset one by nothing |
| EnvVars.PlainExpansion | lib/Utils/Paths.cc:17-34 | when no value the string asks for has a dollar after its first character the loop ends after one turn for each name, with every name replaced by its value |
| EnvVars.DollarFreeIff | lib/Utils/Paths.cc:17-34 | whenever the loop ends, its result is free of dollars exactly when no name that the string reaches through values has a value that starts with one |
| EnvVars.AskedIff | lib/Utils/Paths.cc:19-34 | the names looked up by the loop are those of the least set that holds the names in the string and whatever its values ask for from their second character on |
| EnvVars.ExpandIdempotent | lib/Utils/Paths.cc:17-34 | then expanding the result again ends at once and returns it |
| EnvVars.PlainIdempotent | lib/Utils/Paths.cc:17-34 | when no value the string asks for has a dollar, the loop ends with the plain substitution, free of dollars, and expanding that returns it |
| EnvVars.OneName | lib/Utils/Paths.cc:17-34 | one name whose value has no dollar behind its first character is replaced by its value, an unset one by nothing, and the text around it stays |
| IncludePaths.CopyIncludePaths | lib/Utils/Paths.cc:45-126 | appends the flags the options stand for, or fails exactly when a framework entry is outside the angled group |
| IncludePaths.FlagsReadBack | lib/Utils/Paths.cc:45-126 | with system and flags on, a reader recovers all settings and each entry's path, group and framework bit in order, for arbitrary path strings |
| IncludePaths.FlagPrintingLosesNothing | lib/Utils/Paths.cc:45-126 | two option sets that print the same agree on all of that |
| IncludePaths.PathsOnly | lib/Utils/Paths.cc:45-126 | with flags off the output is the paths of the printed entries in order, then the resource directory if system paths are on and it is set |
| IncludePaths.UserFlagsReadBack | lib/Utils/Paths.cc:45-126 | with system off and flags on a reader recovers the sysroot and the printed entries, and nothing else is there |
| IncludePaths.ShownInOrder | lib/Utils/Paths.cc:57-103 | the printed entries are, in order, all of them with system on, and those of the After, Quoted and Angled groups with system off |
| IncludePaths.FlagsSpelled | lib/Utils/Paths.cc:45-126 | all flags of a full set of options and an index header map, letter by letter |
| IncludePaths.AllowedAreNonEmpty | lib/Utils/Paths.cc:267-268 | in the mode used here the split gives all non-empty segments |
| IncludePaths.AbsentMembers | lib/Utils/Paths.cc:272-282 | the checked paths are the candidates absent before the call |
| IncludePaths.CandidatesAre | lib/Utils/Paths.cc:266-270 | an empty delimiter means the path string itself, any other its non-empty segments in order, repeats included |
| IncludePaths.AddedInOrder | lib/Utils/Paths.cc:263-288 | the old entries stay where they are; behind them come, in order and repeats included, Angled entries for exactly the candidates whose path no old entry has |
| IncludePaths.AddingTwiceAddsOnce | lib/Utils/Paths.cc:263-288 | old entries stay as a prefix, every candidate is present afterwards, and the same call again adds nothing |
| IncludePaths.DuplicatesAvoidedIff | lib/Utils/Paths.cc:272-288 | afterwards no path stands twice exactly when none did before and the call repeats only paths that were there before it |
| IncludePaths.RepeatedPathAddedTwice | lib/Utils/Paths.cc:272-282 | adding a:a to nothing adds a twice |
| IncludePaths.HeaderSearchOptions.AddIncludePaths | lib/Utils/Paths.cc:263-288 | the entries are the old ones followed by the absent candidates in order, repeats included |
| IncludePaths.HeaderSearchOptions.CheckPaths | lib/Utils/Paths.cc:273-282 | the nested loops keep exactly the absent candidates, in order |
| PointerCheck.IsPowerOfTwo | lib/Utils/Platform.cc:70-75 | the shift loop terminates and decides powers of two for every word |
| PointerCheck.MaskedAddress | lib/Utils/Platform.cc:45-57 | for such a page size masking rounds every address down to a multiple of it |
| PointerCheck.BaseIs | lib/Utils/Platform.cc:56-57 | the base is the first byte of the page that holds the address |
| PointerCheck.CacheIsFifo | lib/Utils/Platform.cc:39-67 | in every run the lines read backwards are the last eight pushes in order, and written lines differ from each other |
| PointerCheck.CachedIff | lib/Utils/Platform.cc:39-54 | a pointer is in the lines exactly when it is among the last eight pushes, or null before there were eight |
| PointerCheck.CacheRightIff | lib/Utils/Platform.cc:50-67 | in every run, whatever happens to the pages, the answer is that of the uncached check exactly when the pointer is not such a recent one or its page is valid |
| PointerCheck.NullOnEmptyCache | lib/Utils/Platform.cc:52-54 | before the first push null is called valid with no page mapped |
| PointerCheck.CacheAgreesIff | lib/Utils/Platform.cc:50-67 | in every run over pages that stay valid, the answer is that of the uncached check, except exactly for null while fewer than eight pointers were pushed and page zero is not valid |
| PointerCheck.StaleAnswer | lib/Utils/Platform.cc:52-54 | a remembered pointer is still called valid after its page went away |
| PointerCheck.Checker.PushLine | lib/Utils/Platform.cc:39-42 | the next line is overwritten and becomes the most recent |
| PointerCheck.Checker.IsValid | lib/Utils/Platform.cc:50-67 | answer and cache are the ones of the described query of the masked address |
| LastExpr.FunctionDecl.GetOrCreateLastExpr | lib/AST/AST.cc:53-120 | outcome and body are the ones of the described call; both loops run backwards |
| LastExpr.DefinedIff | lib/AST/AST.cc:64-79 | the call is defined exactly for a compound body with a statement that is not null |
| LastExpr.NullStatementsUndefined | lib/AST/AST.cc:64-79 | a body of two empty statements has no defined outcome |
| LastExpr.CallReports | lib/AST/AST.cc:79-118 | the last non-null statement is reported if an expression; a reference to the last variable of a declaration is inserted right after it and reported; all other statements stay in order |
| LastExpr.CallIsStable | lib/AST/AST.cc:53-120 | the same call again returns the same and leaves the body alone |
| Transactions.Transaction.constructor | lib/Interpreter/Transaction.cc:85-98 | a new transaction is a root that collects and owns nothing |
| Transactions.Transaction.GetTopmostParent | include/cppinterp/Interpreter/Transaction.h:347-353 | in any acyclic forest the loop ends at the root |
| Transactions.RootIs | include/cppinterp/Interpreter/Transaction.h:347-353 | the root is the one transaction without a parent among the parents of a transaction at any height |
| Transactions.Transaction.GetIssuedDiags | include/cppinterp/Interpreter/Transaction.h:287-289 | the diagnostics of the root |
| Transactions.Transaction.SetIssuedDiags | include/cppinterp/Interpreter/Transaction.h:290-292 | decides what is reported for exactly the transactions under the same root |
| Transactions.Transaction.Delete | lib/Interpreter/Transaction.cc:100-109 | frees the owned transactions in postorder, or stops where an assertion fails; parent links play no part |
| Transactions.PostorderExact | lib/Interpreter/Transaction.cc:100-109 | that order contains the transaction and everything it owns at any depth, itself last, and each exactly once if and only if nothing it owns is nested in two places |
| Transactions.FreedInOrder | lib/Interpreter/Transaction.cc:102-107 | at any depth nested transactions are freed before the one that lists them and in the order in which it lists them |
| Transactions.NestedTwice | lib/Interpreter/Transaction.cc:102-107 | a transaction nested twice in the same one is freed twice |
| Transactions.SiblingsDisjoint | lib/Interpreter/Transaction.cc:102-106 | nothing is owned by two nested transactions of the same one |
| Transactions.DeletableIff | lib/Interpreter/Transaction.cc:103-105 | no assertion fails exactly when every owned transaction is committed or rolled back |

## Left out

- EnvVars.ExpandEnvVars: says nothing about strings whose expansion does not end; which ones these are is `EnvVars.EndsIff`.
- LexRoundTrip.PrintLexRoundTrip: the printed text is limited to 2^32 characters, because token lengths are stored in 32 bits.
- MetaLexer.Token.GetConstant: the sum is formed in a local variable and stored once; the original stores every partial sum in the token.
- Transactions.Transaction.Delete: asks that nothing is nested in itself at any depth, and that nothing owned is nested in two places, because a second deletion would touch a freed object; `Transactions.PostorderExact` shows that without cycles the latter is exactly what it takes.
- Values.Memory.ConstructValue: whether the interpreter finds a destructor for a record, and the width of each type, are carried by the type.
- Values.Memory: objects and payloads are entries of maps under slot and allocation numbers; the way back from a payload to its header, and the reuse of a freed address, are not modelled. The header has the 32 bytes it takes where pointers have eight.
- Destructors that call back into Value code, exceptions, and payload bytes past the canary.
- CastFwd, getAs and the typed getters of Value.
- lexAnyString, readToEndOfLine, reset and the position-restoring guard of the lexer: single assignments and loops without a further law.
- UniqueCUDAStructorName: it is only added when a CUDA binary is configured.
- The optimiser pipeline, the per-function passes and the caching of pass managers in BackendPasses.
- Verbose logging, LookForFile, and the printing of include paths to a stream.
- Concurrent use of the pointer cache; the model is of one thread's lines.
- Files, environment, directories and mapped pages are functions or sets handed to the model.
- Building the reference expression itself, and a caller that does not ask where the last expression was found.
- The declarations, modules and macros a transaction collects.
