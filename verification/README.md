# Verified model of kgit2

kgit2 is a Kotlin/Native wrapper around libgit2. Most of it forwards calls; this project models the
parts with logic of their own and proves what they promise, for all inputs and all runs. Run
`dafny verify dfyconfig.toml`.

| file | subject |
|---|---|
| `OperatorGrammar.dfy` | flat operator rule with precedence table against the layered reference grammar |
| `Regex.dfy`, `Tokens.dfy` | comment, digit and literal tokens as regular expressions |
| `NativeList.dfy` | the list swapped by identity compare-and-set, under any number of threads |
| `CachedIterator.dfy` | the look-ahead iterator on top of that list |
| `SharedIterator.dfy` | the atomic-index iterator shared by threads |
| `Ownership.dfy`, `RawObjects.dfy` | free, move, cleaners and arenas: all interleavings, and the objects |
| `Submodules.dfy` | the breadth-first submodule update |
| `Credentials.dfy` | the search over credential helpers and the parser of their output |
| `Flags.dfy` | flag masks and their mirror in a C struct |
| `StrArrays.dfy` | a Kotlin list mirrored in a C string array |
| `Logging.dfy` | placeholder expansion, and the queue flushed when a backend connects |
| `ReadLine.dfy` | the growing line buffer in C |
| `Grouping.dfy` | the line grouping of the two Rust generators |

Concurrent code is a state machine whose runs are arbitrary lists of atomic actions of any number of
threads. The same operations are class methods too, each proved to take the step, or to be the run, of
that machine in which one thread makes the call and nobody interrupts it. Other code that changes state
is imperative Dafny proved against functions, and the theorems are about those functions.

## Where the code does not do what it seems to promise

Each of these is a theorem with the exact condition.

- Updates of `NativeMutableList` can be lost, because `clear` reinstalls the one shared empty list and
  the compare-and-set compares identities. No run loses an update exactly when the program does not
  clear a list that it also grows (`NoLostUpdatesExactly`).
- The look-ahead test of `IteratorBase.hasNext` compares with a `size` that stays 0, so every `hasNext`
  pulls from the source; a false answer means "all delivered" exactly when no true `hasNext` is still
  without its `next` (`NoMeansAllDelivered`).
- An index past the end is asked for in some run exactly when two threads share a non-empty iterator
  (`InRangeExactly`).
- The arena of a Memory is left uncleared by some run exactly when somebody can free that Memory: a later
  allocation sets up an arena that nobody clears (`SomeRunLeaksExactly`, `LateAllocLeaks`). Once no call is
  under way, a freed Memory has had its arena cleared exactly when no free of it found none
  (`ArenaClearedExactly`).
- `beforeFree` is finished before the arena is cleared exactly when nobody else frees the Memory
  (`HookThenClearExactly`).
- `asObject` never returns: `move` makes the guarded getter refuse the very next read (`AsObject`).
- A generated constructor whose initialiser succeeds but leaves a null pointer throws without freeing the
  Memory (`Construct`).
- A helper's value comes back from the parser exactly when it has no `=` and no line break
  (`ValueComesBackExactly`).
- Some helper can make the credential search succeed exactly when there is a command to ask and the preset
  username is not the empty string (`SearchCanSucceedExactly`).
- `RepositoryInitOptions` starts from the `and` of three single-bit masks, which is 0, and agrees with its
  struct before the first `flag` call exactly when the struct has no flag set.
- The C mirror of a `StrArray` spells the list exactly when no string has a NUL (`MirrorExactly`).
- `readline` has room for its NUL exactly when the input has a newline or the length is no multiple of 16
  (`RoomForNul`).
- The reference grammar derives a token string exactly when no comparison is chained and no `is` check
  goes on to the right (`ReferenceDerivesExactly`); its `integer_literal`, unlike the token, takes no
  leading zero (`IntegerLanguage`).
- The binary token takes a literal of the reference exactly when no two of its digits stand side by side
  (`BinLanguage`); it rejects `0b10` (`BinTwoRejected`).
- For a message, the placeholder error text means that values were missing exactly when the message cannot
  be filled in to read like that text, which can be told from the message alone
  (`ErrorTextProvesErrorExactly`). The message `{}` with that text for its value shows that it can be
  (`ErrorTextWithoutError`).

## Model

| member | source | states |
|---|---|---|
| OperatorGrammar.LegalTreeUnique | generator/tree-sitter-kotlin/grammar.js:583-601 | two trees that respect the levels and `prec.left` and have the same tokens are equal |
| OperatorGrammar.RunIsLegal | generator/tree-sitter-kotlin/grammar.js:27-48 | from any well-formed stack the shift-reduce loop ends in a tree that respects the table |
| OperatorGrammar.ParseIsTheLegalTree | generator/tree-sitter-kotlin/grammar.js:568-601 | a tree is legal for a token string if and only if it is the one the shift-reduce loop builds |
| OperatorGrammar.TwoOperators | generator/tree-sitter-kotlin/grammar.js:583-601 | of two operators the first is applied first exactly when its level is at least that of the second |
| OperatorGrammar.LevelsAsListed | generator/tree-sitter-kotlin/grammar.js:27-48 | the operators bind in the order of the table, from multiplicative to disjunction, with `in` and `is` on one level |
| OperatorGrammar.TableFollowsLayers | generator/tree-sitter-kotlin/grammar.js:27-48 | the order of the levels is the nesting order of the reference rules |
| OperatorGrammar.FoldIsLegal | generator/tree-sitter-kotlin/grammar-reference.js:540-563 | the left-folded tree of a reference derivation respects the table and has neither form that only the flat grammar allows |
| OperatorGrammar.UnfoldDerives | generator/tree-sitter-kotlin/grammar-reference.js:540-563 | every legal tree without those forms has a reference derivation that folds to it |
| OperatorGrammar.UnfoldInvertsFold | generator/tree-sitter-kotlin/grammar-reference.js:540-563 | a reference derivation can be read back from its folded tree |
| OperatorGrammar.InReferenceByTokens | generator/tree-sitter-kotlin/grammar-reference.js:546-551 | whether a legal tree stays inside the reference grammar can be told from its operators alone |
| OperatorGrammar.RewritingPreservesMeaning | generator/tree-sitter-kotlin/grammar.js:568-601 | whatever the reference derives for a token string, folded left, is the tree the flat grammar builds, and the derivation is unique |
| OperatorGrammar.ReferenceDerivesExactly | generator/tree-sitter-kotlin/grammar-reference.js:538-563 | the reference derives a token string if and only if it has no chained comparison and no `is` that continues to the right |
| Tokens.BodyLanguage | generator/tree-sitter-kotlin/grammar.js:1031 | the expression between the delimiters accepts exactly the texts that end in a star and contain no star-slash |
| Tokens.BlockCommentLanguage | generator/tree-sitter-kotlin/grammar.js:1031 | block comments are exactly slash-star texts whose first star-slash is at the end, for every length |
| Tokens.LineCommentLanguage | generator/tree-sitter-kotlin/grammar.js:1030 | line comments are exactly the strings without a newline that start with two slashes |
| Tokens.CommentLanguage | generator/tree-sitter-kotlin/grammar.js:1029-1032 | the token accepts exactly line comments and block comments |
| Tokens.DigitsTokenLanguage | generator/tree-sitter-kotlin/grammar.js:49-50 | runs of digits joined by runs of underscores are exactly digits and underscores with a digit at each end |
| Tokens.DigitsReferenceLanguage | generator/tree-sitter-kotlin/grammar-reference.js:1187-1192 | the reference rule has the same description |
| Tokens.DigitsAgree | generator/tree-sitter-kotlin/grammar.js:49-50 | token form and reference form of digit strings accept the same strings |
| Tokens.SpacedTokenLanguage | generator/tree-sitter-kotlin/grammar.js:51 | single digits joined by runs of underscores are exactly digits and underscores with a digit at each end and no two digits side by side |
| Tokens.BinLanguage | generator/tree-sitter-kotlin/grammar.js:1076 | the reference's binary literals character by character; the token accepts exactly those without two digits side by side |
| Tokens.BinTwoRejected | generator/tree-sitter-kotlin/grammar-reference.js:1229-1232 | `0b10` is a binary literal of the reference and not of the token |
| Tokens.HexLanguage | generator/tree-sitter-kotlin/grammar.js:1074 | token and reference accept exactly `0`, `x` or `X`, and characters from 0-9, a-f, A-F and `_` that neither start nor end with `_` |
| Tokens.DigitRanges | generator/tree-sitter-kotlin/grammar.js:49-51 | the three digit sets are the character ranges of the grammar |
| Tokens.HexAgrees | generator/tree-sitter-kotlin/grammar.js:1074 | the hexadecimal token and the reference rule accept the same strings |
| Tokens.RealAgrees | generator/tree-sitter-kotlin/grammar.js:1061-1070 | the real-number token and the reference's float and double rules accept the same strings |
| Tokens.RealLanguage | generator/tree-sitter-kotlin/grammar.js:1061-1070 | token and reference accept exactly: digits, a dot and digits, an exponent with or without a sign, and a suffix, where only digits before a dot may be missing and at least one of dot, exponent and suffix is there |
| Tokens.ExponentLanguage | generator/tree-sitter-kotlin/grammar.js:52 | an exponent is `e` or `E`, at most one sign, and digits |
| Tokens.IntegerLanguage | generator/tree-sitter-kotlin/grammar.js:1072 | the integer token accepts exactly DEC_DIGITS, and the reference rule the same without leading zeros |
| Tokens.IntegerReferenceLanguage | generator/tree-sitter-kotlin/grammar-reference.js:1211-1214 | the reference integer rule accepts exactly digit strings without a leading zero |
| NativeList.RunKeepsInv | src/commonMain/kotlin/com/kgit2/concurrency/NativeMutableList.kt:19-48 | in every interleaving of a program that does not clear what it grows, the published list is the fold of the successful operations in the order of their compare-and-sets |
| NativeList.LosingRunLoses | src/commonMain/kotlin/com/kgit2/concurrency/NativeMutableList.kt:19-25 | for every growing operation, a run of three threads in which a clear makes a stale update succeed |
| NativeList.NoLostUpdatesExactly | src/commonMain/kotlin/com/kgit2/concurrency/NativeMutableList.kt:19-48 | no run loses an update if and only if the program does not clear a list it also grows |
| NativeList.UninterruptedSucceeds | src/commonMain/kotlin/com/kgit2/concurrency/NativeMutableList.kt:25 | a mutator whose three steps nobody interrupts succeeds on the list it found |
| NativeList.WithoutFirst | src/commonMain/kotlin/com/kgit2/concurrency/NativeMutableList.kt:37-38 | a removal takes out the first occurrence and leaves everything else where it was; without an occurrence the list stays |
| NativeList.RetainedIsFilter | src/commonMain/kotlin/com/kgit2/concurrency/NativeMutableList.kt:47-48 | exactly the kept elements, each as often and in the order in which it was there |
| NativeList.NativeMutableList.constructor | src/commonMain/kotlin/com/kgit2/concurrency/NativeMutableList.kt:11-15 | the shared empty list, with `size` fixed at 0 |
| NativeList.NativeMutableList.From | src/commonMain/kotlin/com/kgit2/concurrency/NativeMutableList.kt:17 | the given list, with `size` fixed at its length |
| NativeList.NativeMutableList.Add | src/commonMain/kotlin/com/kgit2/concurrency/NativeMutableList.kt:25 | the three steps of the protocol, alone: the element is appended to the live list |
| NativeList.NativeMutableList.AddAll | src/commonMain/kotlin/com/kgit2/concurrency/NativeMutableList.kt:34-35 | likewise for a collection |
| NativeList.NativeMutableList.Remove | src/commonMain/kotlin/com/kgit2/concurrency/NativeMutableList.kt:37-38 | likewise: the first occurrence goes; the answer compares the old length with the frozen `size` |
| NativeList.NativeMutableList.RetainAll | src/commonMain/kotlin/com/kgit2/concurrency/NativeMutableList.kt:47-48 | likewise: the elements not kept go; same answer |
| NativeList.NativeMutableList.Clear | src/commonMain/kotlin/com/kgit2/concurrency/NativeMutableList.kt:19-21 | likewise: the shared empty list is installed |
| NativeList.NativeMutableList.Get | src/commonMain/kotlin/com/kgit2/concurrency/NativeMutableList.kt:23 | the live list is read, whatever `size` says |
| CachedIterator.LookAheadExactly | src/commonMain/kotlin/com/kgit2/memory/IteratorBase.kt:15-19 | `hasNext` answers without a pull exactly when the size says that there is a further element |
| CachedIterator.EveryHistory | src/commonMain/kotlin/com/kgit2/memory/IteratorBase.kt:15-30 | after any calls at all the cache is what was pulled, one pull per `hasNext`, and the index counts the `next`s |
| CachedIterator.KthNext | src/commonMain/kotlin/com/kgit2/memory/IteratorBase.kt:15-30 | the k-th `next` gives the k-th element of the source if it was pulled before, else it fails and is used up |
| CachedIterator.DisciplineIsWhatCounts | src/commonMain/kotlin/com/kgit2/memory/IteratorBase.kt:15-30 | no `next` fails if and only if every `next` has a true `hasNext` of its own before it |
| CachedIterator.DeliversAPrefix | src/commonMain/kotlin/com/kgit2/memory/IteratorBase.kt:15-30 | such a history delivers the source's elements in order, without skip or repeat |
| CachedIterator.NoMeansAllDelivered | src/commonMain/kotlin/com/kgit2/memory/IteratorBase.kt:21-26 | when `hasNext` is false the source is over, and all was delivered if and only if calls alternate |
| CachedIterator.ListGoesOn | src/commonMain/kotlin/com/kgit2/memory/IteratorBase.kt:32 | `list` after such a history goes on in order without skip or repeat, and misses exactly as many elements at the end as there were true `hasNext`s without a `next` |
| CachedIterator.ListEnds | src/commonMain/kotlin/com/kgit2/memory/IteratorBase.kt:32 | after any history `list` fails as the source does, or with its first `next` exactly when more was asked for than pulled and an element is still to come |
| CachedIterator.ListLeaves | src/commonMain/kotlin/com/kgit2/memory/IteratorBase.kt:32 | cache, index and pulls after `list`, whatever the history |
| CachedIterator.IteratorBase.HasNext | src/commonMain/kotlin/com/kgit2/memory/IteratorBase.kt:15-28 | one step of that model: an element is cached, IterOver is false, another error is thrown |
| CachedIterator.IteratorBase.Next | src/commonMain/kotlin/com/kgit2/memory/IteratorBase.kt:30 | the index advances before the cache is read |
| CachedIterator.IteratorBase.ResetCache | src/commonMain/kotlin/com/kgit2/memory/IteratorBase.kt:34-37 | the iterator starts over with the next pull |
| CachedIterator.IteratorBase.List | src/commonMain/kotlin/com/kgit2/memory/IteratorBase.kt:32 | from any history on: the rest of the elements, the other error that ended the source, or the first `next` that fails |
| SharedIterator.BoundedOvershoot | src/commonMain/kotlin/com/kgit2/memory/IterableBase.kt:13-17 | claimed indices are gapless from 0 and at most n-1 + (T-1) for T threads |
| SharedIterator.WorstCase | src/commonMain/kotlin/com/kgit2/memory/IterableBase.kt:13-17 | for every n and T at least 1, a run that reaches that bound |
| SharedIterator.InRangeExactly | src/commonMain/kotlin/com/kgit2/memory/IterableBase.kt:13-17 | no run claims an index past the end if and only if T is 1 or n is 0 |
| SharedIterator.NoMeansAllClaimed | src/commonMain/kotlin/com/kgit2/memory/IterableBase.kt:15 | once `hasNext` is false every element was claimed, by a single thread once each and in order |
| SharedIterator.InnerIterator.HasNext | src/commonMain/kotlin/com/kgit2/memory/IterableBase.kt:15 | the check of the model for the calling thread: true exactly when it makes the thread ready |
| SharedIterator.InnerIterator.Next | src/commonMain/kotlin/com/kgit2/memory/IterableBase.kt:16 | the claim of the model for the calling thread, and the element at the claimed index |
| Ownership.RunKeepsInv | src/commonMain/kotlin/com/kgit2/memory/CallbackAble.kt:16-19 | every interleaving of frees, moves, both cleaners and allocations keeps the ownership invariant |
| Ownership.OwnershipOverAllRuns | src/commonMain/kotlin/com/kgit2/memory/Raw.kt:18-34 | at most one free or move wins; hook, dispose and arena clear happen at most once; the hook never after a move; the getter refuses exactly then |
| Ownership.RefusedEverAfter | src/commonMain/kotlin/com/kgit2/memory/RawWrapperBase.kt:8-15 | once refused, refused after any further actions |
| Ownership.FreeCompletes | src/commonMain/kotlin/com/kgit2/memory/Raw.kt:22-28 | when no call is under way, every Raw that was freed has had its hook and its Memory is freed |
| Ownership.CallsComplete | src/commonMain/kotlin/com/kgit2/memory/CallbackAble.kt:16-19 | when no call is under way, exactly one free or move has won on every Raw that was called or cleaned, and every callback cleaner has disposed |
| Ownership.CleanedIsFreed | src/commonMain/kotlin/com/kgit2/memory/RawWrapper.kt:7-14 | when no call is under way, a Raw that was freed or whose cleaner ran, and that nobody moved, was freed with its hook and its Memory; one that was only moved was not; the getter refuses exactly the Raws called or cleaned |
| Ownership.EverythingIsCaused | src/commonMain/kotlin/com/kgit2/memory/Raw.kt:22-32 | in every run only a move moves, only a free or a cleaner frees, and Memory and arena change only for a call that asks for it |
| Ownership.MemorySettledExactly | src/commonMain/kotlin/com/kgit2/common/memory/Memory.kt:9-25 | when no call is under way, a Memory is freed if and only if it was freed by name or a free won on a Raw of it, and has an arena if and only if something was allocated |
| Ownership.BaseCleanerAlone | src/commonMain/kotlin/com/kgit2/memory/RawWrapper.kt:13 | the cleaner, alone, has the whole effect of a free, once |
| Ownership.CallbackCleanerAlone | src/commonMain/kotlin/com/kgit2/memory/CallbackAble.kt:16-19 | the callback cleaner, alone, disposes the stable reference and then frees, once |
| Ownership.BeginsExactly | src/commonMain/kotlin/com/kgit2/memory/CallbackAble.kt:16-19 | an idle agent may begin any call at any time, except a cleaner a second time and the free of a Memory without a scope |
| Ownership.ArenaClearCompletes | src/commonMain/kotlin/com/kgit2/common/memory/Memory.kt:19-25 | an arena set up before its Memory is freed is cleared by the time no call is under way |
| Ownership.ArenaClearedExactly | src/commonMain/kotlin/com/kgit2/common/memory/Memory.kt:9-25 | when no call is under way, the arena of a freed Memory was cleared if and only if no free of it found that none had been set up |
| Ownership.LateAllocLeaks | src/commonMain/kotlin/com/kgit2/common/memory/Memory.kt:9-25 | a free followed by an allocation leaves an arena that is not cleared |
| Ownership.SomeRunLeaksExactly | src/commonMain/kotlin/com/kgit2/common/memory/Memory.kt:9-25 | some run leaves the arena of a freed Memory uncleared if and only if somebody can free the Memory |
| Ownership.UnsharedOrder | src/commonMain/kotlin/com/kgit2/memory/Raw.kt:22-28 | with an unshared Memory the hook is done before the Memory is freed and the arena cleared |
| Ownership.HookThenClearExactly | src/commonMain/kotlin/com/kgit2/common/memory/Memory.kt:19-25 | that order holds in all runs if and only if nobody else frees the Memory |
| Ownership.MovedArenaSurvives | src/commonMain/kotlin/com/kgit2/memory/Raw.kt:30-32 | after a move won, an unshared Memory is never freed nor its arena cleared |
| RawObjects.Memory.Alloc | src/commonMain/kotlin/com/kgit2/common/memory/Memory.kt:9-17 | the run of the model with this call alone: the first use sets up the arena |
| RawObjects.Memory.Free | src/commonMain/kotlin/com/kgit2/common/memory/Memory.kt:19-25 | the run with this call alone: the arena is cleared once, at the first free, and only if it was set up |
| RawObjects.Raw.Free | src/commonMain/kotlin/com/kgit2/memory/Raw.kt:22-28 | the run with this call alone: the first free runs the hook once and frees the Memory; later ones change nothing |
| RawObjects.Raw.Move | src/commonMain/kotlin/com/kgit2/memory/Raw.kt:30-32 | the run with this call alone: the Raw counts as freed and nothing else changes |
| RawObjects.RawWrapper.Wrap | src/commonMain/kotlin/com/kgit2/memory/RawWrapper.kt:7-14 | a freed Raw cannot be wrapped, any other can |
| RawObjects.RawWrapper.GetRaw | src/commonMain/kotlin/com/kgit2/memory/RawWrapperBase.kt:8-15 | the object unless it was freed or moved, as the getter of the model |
| RawObjects.RawWrapper.AsObject | src/commonMain/kotlin/com/kgit2/blob/Blob.kt:38-41 | the hand-over always fails and leaves the Raw given up |
| RawObjects.Construct | ksp/src/main/resources/templates/raw-declare.ftl:51-79 | a live Raw exactly when the pointer was set; a thrown error releases once and frees the Memory; a null pointer frees nothing |
| Submodules.FutureIsLevels | src/commonMain/kotlin/com/kgit2/repository/Repository.kt:995-1000 | the first-in first-out work list visits exactly the concatenation of the levels |
| Submodules.LevelMembers | src/commonMain/kotlin/com/kgit2/repository/Repository.kt:988-993 | a level holds exactly the repositories of its depth |
| Submodules.WalkOrder | src/commonMain/kotlin/com/kgit2/repository/Repository.kt:987-1001 | every submodule at every depth occurs once, nothing else does, each comes after its parent, shallower ones come first and those of one depth in the order of their listing |
| Submodules.UpdatedMeaning | src/commonMain/kotlin/com/kgit2/repository/Repository.kt:988-993 | what was updated before the first failure, with the failed one only if its update succeeded and its opening did not |
| Submodules.AddSubRepos | src/commonMain/kotlin/com/kgit2/repository/Repository.kt:988-993 | the submodules are updated and queued in order, up to the first that throws |
| Submodules.UpdateSubmodules | src/commonMain/kotlin/com/kgit2/repository/Repository.kt:987-1001 | the loop ends; it updates the whole order, or the part up to the first failure |
| Credentials.PartsOfLine | src/commonMain/kotlin/com/kgit2/credential/CredentialHelper.kt:189-195 | the first two parts at `=` are the key and the text between the first and second equals sign |
| Credentials.LastValueMeaning | src/commonMain/kotlin/com/kgit2/credential/CredentialHelper.kt:188-200 | the value for a key is that of the last line that carries it, none if no line does |
| Credentials.ParseOutput | src/commonMain/kotlin/com/kgit2/credential/CredentialHelper.kt:185-203 | for every output, username and password are those values |
| Credentials.RoundTrip | src/commonMain/kotlin/com/kgit2/credential/CredentialHelper.kt:185-203 | parsing printed entries, among any others whose values may hold `=`, with any line breaks between them and with or without one at the end, gives the last value of the key |
| Credentials.ValueComesBackExactly | src/commonMain/kotlin/com/kgit2/credential/CredentialHelper.kt:189-195 | a printed value is parsed back if and only if it has no `=` and no line break |
| Credentials.FirstUsernameMeaning | src/commonMain/kotlin/com/kgit2/credential/CredentialHelper.kt:118-120 | the username found is the first non-empty one reported |
| Credentials.LastPasswordMeaning | src/commonMain/kotlin/com/kgit2/credential/CredentialHelper.kt:121-123 | the password found is the last non-empty one reported |
| Credentials.SearchCanSucceedExactly | src/commonMain/kotlin/com/kgit2/credential/CredentialHelper.kt:113-129 | for some helper some prefix of the commands is enough, if and only if there is a command and the preset username is not the empty string |
| Credentials.CompleteExactly | src/commonMain/kotlin/com/kgit2/credential/CredentialHelper.kt:118-126 | the search is complete if and only if the username, the preset or else a reported one, and a reported password are not empty |
| Credentials.AskedMeaning | src/commonMain/kotlin/com/kgit2/credential/CredentialHelper.kt:114-120 | each command is asked in order with the preset username, or without one with the first non-empty username reported before |
| Credentials.CredentialHelper.Execute | src/commonMain/kotlin/com/kgit2/credential/CredentialHelper.kt:113-129 | a pair exactly when some prefix of the commands makes both parts known; the calls made are those of the least such prefix; a preset username is in every call and in the result, else the first non-empty one reported |
| Credentials.WithoutBangsMeaning | src/commonMain/kotlin/com/kgit2/credential/CredentialHelper.kt:90-91 | a shell command loses all its leading bangs and nothing else |
| Credentials.NormalizedMeaning | src/commonMain/kotlin/com/kgit2/credential/CredentialHelper.kt:90-97 | the three kinds of command, the last with `git credential-` in front |
| Credentials.CredentialHelper.KeysSpelled | src/commonMain/kotlin/com/kgit2/credential/CredentialHelper.kt:99-111 | the configuration keys character by character, and when there is none |
| Credentials.CredentialHelper.AddConfigured | src/commonMain/kotlin/com/kgit2/credential/CredentialHelper.kt:54-58 | a key that is there with a value adds one command, any other none |
| Credentials.CredentialHelper.AddCommand | src/commonMain/kotlin/com/kgit2/credential/CredentialHelper.kt:86-97 | shell commands lose their bangs, paths stay, other names become git credential commands; null adds nothing |
| Credentials.CredentialHelper.ConfigHelper | src/commonMain/kotlin/com/kgit2/credential/CredentialHelper.kt:53-69 | exact key, URL key and general key contribute in this order |
| Flags.LastCallDecides | ksp/src/main/resources/templates/flag-mask.ftl:12-20 | after any calls each bit holds the setting of the last call whose mask touches it, else its first value |
| Flags.HistoryIsKeepAndSet | ksp/src/main/resources/templates/flag-mask.ftl:12-20 | any calls equal one keep-mask and one set-mask, whatever the flags were |
| Flags.ContainsIsBitwise | ksp/src/main/resources/templates/flag-mask.ftl:23-25 | `contains` holds if and only if every single bit of the mask is set |
| Flags.FlagMask.Flag | ksp/src/main/resources/templates/flag-mask.ftl:12-20 | flags follow the history, and with a callback the struct equals them after every call |
| Flags.FlagMask.Has | ksp/src/main/resources/templates/flag-mask.ftl:34-36 | the generated queries answer `contains` |
| Flags.RepositoryInitOptions.constructor | src/commonMain/kotlin/com/kgit2/repository/RepositoryInitOptions.kt:24-30 | field and struct agree at first exactly when the struct is 0 |
| Flags.RepositoryInitOptions.Flag | src/commonMain/kotlin/com/kgit2/repository/RepositoryInitOptions.kt:68-77 | after every call the struct equals the field, which follows the history from 0 |
| StrArrays.ListAfterMeaning | src/commonMain/kotlin/com/kgit2/memory/MutableListBase.kt:10-31 | what each mutator puts, drops and keeps, position by position, and when it throws |
| StrArrays.BeforeNulMeaning | src/commonMain/kotlin/com/kgit2/model/StrArray.kt:38 | what C reads is the part before the first NUL |
| StrArrays.UpdateSpells | src/commonMain/kotlin/com/kgit2/model/StrArray.kt:37-40 | the rewritten struct, followed through the arena, spells the list as C sees it |
| StrArrays.MirrorKept | src/commonMain/kotlin/com/kgit2/memory/MutableListBase.kt:10-31 | any history of mutators keeps that, and earlier arena blocks stay as they were, with dispose as a mere zeroing |
| StrArrays.MirrorExactly | src/commonMain/kotlin/com/kgit2/memory/MutableListBase.kt:10-31 | the struct spells exactly the list if and only if no string has a NUL |
| StrArrays.StrArray.constructor | src/commonMain/kotlin/com/kgit2/model/StrArray.kt:29-31 | built from a collection, list and struct agree |
| StrArrays.StrArray.UpdateRaw | src/commonMain/kotlin/com/kgit2/model/StrArray.kt:37-40 | copies, pointers and count are appended and installed as the model says |
| StrArrays.StrArray.ClearRaw | src/commonMain/kotlin/com/kgit2/model/StrArray.kt:42-44 | by the contract of dispose the struct is zeroed |
| StrArrays.StrArray.Add | src/commonMain/kotlin/com/kgit2/memory/MutableListBase.kt:10 | list and mirror take the step of the model |
| StrArrays.StrArray.AddAll | src/commonMain/kotlin/com/kgit2/memory/MutableListBase.kt:12-13 | likewise |
| StrArrays.StrArray.Remove | src/commonMain/kotlin/com/kgit2/memory/MutableListBase.kt:15 | likewise, and the answer is whether the element was there |
| StrArrays.StrArray.AddAt | src/commonMain/kotlin/com/kgit2/memory/MutableListBase.kt:17 | likewise; a bad index changes nothing |
| StrArrays.StrArray.AddAllAt | src/commonMain/kotlin/com/kgit2/memory/MutableListBase.kt:19 | likewise; a bad index changes nothing |
| StrArrays.StrArray.Clear | src/commonMain/kotlin/com/kgit2/memory/MutableListBase.kt:21-23 | list and struct are empty |
| StrArrays.StrArray.RemoveAll | src/commonMain/kotlin/com/kgit2/memory/MutableListBase.kt:25 | list and mirror take the step of the model |
| StrArrays.StrArray.RemoveAt | src/commonMain/kotlin/com/kgit2/memory/MutableListBase.kt:27 | likewise, and the removed element is returned |
| StrArrays.StrArray.RetainAll | src/commonMain/kotlin/com/kgit2/memory/MutableListBase.kt:29 | likewise |
| StrArrays.StrArray.Set | src/commonMain/kotlin/com/kgit2/memory/MutableListBase.kt:31 | likewise, and the replaced element is returned |
| Logging.PiecesOfMessage | generator/tree-sitter-kotlin/examples/Logger.kt:121-124 | the pieces have no placeholder inside and make up the message with placeholders between them |
| Logging.PiecesUnique | generator/tree-sitter-kotlin/examples/Logger.kt:121-124 | no other strings do |
| Logging.InsertPlaceholders | generator/tree-sitter-kotlin/examples/Logger.kt:114-138 | the error text when placeholders outnumber values, else the pieces with the values between them in order |
| Logging.ValueInPlace | generator/tree-sitter-kotlin/examples/Logger.kt:128-130 | the i-th value, or "null", stands at the i-th placeholder, between what the pieces and values before and after it give |
| Logging.PlaceholderAlone | generator/tree-sitter-kotlin/examples/Logger.kt:124-130 | the message `{}` gives its value, "null" for null, and the error text without a value |
| Logging.HolesAreInert | generator/tree-sitter-kotlin/examples/Logger.kt:128-130 | inserted placeholders are not expanded again: they give the message back |
| Logging.ExpandsToExactly | generator/tree-sitter-kotlin/examples/Logger.kt:114-138 | some values make a message read like a text if and only if its pieces occur in the text in order and apart, the first at its start and the last at its end |
| Logging.ErrorTextProvesErrorExactly | generator/tree-sitter-kotlin/examples/Logger.kt:125-127 | for a message the error text stands for missing values alone, whatever the values, if and only if its pieces do not fit the error text |
| Logging.ErrorTextWithoutError | generator/tree-sitter-kotlin/examples/Logger.kt:125-130 | one placeholder with the error text for its value gives the error text |
| Logging.ShortenOrPadLength | generator/tree-sitter-kotlin/examples/Logger.kt:159-164 | the string padded with spaces, or two dots and the end of the string, at the asked-for length; it throws exactly for a longer string and a length below 2 |
| Logging.LevelsOrdered | generator/tree-sitter-kotlin/examples/Logger.kt:34-43 | each threshold lets through exactly its own level and the less detailed ones |
| Logging.DeliveredThenQueued | generator/tree-sitter-kotlin/examples/Logger.kt:68-80 | over every run, delivered then queued messages are those that passed their level test, once and in order; nothing is queued once connected |
| Logging.Recipients | generator/tree-sitter-kotlin/examples/Logger.kt:99-102 | the first backend is given all that passed before it, the one connected last each later message, and reconnecting repeats nothing |
| Logging.Logger.Output | generator/tree-sitter-kotlin/examples/Logger.kt:68-74 | queued without a backend, else given to it |
| Logging.Logger.Log | generator/tree-sitter-kotlin/examples/Logger.kt:76-80 | a message that passes is formatted and output, another changes nothing |
| Logging.Logger.ConnectOutputBackend | generator/tree-sitter-kotlin/examples/Logger.kt:99-102 | the backend is given the queue and everything from then on |
| Logging.Logger.FlushOutQueue | generator/tree-sitter-kotlin/examples/Logger.kt:140-144 | the queue is delivered in order and left empty |
| ReadLine.RoomForNul | lib/tests/common.c:136-157 | the NUL fits exactly when the line is terminated or its length is no multiple of 16; the size is a multiple of 16 at most 16 above the length |
| ReadLine.Readline | lib/tests/common.c:129-164 | the bytes before the first newline, a NUL inside the buffer, and the buffer's size; failure exactly on a read error or a refused size |
| Grouping.AllGroupsExtend | generator/src/bin/enums.rs:47-60 | one more line opens a group or extends the last one |
| Grouping.Collect | generator/src/bin/enums.rs:47-63 | the loop yields the groups, the last one included |
| Grouping.GroupingConservesText | generator/src/bin/flags.rs:35-50 | one group per prefixed line, in order, and together exactly the text from the first prefixed line on |

## Left out

- libgit2 itself, callbacks, option setters, enum tables and everything that only forwards a call.
- `lib/tests/args.c` and `read_file` of `lib/tests/common.c`: argument lookup and a whole-file read for the C example programs; of that code `readline` is modelled.
- The index-based mutators and `removeAll` of `NativeMutableList`: they slice by the frozen `size`, or reinstall the shared empty list for an empty argument.
- OperatorGrammar.ParseIsTheLegalTree: assumes the parser generator's rule that the higher level reduces first and equal levels with `prec.left` reduce; operands are opaque, so prefix, postfix, `as` and generic-call forms are not modelled, and the type after `is` is one operand.
- Tokens.CommentLanguage: the reference's nested comments are not compared with the token, which does not nest; rules are read character by character, without whitespace between tokens.
- NativeList.NoLostUpdatesExactly: a filter, a concatenation and a removal always make a new object, as the standard library does; a failed compare-and-set is not retried because the code does not retry.
- CachedIterator.IteratorBase.List: needs a source that ends, or a `next` that fails at once, as the code does in order to return.
- SharedIterator.BoundedOvershoot: the 64-bit index does not wrap around.
- Ownership.OwnershipOverAllRuns: a `beforeFree` that throws is not modelled, and every Raw exists from the start.
- Ownership.SomeRunLeaksExactly: an allocation from an arena that was already cleared is not followed.
- RawObjects.RawWrapper.AsObject: models one of several hand-over helpers of the same shape.
- Submodules.UpdateSubmodules: the tree below a repository does not change during the walk.
- Credentials.CredentialHelper.Execute: process spawning, pipes and URL parsing are a function from command and username to two optional strings.
- Flags.RepositoryInitOptions.constructor: the three mask values are libgit2's, whose headers are not part of this model.
- StrArrays.MirrorKept: mutation through iterators and sublists, arrays built from an existing struct, text encoding, the changed-or-not answers of the mutators on collections, and use after the Raw was freed are not modelled; a new struct is zeroed by its allocator. Of the native dispose only the zeroing of the struct is modelled: it also releases the strings it is given, so that the blocks are unchanged holds up to the first `clear`.
- Logging.DeliveredThenQueued: backends that log themselves, and the error queue, which nothing fills.
- ReadLine.Readline: the C `int` counters do not overflow; bytes are integers.
