# Verified model of caffeine-ls

caffeine-ls is a language server for Java and Kotlin. This project models the
parts of it whose behaviour rests on an invariant or on a refinement, and proves
those. `dafny verify dfyconfig.toml` checks all of it.

| files | component |
|---|---|
| `Types`, `TypeRewrite`, `TypeSubstitution`, `NormalForms`, `BoundSubstitution`, `InferenceVariables`, `TypeShape` | the explicit-stack type rewrite, the algebra of substitution over normalising constructors, sameness of shape and erasure |
| `SyntaxTree`, `Arena`, `AstIdMap`, `BodyEdits`, `ContentEdits`, `SkeletonRules`, `IndexedNodes`, `Outlines` | stable ids of declarations, why edits of bodies do not move them, and what they do not show |
| `Stubs`, `StringTable`, `NameIndexes`, `Sorting`, `Loader`, `Bytes`, `StoreKeys`, `StubStore`, `StoreHistory`, `CachedIndex`, `StubLaws`, `RoundTrips`, `BuiltIndex` | the persistent library index: string table, record layout, ordered byte store, and the agreement of a warm start with a cold one |
| `GlobalState`, `RequestRuns`, `RequestReplies`, `RequestProgress` | the request protocol as a transition system of client, workers and main loop |
| `SourceDb`, `Revisions`, `DbSync`, `SyncRuns` | the database following the virtual file system incrementally |
| `Packages`, `Modules`, `LineEndings`, `Suppression` | name resolution through buckets, module readability, CRLF compaction, warning suppression |

Code that changes state step by step is written that way (classes with the
fields of the original, loops with their invariants) and proved against a
specification function; recursive code is written as functions. The main results
are lemmas about the specifications and about whole runs.

## How the model reads the code

- A type, a syntax node and a stub are finite values. Interning makes equal types
  one handle, so structural equality stands for handle equality. Rewrite policies
  are functions of the node alone.
- A syntax tree holds nodes only: tokens are implicit in the ranges of their parents.
- Symbols of an interner are numbers; a session is a pair of functions, from
  string to symbol and back. Looking up an index beyond a string table is the
  answer `None`, where the original panics.
- The store is a map from byte strings, compared lexicographically, to payloads.
  Serialising is injective, and foreign bytes decode to nothing. The hash
  functions, and the operation joining two hashes, are arbitrary.
- Cancellation tokens are identities of shared flags. A worker is a step that posts
  one of its visible outcomes, and that reports a client cancellation only after
  seeing its own token flipped. Steps of workers, client and main loop interleave
  freely, which allows more runs than the real loop has. A client does not use a
  request id twice.
- The file system reports a turn's changes as creates, modifications and deletes
  that account for the difference of contents. Which root owns a file, and which
  bytes are UTF-8, are arbitrary functions.

## Where the code and its comments part

- Normalising line endings is not idempotent on CR CR LF (`LineEndings.IdempotentIff`),
  so the text kept in memory can still hold a CRLF.
- A comment at `crates/caffeine-ls/src/main_loop.rs:674-678` wants the retried run to
  observe a cancel. It runs on a fresh token that no cancel reaches: the client is
  answered, the work goes on (`RequestRuns.CancelReachesFirstRunOnly`).
- Rejecting an unknown method does not take the request off the queue, so a later
  cancel answers it a second time (`RequestRuns.TwoResponsesIff`).
- The bound of a library's range delete wraps at the top id and deletes nothing
  (`StoreKeys.TopLibraryRangeIsEmpty`).
- A cached source layout is found by the hash of its stamp; the stamp stored with it
  is not compared (`StoreHistory.ReadSourceIndexIff`).
- `same_shape` is described as same erasure. A truncation of bounds keeps the erasure
  exactly when it cuts no variable on the leftmost chain bounded by anything but
  `Object` (`TypeShape.TruncationKeepsErasureIff`).
- The containment tests do not look into the Kotlin wrappers the rewrite goes through
  (`InferenceVariables.ExactThroughoutIff`). Every caller in the repository works on
  Java types, which hold no wrapper (`crates/hir-ty/src/ty.rs:160-162`), so the
  difference is one of the function, not of a run.
- A source set tries every fold per library, a classpath every library per fold; the
  two differ in general (`Packages.ScopesAgreeIff`).
- The suppression check is described as a binary search; it scans all scopes.
- The ids of a file do not determine its nesting: they keep the indexed kinds of its
  outline and drop the depths (`Outlines.SameIdsIff`, `Outlines.NestingDoesNotShowInIds`).
- Roots are rebuilt only after a create or delete is reported: a new file reported as
  modified would stay outside its root (`SyncRuns.RootsFollowIff`).

## Model

| member | source | states |
|---|---|---|
| TypeRewrite.RewriteWith | crates/hir-ty/src/ty.rs:1082-1196 | the explicit-stack loop computes the memoised, depth-guarded walk, and the plain recursive rewrite whenever no path is longer than the guard allows; the counter is the number of build frames, every child is memoised when its parent is built |
| TypeRewrite.GuardedRewriteIsRewrite | crates/hir-ty/src/ty.rs:1064-1196 | the memo with reserved slots and the guard are invisible on types within the guard |
| TypeRewrite.VisitRefines | crates/hir-ty/src/ty.rs:1082-1188 | every finished memo entry is the rewrite of its key; a reserved slot is never read for a child |
| TypeRewrite.DrainVisits | crates/hir-ty/src/ty.rs:1114-1158 | children pushed in reverse are rewritten in order, each below the same path |
| TypeRewrite.DeepTowerDegrades | crates/hir-ty/src/ty.rs:1094-1108 | arrays stacked on any type: rewritten whole when the type fits below them, and cut at one million nodes, the rest replaced by an error, when there are as many |
| NormalForms.NullableRewrites | crates/hir-ty/src/ty.rs:1167-1167 | a rewritten nullable type is its rewritten inner type, wrapped once |
| NormalForms.DefinitelyNonNullRewrites | crates/hir-ty/src/ty.rs:1168-1170 | likewise for a definitely non-null type |
| NormalForms.FlexibleRewrites | crates/hir-ty/src/ty.rs:1183-1185 | a rewritten flexible type is the pair of its rewritten halves, or the one half both become |
| NormalForms.WildcardRewrites | crates/hir-ty/src/ty.rs:1171-1179 | a rewritten wildcard keeps the direction of its bound, and loses the bound only as `? extends Object` |
| NormalForms.IntersectionRewrites | crates/hir-ty/src/ty.rs:1180-1182 | a rewritten intersection is that of its rewritten members, the one member, or an error without any |
| NormalForms.ReferenceRewrites | crates/hir-ty/src/ty.rs:1163-1165 | a rewritten reference keeps its name and declaration, argument by argument |
| NormalForms.ArrayRewrites | crates/hir-ty/src/ty.rs:1166-1166 | a rewritten array is the array of its rewritten element |
| NormalForms.VariablesSubstitute | crates/hir-ty/src/ty.rs:910-965 | what each substitution puts in place of a type variable |
| NormalForms.InferenceVariablesSubstitute | crates/hir-ty/src/ty.rs:971-989 | and in place of an inference variable |
| NormalForms.UnchangedIffInNormalForm | crates/hir-ty/src/ty.rs:340-592 | under a binding that leaves its variables a type comes back as it was exactly when it holds no doubled wrapper, equal flexible halves, `? extends Object` or short intersection |
| NormalForms.RewritesAreInNormalForm | crates/hir-ty/src/ty.rs:340-592 | a rewrite with images in that form yields a type in that form |
| TypeSubstitution.RewriteFuses | crates/hir-ty/src/ty.rs:1082-1196 | two rewrites are one, although nullable, non-null, flexible, wildcard and intersection types collapse on rebuild |
| TypeSubstitution.RebuildCommutes | crates/hir-ty/src/ty.rs:340-592 | the normalising constructors commute with a rewrite |
| TypeSubstitution.SubstitutionLemma | crates/hir-ty/src/ty.rs:910-917 | substituting twice is substituting once by the composed binding |
| TypeSubstitution.InferSubstitutionLemma | crates/hir-ty/src/ty.rs:971-976 | the same for inference variables |
| TypeSubstitution.EraseCommutesWithSubstitute | crates/hir-ty/src/ty.rs:982-989 | erasing inference variables and substituting can be exchanged |
| BoundSubstitution.InclBoundsIsSubstitutingTwice | crates/hir-ty/src/ty.rs:934-965 | where the bounds of the variables that stay mention nothing bound, the bounds-rewriting substitution is the plain one applied twice |
| BoundSubstitution.InclBoundsIsSubstitutingTwiceIff | crates/hir-ty/src/ty.rs:934-965 | on types without a flexible part that condition is exact |
| BoundSubstitution.InclBoundsOnVariableIff | crates/hir-ty/src/ty.rs:934-965 | on an unbound variable itself the two agree exactly when the substitution leaves its bounds alone |
| BoundSubstitution.CollapseHidesBounds | crates/hir-ty/src/ty.rs:362-367 | bindings and types with flexible parts on which the two agree although bounds change |
| TypeSubstitution.RewriteAgrees | crates/hir-ty/src/ty.rs:910-917 | a rewrite depends on its policy only at the variables of the type: scopes outside the domain do not matter |
| TypeSubstitution.RewriteIsNormal | crates/hir-ty/src/ty.rs:340-592 | a rewrite with normal images yields a type no constructor would collapse further |
| TypeSubstitution.UntouchedIffNormal | crates/hir-ty/src/ty.rs:910-917 | under a binding that leaves each variable it reaches to itself, unbound or bound to it, a type comes back unchanged exactly when it is in normal form |
| InferenceVariables.ContainsInferVarIff | crates/hir-ty/src/ty.rs:679-690 | the test answers exactly for the variables outside every nullable, non-null and flexible wrapper |
| InferenceVariables.ExactThroughoutIff | crates/hir-ty/src/ty.rs:679-690 | it is right about a type and everything in it exactly when no wrapper in it has an inference variable below |
| InferenceVariables.ContainsInferVarIsSound | crates/hir-ty/src/ty.rs:679-690 | it never over-reports, and is exact on types without wrappers, which are all the Java layer builds |
| InferenceVariables.WrapperHidesInferVar | crates/hir-ty/src/ty.rs:679-690 | inside a nullable wrapper the test misses a variable that the rewrite replaces |
| TypeShape.SameShapeIff | crates/hir-ty/src/ty.rs:781-823 | two types have one shape exactly when they are equal once the bounds of variables outside Kotlin wrappers are dropped |
| TypeShape.SameShapeReflexive | crates/hir-ty/src/ty.rs:781-823 | equal types have the same shape |
| TypeShape.SameShapeSymmetric | crates/hir-ty/src/ty.rs:781-823 | having the same shape is symmetric |
| TypeShape.SameShapeTransitive | crates/hir-ty/src/ty.rs:781-823 | having the same shape is transitive |
| TypeShape.RewriteRespectsShape | crates/hir-ty/src/ty.rs:781-823 | any rewrite whose policy respects shape respects shape, collapses included |
| TypeShape.SubstituteRespectsShape | crates/hir-ty/src/ty.rs:910-917 | equal shapes stay equal under any one binding |
| TypeShape.SubstituteInferRespectsShape | crates/hir-ty/src/ty.rs:971-976 | equal shapes stay equal under any one instantiation |
| TypeShape.ErasureIdempotent | crates/hir-ty/src/ty.rs:995-1013 | erasing twice is erasing once |
| TypeShape.ErasureIs | crates/hir-ty/src/ty.rs:995-1013 | an erasure is the arrays its leftmost chain passes over the bare class where the chain ends |
| TypeShape.ErasuresAgreeIff | crates/hir-ty/src/ty.rs:995-1013 | two types erase to the same shape exactly when their leftmost chains of elements, bounds and members pass equally many arrays and end in the same class |
| TypeShape.TruncationKeepsShape | crates/hir-ty/src/ty.rs:771-780 | cutting off bounds of variables, anywhere, is invisible to the comparison of shapes |
| TypeShape.TruncationKeepsErasureIff | crates/hir-ty/src/ty.rs:771-780 | such a cut keeps the erasure exactly when it does not hit, on the leftmost chain, a variable bounded by anything but Object |
| TypeShape.TruncatedBoundErasesDifferently | crates/hir-ty/src/ty.rs:770-780 | the remark that same-shaped variables have the same erasure fails when one bound was truncated away |
| AstIdMap.Build | crates/hir-expand/src/ast_id_map.rs:307-331 | the reversed-push stack walk hands out ids in recursive pre-order, dense from 0, and indexes each pointer at its last position |
| IndexedNodes.JavaIdsIff | crates/hir-expand/src/ast_id_map.rs:307-386 | a Java node has an id exactly when the kinds on the way to it pass no pruned region, body content has not begun since it last ended, and its kind is indexed |
| IndexedNodes.KotlinIdsIff | crates/hir-expand/src/ast_id_map.rs:307-481 | likewise for Kotlin, where a local declaration keeps its id inside body content |
| IndexedNodes.LocalClassHasId | crates/hir-expand/src/ast_id_map.rs:348-362 | a local class has an id wherever its block is visited |
| IndexedNodes.EnumConstantMemberHasId | crates/hir-expand/src/ast_id_map.rs:363-375 | a member in the body of an enum constant has one wherever the constant is visited |
| IndexedNodes.AnonymousClassHasNone | crates/hir-expand/src/ast_id_map.rs:363-373 | nothing in the body of an anonymous class has one |
| IndexedNodes.StatementHasNone | crates/hir-expand/src/ast_id_map.rs:348-377 | a statement or an initialiser has none |
| AstIdMap.ArenaAndIndexAreInverse | crates/hir-expand/src/ast_id_map.rs:175-197 | with distinct pointers, id lookup and pointer lookup are inverse |
| SyntaxTree.PtrResolvesIffNotShadowed | crates/hir-expand/src/ast_id_map.rs:200-219 | the pointer of a non-empty node resolves to that very node exactly when no node below carries the same range and kind |
| BodyEdits.SimilarFilesKeepIds | crates/hir-expand/src/ast_id_map.rs:131-170 | files whose exposed declarations are equivalent store the same (kind, id) pairs, for any rules |
| BodyEdits.SimilarTransitive | crates/hir-expand/src/ast_id_map.rs:307-331 | the equivalence composes over a series of edits |
| BodyEdits.BodyEditIsSimilar | crates/hir-expand/src/ast_id_map.rs:307-331 | an edit that shows equivalent declarations, or lies in an unvisited region, yields an equivalent tree |
| BodyEdits.RangesDoNotMatter | crates/hir-expand/src/ast_id_map.rs:29-44 | shifting ranges keeps the equivalence |
| BodyEdits.BodyEditKeepsIds | crates/hir-expand/src/ast_id_map.rs:307-331 | a body edit together with the shift of all ranges moves no id |
| ContentEdits.BodyEditIff | crates/hir-expand/src/ast_id_map.rs:307-331 | an edit is a body edit exactly when at its parent the old and the new node show equivalent declarations, or the parent is not visited |
| ContentEdits.ShowingAlikeIsBodyEdit | crates/hir-expand/src/ast_id_map.rs:588-600 | whatever changes around the declarations a node shows, it is a body edit if they stay up to ranges |
| ContentEdits.ContentEditKeepsIds | crates/hir-expand/src/ast_id_map.rs:307-331 | for any rules, adding, dropping and changing children that show nothing moves no id, however their parent is visited |
| SkeletonRules.JavaStatementEditKeepsIds | crates/hir-expand/src/ast_id_map.rs:338-386 | under the Java rules, adding, dropping and changing statements of a block, parts of an initialiser or of an enum constant, and defaults of annotation elements moves no id, as long as the other children stay up to ranges |
| SkeletonRules.PlainBlocksDifferInHiddenStatements | crates/hir-expand/src/ast_id_map.rs:588-600 | any declaration-free statements may stand for any others, in any number |
| SkeletonRules.JavaSwapKeepsIds | crates/hir-expand/src/ast_id_map.rs:338-386 | swapping a declaration-free part of Java body content for another, of whatever kind, moves no id |
| SkeletonRules.KotlinStatementEditKeepsIds | crates/hir-expand/src/ast_id_map.rs:394-459 | under the Kotlin rules likewise for blocks, arguments, delegates and enum entries |
| SkeletonRules.PlainKotlinBlocksDifferInHiddenStatements | crates/hir-expand/src/ast_id_map.rs:394-481 | any declaration-free statements may stand for any others, in any number |
| SkeletonRules.KotlinSwapKeepsIds | crates/hir-expand/src/ast_id_map.rs:394-459 | swapping a declaration-free part of Kotlin body content for another, of whatever kind, moves no id |
| SkeletonRules.JavaPlainIsSilent | crates/hir-expand/src/ast_id_map.rs:338-386 | Java body content free of declarations, enum constants and annotation elements indexes nothing |
| SkeletonRules.KotlinPlainIsSilent | crates/hir-expand/src/ast_id_map.rs:394-481 | Kotlin body content free of local declarations, enum entries and delegations indexes nothing |
| Outlines.SimilarIffSameOutline | crates/hir-expand/src/ast_id_map.rs:307-331 | two files are equivalent exactly when their outlines, the exposed kinds in pre-order with their depths, are equal |
| Outlines.IdsAreTheOutline | crates/hir-expand/src/ast_id_map.rs:307-331 | the indexed kinds in id order are the outline without depths and unindexed kinds |
| Outlines.SameIdsIff | crates/hir-expand/src/ast_id_map.rs:131-170 | two files store the same (kind, id) pairs exactly when their outlines index the same kinds in order |
| Outlines.NestingDoesNotShowInIds | crates/hir-expand/src/ast_id_map.rs:118-131 | what is lost shows: two classes side by side and one inside the other have other outlines and the same ids |
| StringTable.StubStringTable.InternStr | crates/hir/src/stubs.rs:59-69 | the table only grows, and by a string it does not hold |
| StringTable.StubStringTable.Name | crates/hir/src/stubs.rs:70-79 | an emitted index is in bounds of every later table and spells the symbol |
| StringTable.StubStringTable.TypeRef | crates/hir/src/stubs.rs:80-110 | a type decodes, against any later table and interner, to itself respelled |
| StringTable.StubStringTable.AnnotationValue | crates/hir/src/stubs.rs:119-151 | an annotation value, nested to any depth, decodes to itself respelled |
| StringTable.StubStringTable.Method | crates/hir/src/stubs.rs:161-179 | a method decodes to itself respelled |
| StringTable.StubStringTable.Class | crates/hir/src/stubs.rs:205-234 | a class stub decodes to itself respelled |
| StringTable.StubStringTable.Module | crates/hir/src/stubs.rs:235-281 | a module stub decodes to itself respelled |
| StubLaws.StubIsKept | crates/hir/src/stubs.rs:296-504 | resolving loses nothing: mapping names by the identity gives the stub back, through every kind of stub, type and annotation |
| StubLaws.StubComposes | crates/hir/src/stubs.rs:296-504 | resolving after encoding is one map of names |
| RoundTrips.DecodedStubIsOriginal | crates/hir/src/stubs.rs:58-504 | decoded in the session that encoded it a stub is the very stub |
| RoundTrips.DecodedStubSpellsOriginal | crates/hir/src/stubs.rs:58-504 | decoded in any session and resolved it is the original with its names spelled |
| NameIndexes.New | crates/hir/src/index.rs:53-77 | each name leads to its last entry, each package to all its entries in order |
| NameIndexes.LastPositionsAgree | crates/hir/src/index.rs:53-77 | two indexes over the same names in two spellings find the same position |
| NameIndexes.AllPositionsAgree | crates/hir/src/index.rs:101-109 | and list the same positions for a package |
| Sorting.LeIsLexicographic | crates/hir/src/loader.rs:250-251 | names are compared lexicographically |
| Sorting.SortIsStable | crates/hir/src/loader.rs:250-251 | the sort orders records by name and keeps those of one name as they came |
| Loader.OrderIsDeterministic | crates/hir/src/loader.rs:250-251 | archives with the same distinctly named records are built in one order, whatever order parsing gave |
| Loader.Build | crates/hir/src/loader.rs:246-318 | the index covers exactly the sorted class and module records, and the payloads encode its entries and, classes before modules, its records |
| Loader.DiskEntry | crates/hir/src/loader.rs:321-331 | an entry decodes to itself respelled |
| RoundTrips.DecodedEntryIsOriginal | crates/hir/src/loader.rs:321-400 | an entry decoded in the session that encoded it is the very entry |
| RoundTrips.DecodedEntrySpellsOriginal | crates/hir/src/loader.rs:321-400 | and in any session spells its names |
| RoundTrips.DecodedModuleEntrySpellsOriginal | crates/hir/src/loader.rs:301-410 | likewise a module entry |
| RoundTrips.DecodedModuleEntryIsOriginal | crates/hir/src/loader.rs:301-410 | and so a module entry |
| BuiltIndex.ClassesArePicked | crates/hir/src/loader.rs:261-291 | the class records are those of the sorted records that hold a class, in order |
| BuiltIndex.ModulesArePicked | crates/hir/src/loader.rs:292-301 | likewise the module records |
| BuiltIndex.ClassLookup | crates/hir/src/index.rs:53-99 | a class name leads to the last class record of that name, if there is one |
| BuiltIndex.ModuleLookup | crates/hir/src/index.rs:53-125 | a module name to the last module record of that name |
| BuiltIndex.PackageListing | crates/hir/src/index.rs:53-109 | a package lists in order exactly the classes whose records name it |
| BuiltIndex.EntriesDescribeRecords | crates/hir/src/loader.rs:261-301 | an entry spells the names of its record, and holds its flags, kind, module, and the class types among its super class and interfaces in order |
| BuiltIndex.KindIs | crates/hir/src/stubs.rs:621-628 | flags and record mark decide the kind of declaration |
| CachedIndex.LoadFromCache | crates/hir/src/loader.rs:374-421 | an index is loaded exactly when a readable meta blob is stored, covers its decoded entries, and the blob is marked as used |
| CachedIndex.LoadOrBuild | crates/hir/src/loader.rs:335-370 | the cache answers when it is enabled and can; otherwise the built index is returned, and persisted whole or not at all, unless the archive cannot be read |
| CachedIndex.LibraryIndex.Record | crates/hir/src/index.rs:208-223 | records kept in memory are preferred to stored ones |
| CachedIndex.CachedLookupsAgree | crates/hir/src/index.rs:96-125 | loaded and built index give every class, package and module name the same positions |
| CachedIndex.CachedEntriesAgree | crates/hir/src/loader.rs:383-410 | entry by entry the loaded index is the built one respelled |
| CachedIndex.RecordsAgree | crates/hir/src/index.rs:191-223 | from memory or from the store, every position answers the stub parsed from the archive, and none beyond |
| RoundTrips.StoredRecordSpellsArchive | crates/hir/src/index.rs:191-223 | a record read from the store in any session spells the stub parsed from the archive |
| CachedIndex.BuiltNeedsNoStore | crates/hir/src/index.rs:139-147 | the records a built index keeps answer for every class and module, whatever the store holds |
| CachedIndex.RecordsLineUp | crates/hir/src/index.rs:191-206 | class record k carries the name of entry k, module record j sits at class count + j |
| CachedIndex.EntrySurvivesOrIsGone | crates/hir/src/lmdb_store.rs:305-468 | after its last write an entry is found as written, with the time of its last touch, exactly when it was not cleared and at every prune was live or used within the time to live; otherwise nothing of it is left |
| CachedIndex.WarmStartAgrees | crates/hir/src/loader.rs:335-421 | after any such history the entry is found exactly when it survived, and then the loaded index and the built one answer every query alike |
| StoreKeys.KeyBytes | crates/hir/src/lmdb_store.rs:611-633 | the bytes of a key, part by part |
| StoreKeys.EncodeInjective | crates/hir/src/lmdb_store.rs:611-633 | distinct keys have distinct bytes, over both widths |
| StoreKeys.LibraryRangeIsLibrary | crates/hir/src/lmdb_store.rs:595-609 | below the top id the deleted byte range holds exactly the keys of the library |
| StoreKeys.TopLibraryRangeIsEmpty | crates/hir/src/lmdb_store.rs:595-609 | at the top id the bound wraps and the range is empty |
| StoreKeys.KindRangeIsKind | crates/hir/src/lmdb_store.rs:654-670 | the range of a hashed kind holds exactly that library's keys of that kind |
| StubStore.StubStore.DeleteLibraryRange | crates/hir/src/lmdb_store.rs:595-609 | the range delete over the byte map removes exactly one library, or nothing at the top id, and counts whether it did |
| StubStore.StubStore.WriteLibrary | crates/hir/src/lmdb_store.rs:305-334 | the library's entries become its meta blob and its records |
| StubStore.StubStore.TouchLibraries | crates/hir/src/lmdb_store.rs:363-390 | only the time of last use of readable meta blobs moves |
| StubStore.StubStore.CollectStale | crates/hir/src/lmdb_store.rs:400-428 | one pass over the keys finds each stale or unreadable library that is not live, once |
| StubStore.StubStore.PruneStale | crates/hir/src/lmdb_store.rs:392-453 | exactly those libraries lose every key; the count is the number that lost some |
| StubStore.StubStore.ReadSourceIndex | crates/hir/src/lmdb_store.rs:470-482 | the layout stored under the hash of the stamp is answered |
| StubStore.StubStore.WriteSourceIndex | crates/hir/src/lmdb_store.rs:486-509 | layouts of other stamps are dropped |
| StubStore.StubStore.ReadParams | crates/hir/src/lmdb_store.rs:513-536 | names are answered only for the very member asked about |
| StubStore.StubStore.WriteParams | crates/hir/src/lmdb_store.rs:538-557 | one key is written, all others stay |
| StoreHistory.DecodesIff | crates/hir/src/lmdb_store.rs:560-578 | what decodes is a payload of the current format, to what it holds |
| StoreHistory.PruneSpares | crates/hir/src/lmdb_store.rs:392-453 | a prune spares a key exactly when its library is live, has no meta entry, or has a readable one used within thirty days |
| StoreHistory.TouchMoves | crates/hir/src/lmdb_store.rs:363-390 | a touch moves the time of last use of the readable meta entries it names, and nothing else |
| StoreHistory.WrittenIsExact | crates/hir/src/lmdb_store.rs:305-334 | below the top id a written library holds its meta and records and nothing older, and no other library changes |
| StoreHistory.TopLibraryKeepsStaleRecords | crates/hir/src/lmdb_store.rs:595-609 | at the top id whatever was stored before survives a rewrite |
| StoreHistory.ReadParamsIsLatest | crates/hir/src/lmdb_store.rs:513-557 | over any history a reader gets the last blob written at its key since the last delete, and only for its own member |
| StoreHistory.CollisionIsMiss | crates/hir/src/lmdb_store.rs:635-650 | a colliding member hides an answer, never gives a wrong one |
| StoreHistory.StampCollisionAnswers | crates/hir/src/lmdb_store.rs:635-650 | the stamp takes part through its hash alone |
| StoreHistory.StampDecides | crates/hir/src/lmdb_store.rs:635-650 | with a join of hashes that can be undone, a write answers exactly the stamps of its own hash and leaves all other answers |
| StoreHistory.MembersApart | crates/hir/src/lmdb_store.rs:635-650 | members of different hash have entries of their own |
| StoreHistory.AnsweredWasWritten | crates/hir/src/lmdb_store.rs:513-557 | then whatever is answered was written for that member under a stamp of equal hash |
| StoreHistory.OneLayoutAtATime | crates/hir/src/lmdb_store.rs:484-509 | over any history a library holds at most the last layout written |
| StoreHistory.ReadSourceIndexIff | crates/hir/src/lmdb_store.rs:470-482 | a layout is answered exactly when the hash of its stamp is the hash asked for |
| StoreHistory.LayoutOfOtherSources | crates/hir/src/lmdb_store.rs:470-482 | so colliding stamps answer the layout of other sources |
| Modules.ReadableModules | crates/hir/src/modules.rs:376-400 | the worklist ends on cyclic graphs with the least set holding the start and java.base, closed under the start's requires and everyone's transitive ones |
| Modules.ReadableIsUnique | crates/hir/src/modules.rs:376-400 | the result does not depend on the order of the queue |
| Modules.ReadableIffReached | crates/hir/src/modules.rs:376-400 | membership is the existence of a chain of requires |
| Modules.ExportedIff | crates/hir/src/modules.rs:267-285 | an unqualified export is for everyone, a qualified one for the modules it names |
| Modules.IsPackageVisible | crates/hir/src/modules.rs:407-421 | visible means own package, or exported to the asker by a module a chain reaches |
| LineEndings.Normalize | crates/caffeine-ls/src/line_index.rs:32-76 | the in-place compaction leaves the left-to-right replacement, shorter by the number of matches, and reports Dos exactly when there was one |
| LineEndings.RoundTripIff | crates/caffeine-ls/src/line_index.rs:32-76 | expanding restores the text exactly when every newline followed a carriage return |
| LineEndings.IdempotentIff | crates/caffeine-ls/src/line_index.rs:4-6 | the normalised text is free of CRLF, and normalising again changes nothing, exactly when the text had no CR CR LF |
| LineEndings.NormalizedTwice | crates/caffeine-ls/src/line_index.rs:4-6 | the text on which it does change |
| Packages.PackagePrefixes | crates/hir/src/db.rs:1472-1481 | the candidates are all dot-prefixes and the empty package, longest first |
| Packages.RootPackageFiles | crates/hir/src/db.rs:967-985 | each bucket is the package's files in file order |
| Packages.PackageFiles | crates/hir/src/db.rs:991-1012 | a source set's bucket is its roots' buckets in order |
| Packages.SymbolsIndex | crates/hir/src/db.rs:1294-1318 | each name leads to all its declarations in file and declaration order |
| Packages.SourceSymbolResolve | crates/hir/src/db.rs:1432-1462 | probing buckets finds the best candidate of a scan of the whole source set: longest package, then root, file and declaration order |
| Packages.CandidatesAreDeclarations | crates/hir/src/db.rs:1432-1462 | it answers exactly when some file of some root declares a class of that name in one of the name's packages |
| Packages.BestIsAnswer | crates/hir/src/db.rs:1432-1462 | and with that declaration: of the longest package, and there the first by root, file and place in the file |
| Packages.ScanIsInOrder | crates/hir/src/db.rs:991-1012 | the scan runs root by root, file by file, declaration by declaration |
| Packages.ClassLikeIs | crates/hir/src/db.rs:1443-1455 | the kinds that declare a class |
| Packages.BucketsMissNothing | crates/hir/src/db.rs:1432-1462 | when packages are prefixes of the names declared in them, a class-like declaration is found exactly when a scan finds one |
| Packages.ResolveInLibraries | crates/hir/src/db.rs:723-751 | the search ends, and finds the class needing fewest folds, then in the earliest library |
| Packages.FewestFoldsIff | crates/hir/src/db.rs:723-751 | the folds counted are the first that hit |
| Packages.FoldedRewritesRightmost | crates/hir/src/db.rs:747-751 | folding k times turns exactly the k rightmost dots into dollars |
| Packages.FqnResolve | crates/hir/src/db.rs:617-646 | a source set answers from its own files or the first classpath entry that has the name, an unknown one from its own files alone |
| Packages.FirstJarIsFirstHit | crates/hir/src/db.rs:633-642 | over jars that entry is the first library with a hit under any fold |
| Packages.ScopesAgreeIff | crates/hir/src/db.rs:617-751 | library by library and fold by fold choose the same library exactly when no later one needs fewer folds than the first hit |
| Packages.ScopesDisagree | crates/hir/src/db.rs:703-751 | two jars on which the two scopes answer differently |
| Suppression.DeclarationKeys | crates/ide-diagnostics/src/lint.rs:202-226 | the keys named by annotations in the first modifier list, or on an enum constant itself |
| Suppression.NamesIff | crates/ide-diagnostics/src/lint.rs:202-274 | a declaration names a key exactly when one of its annotations holds a string that does |
| Suppression.KeysAre | crates/ide-diagnostics/src/lint.rs:109-121 | the strings that name each warning |
| Suppression.Collect | crates/ide-diagnostics/src/lint.rs:171-192 | the walk extends its scopes by those of the subtree under the inherited keys |
| Suppression.SuppressedIffSomeEnclosingDeclarationNamesIt | crates/ide-diagnostics/src/lint.rs:151-192 | a warning is suppressed exactly when a declaration containing it names its key |
| GlobalStates.Report | crates/caffeine-ls/src/handlers/dispatch.rs:158-262 | each worker outcome becomes one event of its request; only a run that may defer asks for files, and its rerun may not |
| GlobalStates.GlobalState.HandleRequest | crates/caffeine-ls/src/main_loop.rs:171-201 | a request is registered and answered, started with its token, or rejected |
| GlobalStates.GlobalState.Respond | crates/caffeine-ls/src/global_state.rs:338-366 | a response is sent exactly when the request is still on the queue |
| GlobalStates.GlobalState.Cancel | crates/caffeine-ls/src/global_state.rs:495-504 | the registered token is flipped, and the request answered if it was not |
| GlobalStates.GlobalState.HandleBackgroundTask | crates/caffeine-ls/src/main_loop.rs:618-747 | what each event does to queue, tokens, pending list and pool |
| GlobalStates.GlobalState.DecompileLibraryFiles | crates/caffeine-ls/src/main_loop.rs:757-775 | without a decompiler or a workspace the request is queued to run again |
| GlobalStates.GlobalState.RunPendingRequests | crates/caffeine-ls/src/global_state.rs:481-493 | every pending closure runs, in order, each with a token of its own |
| RequestRuns.EveryRunKeeps | crates/caffeine-ls/src/main_loop.rs:138-169 | the protocol invariant over every interleaving of client, workers and main loop |
| RequestRuns.OneResponse | crates/caffeine-ls/src/global_state.rs:338-366 | a request some handler took is answered at most once, exactly once when it is off the queue |
| RequestRuns.WaitingIsCarried | crates/caffeine-ls/src/main_loop.rs:618-747 | a waiting request is carried by exactly one job, event or closure, and no abort is on its way |
| RequestRuns.AbortComesAfterAnswer | crates/caffeine-ls/src/global_state.rs:74-79 | an abort event is possible only once the request has had its one answer |
| RequestRuns.QuietMeansAnswered | crates/caffeine-ls/src/main_loop.rs:138-169 | when nothing runs or waits, every request taken has been answered and no token is left |
| RequestReplies.WorkerReply | crates/caffeine-ls/src/handlers/dispatch.rs:158-262 | over every run a request handed to a worker, once off the queue, has one reply: cancelled if a cancel found it waiting, and otherwise what its last worker run says |
| RequestReplies.RoutedReplies | crates/caffeine-ls/src/main_loop.rs:171-201 | a handler's reply, invalid parameters and an unknown method are answered as such |
| RequestReplies.RepliesAreDue | crates/caffeine-ls/src/global_state.rs:338-366 | the replies sent to an id are, at every point of every run, those the log calls for |
| RequestReplies.NoReplyUnasked | crates/caffeine-ls/src/global_state.rs:338-366 | an id the client never used gets none |
| RequestRuns.TwoResponsesIff | crates/caffeine-ls/src/global_state.rs:324-331 | a second response is sent exactly when the client cancels an id after its method was rejected as unknown |
| RequestRuns.RejectedThenCancelled | crates/caffeine-ls/src/global_state.rs:324-331 | the run on which that happens |
| RequestRuns.AbortIff | crates/caffeine-ls/src/handlers/dispatch.rs:188-195 | a job may end as aborted exactly when it is the first run of a request that is off the queue |
| RequestRuns.CancelReachesFirstRunOnly | crates/caffeine-ls/src/global_state.rs:495-504 | a cancel reaches the job at work exactly when it is a first run |
| RequestRuns.DeferredRunMissesCancel | crates/caffeine-ls/src/main_loop.rs:672-684 | a request deferred for library files does not observe a cancel once it runs again, contrary to the comment there |
| RequestProgress.LoadsAtMostOnce | crates/caffeine-ls/src/handlers/dispatch.rs:225-253 | over every run a request asks for library files at most once |
| RequestProgress.TurnsAreBounded | crates/caffeine-ls/src/handlers/dispatch.rs:158-262 | over every run a request takes at most seven turns, plus three for each pending write that hit it |
| RequestProgress.SevenTurnsHappen | crates/caffeine-ls/src/handlers/dispatch.rs:158-262 | a run that takes all seven: the bound is tight |
| SourceDb.Files.SetFileText | crates/base-db/src/lib.rs:72-101 | the text is set, a missing root entry made, and a revision made only for a real change |
| SourceDb.Files.SetSourceRoot | crates/base-db/src/lib.rs:115-142 | likewise for a root |
| SourceDb.Files.SetFileSourceRoot | crates/base-db/src/lib.rs:212-238 | likewise for the root of a file |
| SourceDb.Files.EnsureFileSourceRoot | crates/base-db/src/lib.rs:186-200 | a file without an entry gets the fallback root, created on demand |
| SourceDb.Apply | crates/base-db/src/change.rs:42-77 | roots are written one by one, then texts; a removed file is emptied |
| SourceDb.FileRootAfter | crates/base-db/src/change.rs:46-54 | a file ends up in the last root that lists it |
| SourceDb.TextAfter | crates/base-db/src/change.rs:72-76 | a text ends up as the last one the change carries |
| SourceDb.LocalRootsAfter | crates/base-db/src/change.rs:44-70 | the local roots are the ids of the roots a change sets |
| SourceDb.ChangesStayTotal | crates/base-db/src/lib.rs:179-200 | after every change each file holding text has a root entry that names an existing root |
| Revisions.RootsAgainIff | crates/base-db/src/lib.rs:122-130 | setting the same roots again makes no revision exactly when no file lies in two of them |
| Revisions.OneRevisionPerEdit | crates/base-db/src/lib.rs:79-93 | texts cost one revision for each that really changed |
| DbSync.Workspace.ProcessChanges | crates/caffeine-ls/src/main_loop.rs:1595-1640 | the reported changes become normalised texts and line endings; roots are rebuilt only on a create or delete with a configuration |
| DbSync.PartitionIs | crates/caffeine-ls/src/main_loop.rs:1432-1462 | a root for each configured kind, a library unless it belongs to a source set, and the detached root last |
| DbSync.Workspace.ApplyLoadedGraph | crates/caffeine-ls/src/main_loop.rs:1119-1190 | a loaded project partitions the files there are |
| SyncRuns.EveryTurnIsInStep | crates/caffeine-ls/src/main_loop.rs:1595-1640 | after every turn each file alive has its normalised text, its line endings and the root a full partition gives it |
| SyncRuns.RootsFollowIff | crates/caffeine-ls/src/main_loop.rs:1598-1638 | roots equal a full rebuild exactly when a create or delete was reported or no file came or went |
| SyncRuns.PartitionFollows | crates/caffeine-ls/src/main_loop.rs:1432-1462 | setting a partition puts every root and every file's entry in place |
| SyncRuns.PartitionAgainIsFree | crates/caffeine-ls/src/main_loop.rs:1432-1462 | repeating a partition makes no revision |
| SyncRuns.ModifyingIsCheap | crates/caffeine-ls/src/main_loop.rs:1598-1604 | a turn that only modifies leaves roots and entries alone and makes one revision per text that differs once normalised |
| SyncRuns.LineEndingsCostNothing | crates/caffeine-ls/src/main_loop.rs:1617-1622 | an edit that normalises to the same text leaves the database as it was |

## Left out

- TypeRewrite.RewriteWith: on types with longer paths than the guard the result is stated through the guarded walk, whose cut is spelled out only for arrays stacked on a type (`TypeRewrite.DeepTowerDegrades`): elsewhere it depends on which path the memo saw first.
- BoundSubstitution.InclBoundsIsSubstitutingTwice: is one-sided on types with a flexible part, which can collapse a difference in bounds away (`BoundSubstitution.CollapseHidesBounds`); without one its condition is exact.
- StringTable.StubStringTable.Name: promises decoding only while the table fits 32-bit indices; beyond, the cast in the original wraps.
- StubStore.StubStore.WriteLibrary: takes at most 2^32 records; the original stops on more.
- CachedIndex.LoadOrBuild: does not model archive parsing; the parsed records, or their absence, are its input. A commit either happens or leaves the store as it was.
- CachedIndex.WarmStartAgrees: excludes the top id, whose range deletes are empty.
- StubStore.StubStore.CollectStale: visits keys in any order, so the skip of repeated ids, which never triggers, is dropped.
- GlobalStates.GlobalState.HandleBackgroundTask: reading, materialising and decompiling files is reduced to whether a decompile starts; a worker that panics past its handler loses its request, and is not modelled.
- The reply for internal errors (`crates/caffeine-ls/src/global_state.rs:455-462`), which also leaves the queue alone, has no caller.
- GlobalStates.GlobalState.HandleRequest: what a synchronous handler does to the state, and outgoing requests of the server, are left out.
- SourceDb.Files.SetFileText: durabilities are left out.
- DbSync.Workspace.ProcessChanges: the virtual file system crate is not part of the repository, so its merging of several changes in a turn is an assumption of the runs; more than 2^32 - 1 roots would wrap their ids.
- DbSync.Workspace.ApplyLoadedGraph: the project graph that goes in with the roots is left out; root ids of an earlier, longer list stay behind.
- Suppression.DeclarationKeys: annotations carry the constant values they were read to hold; recognising the annotation type and evaluating constants are left out.
- Packages.FqnResolve: the facade fallback of the source lookup, which derives class names from Kotlin files, is left out.
- Packages.SourceSymbolResolve: the recursion over dependent source sets is left out.
- Modules.ReadableModules: building the workspace module graph from libraries is left out.
- The lexers, grammars, lowering and type inference; salsa, rayon, rowan, heed and lsp_server are used through their interfaces only.
- Tagging the classes of a modular jar with their module, `ct.sym` names, configuration, chunking, in-memory documents and progress reports: flat code that would add only easy members.
