# OTelPlan: a verified model of its analyses, normal forms and protocols

OTelPlan analyzes a Go project, resolves an instrumentation policy against it, records the outcome in a
lockfile and compiles the instrumentation. This project models, in Dafny, the parts of it whose
correctness does not show from reading one function, and proves what they are for.

**Graph analyses.** Marking recursive symbols is Kosaraju's algorithm: the depth-first postorder, then one
reverse worklist per component, backwards. It is proved to mark exactly the symbols that lie on a cycle of
static calls. Entrypoint distances are a breadth-first search from all entrypoints at once; it is proved to
find, for exactly the reachable symbols, the least distance and, at that distance, the entrypoint with the
least ID. The call evidence around it depends only on the set of calls.

**Field selection and generated readers.** The layered search through embedded fields drops a candidate
when its own path visits a type again. It is proved to terminate on every type index and to agree with the
selector rule that drops nothing. The emitted reader is modelled as a list of statements with an
evaluator over dynamic values, in which a type assertion succeeds for identical types, aliases resolved, and
for interfaces that the dynamic type implements. For every attribute that resolves, rendering succeeds, the
reader never dereferences nil, and on every argument it returns the value at the end of the path exactly if the
assertion succeeds, there is such a value and telemetry can hold it.

**Policies.** The memoised glob matcher equals its declarative meaning. The resolver, step by step, equals
a specification function. About that function the meaning of the whole report is proved: exactly which targets,
skipped pairs, decisions and diagnostics there are. It is independent of declaration order, and the canonical
form behind the lock digest preserves it. Two policies have one canonical form exactly if they differ in order
and repeated values only.

**Lockfiles.** Creating a lockfile is followed from the plan on: it pins the plan, in that equal lockfiles of one
project mean equal plans up to order, and no order of declarations shows in it. A diff is the one ascending list of exactly the differences. It is empty exactly if the
lockfiles differ in order, lines and columns only, and swapping the inputs mirrors it. Over every history
of commands and of outside replacements of the file, a recorded build identity has an origin with the same
resolution. A successful `lock` makes the checks pass for exactly the unchanged resolutions, and a second
`lock` writes the same contents.

**Analysis cache.** Two snapshots have the same key exactly if they agree on everything the key is meant to
cover. Every entry in every history of the directory is genuine, so a hit is what the uncached analysis
returns. Pruning removes an oldest-first prefix without the kept entry, no more than needed, and ends
within both limits.

**Artifacts and workspaces.** Publishing a bundle is modelled with every state the file system goes
through and every step that may fail: the previous bundle is intact at the destination or in the backup
until the new one is at the destination. The collected module directories are the least closed set, and
copying them leaves no path of their manifests without a copy. Relocating a manifest rewrites it through edits
that also drop other directives of the same module path. That every local replacement then points to its copy
and all else stays is false in general: it holds exactly if no local replacement is for a directive other than
its own, which two concrete inputs and an equivalence show.

**Parsers and printers.** Symbol IDs, span templates, and the three readings of build arguments.

Where the code and its specification share a definition, lemmas say what the answer is without it, in terms of the
inputs alone. The modules SelectorRule, AccessorRules, SelectorMeaning, TargetRules, DiffRules, CommandRules,
CacheCoverage, CacheRules, PublishRules and BuildFlags consist of such lemmas.

The code that changes things step by step is modelled by methods and classes with the loops and fields of
the original; each is proved against a specification function or relation, and the lemmas are about that
specification. Library sorts appear only as some sorted permutation, stable where the original asks for it, and
maps and directories are read in an arbitrary order, so that determinism is proved and not assumed.

Conventions: SHA-256 and encodings are injective, which the datatypes express by keeping the content under
the digest. Matching one path segment, parsing manifests, and the path functions of the platform are
parameters, as is everything the analysis reads from disk. Where a step can fail, whether it does is a
parameter too. Contexts are never cancelled.

## Model
| member | source | states |
|---|---|---|
| Recursion.AddRecursionMetadata | internal/discovery/recursion.go:15-32 | a symbol ends marked exactly if it was or a non-empty path of static calls leads from it back to itself; nothing else about it changes |
| Recursion.MarkRecursiveComponents | internal/discovery/recursion.go:34-61 | taking starts backwards from a postorder marks exactly the symbols on cycles |
| Recursion.NextCallComponent | internal/discovery/recursion.go:42-58 | each round completes one component; its members lie on a cycle exactly if it has several or its start calls itself |
| Recursion.RecursiveCallOrder | internal/discovery/recursion.go:106-148 | every node once; whenever one node reaches another, some node of the first one's component comes no earlier than the other |
| Recursion.CallOrder.Visit | internal/discovery/recursion.go:112-133 | the depth-first visit keeps the postorder invariant with any set of ancestors open |
| Recursion.Finish | internal/discovery/recursion.go:123-130 | appending a node whose callees are all seen keeps the postorder invariant |
| Recursion.RecursiveCallComponent | internal/discovery/recursion.go:150-176 | the reverse worklist collects exactly the component of its start, each member once |
| Recursion.CollectBackwards | internal/discovery/recursion.go:156-173 | a worklist closed under unseen callers contains every node on a path of the component to the start |
| Recursion.NextComponent | internal/discovery/recursion.go:43-48 | for the last unseen node of the postorder, every unseen node that reaches it is in its component |
| CallGraph.CycleOfComponent | internal/discovery/recursion.go:53-57 | a node lies on a cycle exactly if it calls itself or shares its component with another node |
| Entrypoints.EntrypointPaths | internal/suggest/entrypoints.go:16-48 | paths for exactly the symbols some entrypoint reaches, with the least distance and the source of the least entrypoint ID at that distance |
| Entrypoints.EntrypointPathsAreUnique | internal/suggest/entrypoints.go:16-48 | the result is determined, whatever the order of map iteration |
| Entrypoints.EntrypointMeaning | internal/suggest/entrypoints.go:50-64 | entrypoints are the main function of the application and application symbols with integrations, told by these, each once and in order |
| Entrypoints.InitialQueue | internal/suggest/entrypoints.go:19-31 | the queue starts with all entrypoints and nothing else, in ID order, each at distance zero |
| Entrypoints.FollowCallees | internal/suggest/entrypoints.go:37-44 | scanning the callees of one symbol keeps the queue in order of distance and source |
| Entrypoints.FollowCalls | internal/suggest/entrypoints.go:33-47 | the search ends, and what it found is sound and closed under calls |
| Entrypoints.NothingNearer | internal/suggest/entrypoints.go:33-47 | once everything found is finished, no chain of calls beats what was found |
| CallSignals.CollectCallSignals | internal/suggest/suggest.go:168-199 | without a call graph there are no signals; with one, each signal holds exactly if some counted call gives it, and the graph searched for entrypoints has exactly the counted static calls |
| CallSignals.RecordCallSignal | internal/suggest/suggest.go:201-222 | what one call adds to the signals and the graph, and that it adds nothing else |
| CallSignals.SignalMeaning | internal/suggest/suggest.go:168-222 | which calls give each signal, by precision, ownership and package |
| CallSignals.SearchedCalls | internal/suggest/suggest.go:174-189 | the search for entrypoints follows exactly the static calls of application code between different known symbols |
| CallSignals.SignalsIgnoreOrder | internal/suggest/suggest.go:168-199 | the signals depend on which calls there are, not on their order or repetition |
| FieldLookup.LookupField | internal/validate/attributes.go:270-296 | the pruned search ends and gives the answer of the unpruned rule: the only path at the least depth, ambiguity if that depth has several, inaccessible if none has any |
| FieldLookup.ExpandFieldCandidate | internal/validate/attributes.go:298-338 | a candidate whose path repeats its type contributes nothing; any other contributes its exported embedded fields and matches, in order |
| FieldLookup.PrunedAreSurvivors | internal/validate/attributes.go:270-338 | each layer of the search is the full layer without the paths that visit a type twice |
| FieldLookup.CutCycle | internal/validate/attributes.go:307-316 | every path that visits a type twice has a shorter one to the same type |
| FieldLookup.PruningKeepsMatches | internal/validate/attributes.go:270-338 | at the least depth with a match, pruning neither hides a match nor changes how many there are |
| FieldLookup.MatchesAtContain | internal/validate/attributes.go:318-335 | the matches of a depth are exactly the exported field paths of that length ending in the name |
| FieldLookup.PrunedIsShallow | internal/validate/attributes.go:270-296 | no layer deeper than the number of recorded types has a candidate |
| SelectorRule.SelectionRule | internal/validate/attributes.go:270-348 | over the recorded types alone: what is selected is the one shortest chain of exported fields with that name at its end, all before it embedded; several shortest chains are ambiguous, none means inaccessible |
| SelectorRule.PointerIsFollowed | internal/validate/attributes.go:340-348 | a pointer to a recorded struct is searched like the struct |
| SelectorRule.OwnFieldIsFound | internal/validate/attributes.go:318-335 | the only exported field of a name in a struct is what is selected from it |
| SelectorRule.OthersHaveNoFields | internal/validate/attributes.go:340-348 | nothing is selected from any other kind, a pointer to a pointer included |
| Accessors.ResolveAccessorFields | internal/validate/attributes.go:153-185 | the fields of one selection after the other, embedded ones included, and the class of the type they end at, or the first failure |
| Accessors.SelectAllIsFieldPath | internal/validate/attributes.go:165-177 | what resolves is a path of exported fields, each in the struct the ones before lead to |
| Accessors.AccessorRenderer.FieldExpression | internal/backend/otelc/typed_accessors.go:297-324 | the loop emits the specified statements and expression, or reports the specified error |
| Accessors.AccessorRenderer.RenderValueAccessor | internal/backend/otelc/typed_accessors.go:244-295 | for the type of the chosen parameter or result the emitted body is the specified reader; it fails exactly if that type cannot be written or a field cannot be selected |
| Accessors.FieldExpressionSucceeds | internal/backend/otelc/typed_accessors.go:297-334 | for every field path, with unique field names, the expression is rendered and ends at the type the lookup ended at |
| Accessors.FieldsAreRead | internal/backend/otelc/typed_accessors.go:297-324 | after the emitted guards the expression is the value at the end of the path, well typed, or a guard has returned |
| Accessors.ReturnsValue | internal/backend/otelc/typed_accessors.go:269-294 | the final statements call `String` on that value unless it is nil, or return it exactly if it is no integer above the int64 range and no non-finite float |
| Accessors.WrongTypeStops | internal/backend/otelc/typed_accessors.go:259-261 | an argument that the assertion does not accept, by identity or by implementation, is unavailable |
| Accessors.ReaderIsCorrect | internal/backend/otelc/typed_accessors.go:244-324 | for every attribute that resolves the reader is rendered, and on every well-typed argument, interfaces and aliases included, it returns the value at the end of the path or reports it unavailable; it never dereferences nil |
| Accessors.AssertionKeepsType | internal/backend/otelc/typed_accessors.go:259-261 | a successful assertion gives a value of the asserted type, an interface holding the argument if that type is one |
| Accessors.InterfaceSourceIsRead | internal/backend/otelc/typed_accessors.go:259-279 | a source of interface type with `String` is read through every dynamic type that implements it |
| Accessors.AliasIsTransparent | internal/backend/otelc/typed_accessors.go:259-261 | a type and its alias accept and return the same |
| Accessors.MissingMeansNil | internal/backend/otelc/typed_accessors.go:304-311 | a path has no value exactly if some value on it, before its end, is nil |
| AccessorRules.RefusedKinds | internal/validate/attributes.go:177-206 | after the fields, only recorded bools, integers, floats and strings are read as they are, and only types with `String` through it |
| AccessorRules.ScalarIsRead | internal/backend/otelc/typed_accessors.go:259-294 | a scalar argument, under any alias, is returned exactly if it is no integer above 9223372036854775807 and no NaN or infinity |
| AccessorRules.NilIsNotAsked | internal/backend/otelc/typed_accessors.go:269-280 | a nil pointer, slice, map, function or channel with `String` is unavailable; any other value is asked for its text |
| AccessorRules.OthersAreUnavailable | internal/backend/otelc/typed_accessors.go:259-261 | a missing argument and one of another concrete type are unavailable |
| AccessorRules.FieldBehindPointerIsRead | internal/backend/otelc/typed_accessors.go:297-324 | a scalar field of a struct behind a pointer resolves, and is read unless the pointer is nil |
| Globs.Glob | internal/resolve/match.go:14-55 | the answer of the declarative meaning, an error exactly if some part is invalid, and at most (m+1)(n+1) evaluations |
| Globs.GlobSearch.Match | internal/resolve/match.go:29-52 | the memoised search never reads an entry that is still being computed and returns the recursive meaning |
| Globs.ValidatedGlobParts | internal/resolve/match.go:57-71 | every part is checked, reachable or not |
| Globs.MatchFromMeaning | internal/resolve/match.go:39-47 | the recursion holds exactly if the value splits so that each double star takes any run of segments and every other part exactly one |
| Matching.Matches | internal/resolve/match.go:75-90 | the conjunction over all fields; an invalid pattern anywhere in the globbed fields is an error |
| Matching.MatchesGlobFields | internal/resolve/match.go:92-128 | all globbed fields hold, with the first invalid pattern reported even after a field has failed |
| Matching.MatchesPatterns | internal/resolve/match.go:156-173 | some pattern matches or there is none; the first invalid pattern is reported even after a match |
| Matching.MatchesInterfaceMethod | internal/resolve/match.go:130-138 | the symbol implements a method of a listed interface |
| SelectorMeaning.SelectorIsMeant | internal/resolve/match.go:75-173 | a selector is refused exactly if one of its patterns is malformed, and otherwise selects by each of its fields as spelled out |
| SelectorMeaning.SplitMeaning | internal/resolve/match.go:20-21 | the segments are the only parts without slashes that join to the text |
| Resolver.Resolve | internal/resolve/resolve.go:38-89 | the whole result, for any sorting algorithm, is the one that the rows of ResolutionProperties and ResolutionReports are about |
| Resolver.ResolutionResult.SortReported | internal/resolve/resolve.go:84-86 | any stable sort of the diagnostics gives the one specified list |
| Resolution.DiagnosticsAreSorted | internal/resolve/resolve.go:84-86 | that list is the only one with the same diagnostics, in order, and with those that compare alike in the order they were reported |
| Resolution.DiagnosticOrder | internal/resolve/resolve.go:382-396 | the comparison of diagnostics is a strict weak order |
| Resolver.ResolutionResult.CandidateRules | internal/resolve/resolve.go:341-380 | candidates, decisions, skipped targets and matched rules of one symbol |
| Resolver.ResolutionResult.ApplyGlobalExclusions | internal/resolve/resolve.go:443-466 | whether an exclusion applies, with its decisions and skipped targets |
| Resolver.ResolutionResult.ResolveSymbol | internal/resolve/resolve.go:404-438 | one symbol's contribution to plan, explanations and diagnostics |
| Resolver.ResolutionResult.ResolveSymbols | internal/resolve/resolve.go:398-441 | the contributions of all symbols |
| Resolver.ChooseTarget | internal/resolve/resolve.go:291-339 | the first candidate's target if all proposals are valid and agree up to the rule ID; otherwise the diagnostics |
| Resolver.TargetFor | internal/resolve/resolve.go:123-147 | the proposal of one rule, with attributes in key order whatever the unstable sort does |
| TargetRules.TargetMeaning | internal/resolve/resolve.go:123-245 | every target of the result records errors as its rule says, otherwise as the defaults say, with the indexes of its symbol exactly if they are recorded; takes the only context argument or a root; is named by the template of the rule, the policy or the kind; and carries exactly the attributes of the rule, in key order |
| TargetRules.BuiltInName | internal/resolve/resolve.go:191-199 | without templates, functions are named by package and name, methods also by receiver |
| ResolutionProperties.PlanMeaning | internal/resolve/resolve.go:291-466 | a symbol becomes a target exactly if some rule includes and does not exclude it, no exclusion matches, every such rule's target is valid and all agree up to the ID; the least ID is recorded, there is one target per symbol, and the explanation says selected exactly then |
| ResolutionProperties.ChoiceMeaning | internal/resolve/resolve.go:291-339 | candidates are chosen from exactly if their proposals are all valid and unanimous |
| ResolutionProperties.TargetIsSelected | internal/resolve/resolve.go:398-441 | what the steps produce for a symbol meets the declarative rule |
| ResolutionProperties.SelectedIsTarget | internal/resolve/resolve.go:398-441 | what meets the declarative rule is produced |
| ResolutionProperties.DeclarationOrderIsIrrelevant | internal/resolve/resolve.go:38-89 | the whole result is the same for any order of rules, exclusions and symbols |
| ResolutionReports.ProceedsMeaning | internal/resolve/resolve.go:47-78 | resolution reaches the symbols exactly if validation found no error, no glob is malformed and every listed symbol exists |
| ResolutionReports.ProceedsExactly | internal/resolve/resolve.go:47-78 | the same over selectors as written: no pattern malformed, every listed symbol in the code model |
| SelectorChecks.SelectorsReport | internal/resolve/resolve.go:261-289 | a rejected policy gets one error for the first malformed pattern of every selector, one for every listed symbol that does not exist, and no others |
| ResolutionReports.HitExactly | internal/resolve/resolve.go:341-380 | a rule or an exclusion hits a symbol exactly if its selector is well-formed and selects it |
| ResolutionReports.DiagnosticsMeaning | internal/resolve/resolve.go:80-113 | the sorted diagnostics are exactly those of the validation, those of the symbols, one error for every rule that hits no symbol, and one warning for every rule that hits some but is excluded for all of them |
| ResolutionReports.SkippedMeaning | internal/resolve/resolve.go:341-466 | skipped are exactly the pairs of a symbol with a rule that includes and excludes it, with an exclusion that takes it from some candidate, and with the least candidate if the symbol has no context |
| ResolutionReports.DecisionsMeaning | internal/resolve/resolve.go:341-466 | the decisions in the explanation of a symbol are exactly the outcomes of every rule and every exclusion for it, those of local exclusions only after a match |
| ResolutionReports.CandidateReports | internal/resolve/resolve.go:291-339 | a candidate reports what is wrong with its own proposal, and a conflict exactly if it is valid and differs from the least valid one |
| ResolutionReports.ContextDiagnosticsAre | internal/resolve/resolve.go:149-174 | no context without the root mode, and several contexts, are the two errors of a context |
| ResolutionReports.RuleDiagnosticsAre | internal/resolve/resolve.go:91-113 | codes, severities and texts of the diagnostics of rules and conflicts |
| ResolutionReports.DiagnosticsInOrder | internal/resolve/resolve.go:382-396 | diagnostics come by symbol, rule, code and message |
| ResolutionReports.StoppedResolution | internal/resolve/resolve.go:46-78 | resolution that stops early has no plan, no explanations, and errors that say why |
| CanonicalPolicies.CanonicalizePolicy | internal/lockfile/policy.go:12-43 | the in-place loops and unstable sorts compute the canonical form |
| CanonicalPolicies.CanonicalizationPreservesResolution | internal/lockfile/policy.go:12-62 | resolving the canonical policy gives the same result, except that both may be rejected with different diagnostics |
| CanonicalPolicies.EqualFormsResolveAlike | internal/lockfile/policy.go:12-62 | policies with equal canonical forms always have the same plan |
| CanonicalPolicies.FormIgnoresOrder | internal/lockfile/policy.go:18-42 | reordering rules and exclusions does not change the form |
| CanonicalPolicies.PolicyFormMeaning | internal/lockfile/policy.go:12-62 | two policies have the same form exactly if they differ in the order of rules, exclusions and attributes and in the order and repetition of listed values only |
| CanonicalPolicies.SelectorFormMeaning | internal/lockfile/policy.go:45-55 | two selectors have the same form exactly if each list has the same values, in any order and repetition, and the other fields are equal |
| CanonicalPolicies.SameSelection | internal/lockfile/policy.go:45-55 | a canonical selector is valid for and selects the same symbols |
| CanonicalPolicies.Canonicalize | internal/lockfile/policy.go:57-62 | sorting and compacting gives the one increasing list of the values |
| Lockfiles.CheckLock | internal/lockfile/lockfile.go:243-255 | accepts exactly the valid lockfiles |
| Lockfiles.ValidityMeaning | internal/lockfile/lockfile.go:243-390 | what makes a lockfile valid, field by field |
| Lockfiles.CheckTargets | internal/lockfile/lockfile.go:274-292 | accepts exactly valid targets without a repeated symbol, attribute keys included |
| Lockfiles.CheckAttributes | internal/lockfile/lockfile.go:316-349 | accepts exactly lists of valid attributes without an empty or repeated key |
| Lockfiles.CheckAttribute | internal/lockfile/lockfile.go:327-345 | the checks together accept exactly attributes of a scalar kind that record a value exactly for symbol metadata, and are strings from one source wherever metadata, an error type or `String` is read |
| Lockfiles.CheckStringerAttribute | internal/lockfile/stringer.go:11-30 | a `String` attribute has one source, an argument or a result, and is a string without a recorded value |
| Lockfiles.CheckSymbolAttribute | internal/lockfile/lockfile.go:351-376 | metadata has a recorded string value and a known field as its one source; nothing else has a recorded value |
| Lockfiles.CheckErrorTypeAttribute | internal/lockfile/error_attributes.go:13-25 | an error type is the one source and a string without a recorded value |
| Lockfiles.CheckArtifacts | internal/lockfile/lockfile.go:378-390 | accepts exactly relative, unrepeated paths with digests |
| Lockfiles.CanonicalizeLock | internal/lockfile/lockfile.go:415-429 | clone and sort in place gives some order by the keys, the canonical one if no key is repeated |
| Lockfiles.CanonicalContents | internal/lockfile/lockfile.go:415-429 | canonical order keeps exactly the targets, attributes and artifacts |
| Lockfiles.CanonicalIsStable | internal/lockfile/lockfile.go:415-429 | canonical order is a normal form |
| Lockfiles.CanonicalIsValid | internal/lockfile/lockfile.go:415-429 | canonical order changes nothing about validity |
| Lockfiles.OrderKeepsValidity | internal/lockfile/lockfile.go:163-169 | however equal keys are ordered, sorting neither hides nor creates an invalid entry |
| Lockfiles.OrderIsCanonical | internal/lockfile/lockfile.go:415-429 | without repeated keys there is one order |
| Lockfiles.Marshal | internal/lockfile/lockfile.go:163-177 | the canonical encoding of exactly the valid lockfiles |
| Lockfiles.Parse | internal/lockfile/lockfile.go:181-206 | accepts exactly encodings of valid lockfiles |
| LockCreation.Create | internal/lockfile/lockfile.go:29-77 | the canonical lockfile of the plan exactly if the inputs are complete, no symbol is repeated, every target can be pinned and the outcome is valid; otherwise nothing |
| LockCreation.CreateTarget | internal/lockfile/lockfile.go:97-134 | pins a target exactly if its symbol is the analyzed one, its file is relative and every attribute can be read |
| LockCreation.CreatedMeaning | internal/lockfile/lockfile.go:45-134 | a created lockfile holds its inputs and, field by field, every planned target and attribute and no other |
| LockCreation.CreatedExactly | internal/lockfile/lockfile.go:29-95 | when a lockfile is created |
| LockCreation.LockableExactly | internal/lockfile/lockfile.go:97-161 | when a target can be pinned |
| LockCreation.PrepareCurrent | internal/cli/lock.go:64-85 | the current lockfile, or the exit code of the first step that fails; what the commands start from is always valid |
| LockCreation.CreatedIsValid | internal/lockfile/lockfile.go:69-77 | what is created is valid, in canonical order and has the given artifacts |
| LockCreation.LockPinsPlan | internal/lockfile/lockfile.go:29-161 | of one analyzed project, two created lockfiles are equal exactly if policies, module graphs and backends are and plans and artifacts are up to order: nothing of a plan is lost |
| LockCreation.LockIgnoresDeclarations | internal/lockfile/lockfile.go:29-161 | policies that are the same up to order and repetition, over symbols in any order, give one lockfile or none |
| LockDiffs.Diff | internal/lockfile/diff.go:15-56 | exactly the added, removed and changed entries of the canonical lockfiles, ascending by symbol and classification |
| LockDiffs.DiffIsUnique | internal/lockfile/diff.go:41-53 | the diff is determined, whatever the order of map iteration and the sort |
| LockDiffs.CompareTargets | internal/lockfile/diff.go:25-39 | the loop reports exactly what each current target contributes and leaves exactly the missing targets |
| LockDiffs.ReportRemoved | internal/lockfile/diff.go:41-45 | one entry per remaining symbol, in any order of the map |
| LockDiffs.ChangesAreDistinct | internal/lockfile/diff.go:95-141 | the entries of one target have distinct classifications, one per differing field |
| LockDiffs.MetadataIsDistinct | internal/lockfile/diff.go:65-93 | the metadata entries have distinct classifications, one per differing field |
| LockDiffs.EmptyDiffMeaning | internal/lockfile/diff.go:15-56 | a diff of valid lockfiles is empty exactly if they are equal up to list order and source lines and columns |
| LockDiffs.SwappedDiff | internal/lockfile/diff.go:15-56 | swapping the inputs exchanges additions and removals and leaves every other entry in place |
| DiffRules.DiffMeaning | internal/lockfile/diff.go:15-141 | a diff of the lockfiles as given has exactly the entries that tell a difference, each named by what differs |
| DiffRules.EditMeaning | internal/lockfile/diff.go:95-141 | editing one target yields exactly the entries of the fields that differ |
| DiffRules.RenamedSpan | internal/lockfile/diff.go:107-111 | a renamed span, and nothing else, is one entry that says so |
| DiffRules.EntriesInOrder | internal/lockfile/diff.go:46-53 | entries come by symbol, and then in the listed order of classifications |
| LockCommands.ResolutionDiff | internal/lockfile/refresh.go:11-16 | empty exactly if the resolution is the same, whatever the build identity; never empty against a missing lockfile |
| LockCommands.RefreshResolution | internal/lockfile/refresh.go:20-37 | recorded identity survives exactly on an unchanged resolution; drift and an unexpected identity are errors |
| LockCommands.Project.PreviousResolutionLock | internal/cli/lock.go:104-133 | what each command sees for a missing, unreadable, invalid and valid lockfile |
| LockCommands.Project.PrepareResolutionLock | internal/cli/lock.go:64-102 | the prepared state with a diff that is empty exactly if the resolution is the same, or the exit code of the failure; the steps before it are LockCreation.PrepareCurrent |
| LockCommands.Project.LockCommand | internal/cli/lock.go:37-62 | exit code and file of every command in every state |
| LockCommands.Project.RefreshResolutionLock | internal/cli/lock.go:160-186 | checking never writes; writing stores the canonical refreshed lockfile; a failure leaves the file alone |
| CommandRules.FailureIsKept | internal/cli/lock.go:39-42 | a failed preparation keeps its exit code and the file |
| CommandRules.PreviousMeaning | internal/cli/lock.go:104-133 | what a command starts from: the stored lockfile, nothing, or, for a plain `lock`, nothing in place of a damaged file |
| CommandRules.ValidateExits | internal/cli/lock.go:44-49 | `validate` exits 0 exactly without a lockfile or with one of the current resolution, 6 otherwise, and writes nothing |
| CommandRules.DiffExits | internal/cli/lock.go:50-55 | plain `diff` exits 0 unless the file is damaged, with `--check` exactly on the current resolution, 6 otherwise, and writes nothing |
| CommandRules.LockCheckExits | internal/cli/lock.go:160-167 | `lock --check` exits 0 exactly on the current resolution, 6 otherwise, and writes nothing |
| CommandRules.LockExits | internal/cli/lock.go:160-186 | when `lock` refuses, fails, only pretends or writes, and what it writes |
| CommandRules.ResolutionMeaning | internal/lockfile/refresh.go:11-16 | two lockfiles have one resolution exactly if they agree on everything but build identity, order, lines and columns |
| LockCommands.OnlyLockWrites | internal/cli/lock.go:37-62 | the file changes only by a successful `lock` without check and dry run |
| LockCommands.IdentityIsCarried | internal/lockfile/refresh.go:18-37 | one command leaves a recorded identity alone or carries it over an unchanged resolution |
| LockCommands.IdentityIsNotInvented | internal/lockfile/refresh.go:20-37 | a stored identity was stored before the command |
| LockCommands.IdentityHasAnOrigin | internal/cli/lock.go:37-186 | in every history a stored identity is the one recorded by the last outside replacement, and its resolution has not changed since |
| LockCommands.IdentitySurvivesCommands | internal/cli/lock.go:37-186 | as long as only commands run, an identity is neither lost nor moved to another resolution |
| LockCommands.LockThenCheck | internal/cli/lock.go:44-61 | after a successful `lock`, the three checks pass for exactly the unchanged resolutions and change nothing |
| LockCommands.LockTwice | internal/cli/lock.go:160-186 | a second `lock` succeeds and writes the same contents |
| CacheKeys.AnalysisCacheKey | internal/discovery/cache_inputs.go:60-97 | the hashed value has exactly the intended inputs, in the only order they allow; none if a covered file cannot be read |
| CacheKeys.CachePackageInputs | internal/discovery/cache_inputs.go:99-137 | one sorted input per package and exactly the paths to watch |
| CacheKeys.CacheFileInputs | internal/discovery/cache_inputs.go:176-195 | every watched path once, in order, with the digest of its content or the mark of a missing file |
| CacheKeys.KeyMeaning | internal/discovery/cache_inputs.go:60-97 | two snapshots have the same key exactly if implementation, root, build, patterns, switches, packages, watched paths and the contents of these agree |
| CacheKeys.PackageInputDecides | internal/discovery/cache_inputs.go:103-123 | a package input covers identity, the set of files, the set of imports and the module with its replacements |
| CacheCoverage.KeyCoversFiles | internal/discovery/cache_inputs.go:99-174 | the key holds the state of exactly these files: sources of every package, manifests and sums of main, other and replacing modules, the module file and its sum where it stands in, vendored module lists, and the workspace files |
| CacheCoverage.MainManifestMatters | internal/discovery/cache_inputs.go:159-172 | unless a module file stands in, `go.mod` and `go.sum` of every main module are among them |
| CacheCoverage.EqualKeysAgree | internal/discovery/cache_inputs.go:60-174 | two snapshots have one key exactly if program, root, build, patterns, switches, facts of packages and modules, these files and their contents agree |
| CacheCoverage.ChangeIsNoticed | internal/discovery/cache_inputs.go:60-97 | changing the content of one of these files changes the key |
| CacheCoverage.KeyFailsExactly | internal/discovery/cache_inputs.go:60-74 | there is no key exactly if the program or one of these files cannot be read |
| CacheRetention.StopIsUnique | internal/discovery/cache_retention.go:58-74 | there is only one point at which a pass can stop |
| CacheRetention.FinishedWithinLimits | internal/discovery/cache_retention.go:16-19 | with the repository's constants a finished pass is always within both limits |
| CacheRetention.RemainingStep | internal/discovery/cache_retention.go:63-74 | sparing the kept entry changes nothing; removing another lowers count and total by it |
| CacheRules.OldestGoFirst | internal/discovery/cache_retention.go:36-74 | whatever a pass removes is older than what it leaves, or as old and first by name |
| CacheRules.LimitsHold | internal/discovery/cache_retention.go:16-19 | a finished pass leaves at most 64 owned entries of 268435456 bytes together |
| CacheRules.OwnedExactly | internal/discovery/cache_retention.go:125-200 | owned are exactly regular files of at most 67108864 bytes named by 64 hexadecimal digits that hold an intact entry under that name |
| CacheRules.HitExactly | internal/discovery/cache_store.go:68-111 | when a lookup hits, and what it gives |
| CacheRules.StoredIsHit | internal/discovery/cache_store.go:92-136 | what is stored for a root and a Go version is found again for them |
| AnalysisCaches.AnalysisCache.RetainedAnalysisCacheEntries | internal/discovery/cache_retention.go:93-147 | the listing has exactly the owned files, each once |
| AnalysisCaches.AnalysisCache.PruneAnalysisCache | internal/discovery/cache_retention.go:30-77 | removes exactly the non-kept part of an oldest-first prefix, no longer than the limits require, and stops early only at an entry that cannot be removed |
| AnalysisCaches.PruningSpares | internal/discovery/cache_retention.go:58-74 | the kept file and files that are not owned survive every pass |
| AnalysisCaches.RemainingIsListed | internal/discovery/cache_retention.go:50-74 | the tracked count and total are those of the owned entries that remain in the directory |
| AnalysisCaches.PrunedWithinLimits | internal/discovery/cache_retention.go:30-77 | after a finished pass every listing of owned entries is within 64 entries and 256 MiB |
| AnalysisCaches.AnalysisCache.WriteAnalysisCache | internal/discovery/cache_store.go:113-172 | success stores the entry under its key and ends within the limits, sparing every file that is not owned; a failure before the rename changes nothing but the temporary file; an entry that is too large is not stored |
| AnalysisCaches.AnalysisCache.RefreshAnalysisCache | internal/discovery/cache.go:75-98 | publishes exactly if the key after the analysis is the key before it |
| AnalysisCaches.AnalysisCache.LoadCachedModel | internal/discovery/cache.go:31-73 | a decodable entry of the keyed inputs is a hit, a miss is the uncached analysis, and a failure has a failing step; read-only loads change nothing; every change is one a history allows |
| AnalysisCaches.PublicationIsGenuine | internal/discovery/cache.go:75-98 | with no change and change back in one refresh, what is published is the analysis of inputs with that key |
| AnalysisCaches.EveryEntryIsGenuine | internal/discovery/cache_store.go:92-172 | in every history from an empty directory, with publications, copies, removals and damage in any order, every well-formed entry is the analysis of inputs with its key |
| AnalysisCaches.HitIsUncachedAnalysis | internal/discovery/cache_store.go:68-111 | a hit is what the uncached analysis of the keyed inputs returns, with the effective build of the options |
| Publish.VerifyArtifacts | internal/compiler/artifacts.go:115-157 | succeeds exactly if the inventory is valid and the files are exactly its paths with its digests, although the walk only counts |
| Publish.ReadArtifacts | internal/compiler/publish.go:26-54 | accepts exactly the directories that their own manifest describes completely |
| Publish.GeneratedArtifactInventory | internal/compiler/artifacts.go:71-87 | the sorted inventory of exactly the generated files, or an error for an invalid or repeated path |
| Publish.ParentDirectory.StageArtifacts | internal/compiler/artifacts.go:34-69 | a fresh directory with exactly the generated files; the destination is untouched in every state |
| Publish.ParentDirectory.CommitArtifactReplacement | internal/compiler/publish.go:204-231 | for every failing step, the previous output is restored or stays complete in the backup |
| Publish.ParentDirectory.ReplaceArtifactOutput | internal/compiler/publish.go:183-202 | every state up to some point has the previous output intact, every later one the new bundle at the destination |
| Publish.ParentDirectory.PublishStagedArtifacts | internal/compiler/publish.go:166-181 | an existing output is only replaced with `clean` |
| Publish.ParentDirectory.PublishArtifacts | internal/compiler/publish.go:107-149 | success means exactly the generated files at the destination and no backup; each error says what is intact; without failing steps it succeeds exactly if the bundle and the output are verified and the output is absent, equal or may be replaced |
| Publish.EveryStateIsSafe | internal/compiler/publish.go:183-231 | wherever the process stops, the previous or the new bundle is complete, and without `clean` the output is the previous one |
| Publish.SameInventory | internal/compiler/publish.go:138-140 | a verified output has the staged inventory exactly if it has the staged files |
| PublishRules.VerifiedMeaning | internal/compiler/publish.go:74-105 | a directory is verified exactly if its manifest accounts, with itself, for every file once, by a valid path and the digest of its content |
| PublishRules.StagingMeaning | internal/compiler/artifacts.go:71-105 | files can be staged exactly if their paths are valid and none is repeated or below another |
| Workspaces.CollectWorkspaceModuleDirs | internal/compiler/workspace_sources.go:108-146 | ends, and returns the closure exactly if all of it is readable and no two members are the same physical directory |
| Workspaces.CollectWorkspaceSources | internal/compiler/workspace_sources.go:26-63 | the sorted closure of uses and local replacements; every alternate manifest must belong to it |
| Workspaces.ClosureIsLeast | internal/compiler/workspace_sources.go:87-106 | the closure is the least set with the roots that local replacements do not leave |
| Workspaces.RootsMeaning | internal/compiler/workspace_sources.go:79-94 | the search starts from the used directories and the local replacements, an absolute path as it is and a relative one below the workspace |
| Workspaces.SourcePathsMeaning | internal/compiler/workspace_sources.go:65-77 | which path arguments are accepted |
| Workspaces.StepMeaning | internal/compiler/workspace_sources.go:96-169 | a directory leads on through the local replacements of its alternate manifest, or of its `go.mod` |
| Manifests.RelocationOutcome | internal/compiler/module_manifest.go:28-48 | the loop succeeds exactly if every local replacement has a copy and none is emptied before its turn; every one then points to its copy and all else stays exactly if, besides, none is for another's directive; otherwise it fails as stated |
| Manifests.RelocateReplacements | internal/compiler/module_manifest.go:28-48 | the loop over the directives, with the edits that earlier rounds made, is the specified one |
| Manifests.VersionIsLost | internal/compiler/module_manifest.go:28-48 | a copied version-specific replacement before a copied general one of the same module is lost |
| Manifests.GeneralFirstFails | internal/compiler/module_manifest.go:28-48 | in the other order the loop fails although everything has a copy |
| Manifests.RelocateModuleManifest | internal/compiler/module_manifest.go:18-57 | the relocated directives, or the error for a relative directory, a broken manifest, a missing copy or a directive that an edit has emptied |
| Manifests.RelocatedDirective | internal/compiler/module_manifest.go:28-46 | relocating a directive changes the new path of a local replacement to its copy and nothing else |
| Manifests.CopyMeaning | internal/compiler/workspace_manifest.go:49-58 | the copy of a path is where the directory it points to is relocated |
| Manifests.RelocatedWorkspaceUses | internal/compiler/workspace_manifest.go:60-87 | uses point to distinct copies, none of them the runtime module, which comes last |
| Manifests.RelocateWorkspaceManifest | internal/compiler/workspace_manifest.go:21-47 | succeeds exactly if directories are absolute, every use has a copy, the copies are distinct and the loop over the replacements succeeds |
| Manifests.ClosureIsRelocatable | internal/compiler/workspace_manifest.go:49-107 | with the closure copied, no manifest of the workspace names a path without a copy |
| Manifests.UncopiedExactly | internal/compiler/workspace_manifest.go:89-107 | with the closure copied, a manifest still reports a missing copy exactly if a directive is emptied before its turn and the directory of the manifest has no copy |
| SymbolIds.PrintAfterParse | pkg/model/compatibility.go:105-145 | printing what was parsed gives the ID back |
| SymbolIds.ParseAfterFunction | pkg/model/compatibility.go:84-87 | a printed function parses back exactly if path and name are not empty, the name has no dot and the ID does not look like a method |
| SymbolIds.ParseAfterMethod | pkg/model/compatibility.go:89-98 | a printed method parses back exactly if name and receiver are not empty and have no delimiters |
| SymbolIds.FormsAreDistinct | pkg/model/compatibility.go:84-98 | IDs of functions and methods never collide |
| SymbolIds.Formats | pkg/model/compatibility.go:84-98 | how functions, methods and methods of pointers are printed |
| Templates.ValidateTemplate | internal/policy/template.go:15-38 | valid exactly if the template has a left-to-right reading with supported variables |
| Templates.RenderTemplate | internal/policy/template.go:40-65 | rendered exactly if there is a reading; the unchecked slices are in bounds |
| Templates.RenderReading | internal/policy/template.go:40-65 | the output is the concatenation of the reading's literals and values; values are never read again |
| Templates.ReadingIsUnique | internal/policy/template.go:15-38 | a template has at most one reading |
| Templates.ReadFindsTheReading | internal/policy/template.go:15-38 | the scan finds the reading whenever there is one |
| Templates.VariableIsReplaced | internal/policy/template.go:40-65 | a supported variable between double braces is replaced by its value, between the text before it and whatever the rest is rendered as |
| Templates.OthersFail | internal/policy/template.go:15-38 | any other name, and a variable that is not closed, is the error that names it |
| BuildArguments.ParseBuildArguments | internal/cli/build_arguments.go:28-69 | consuming the arguments one flag at a time is the recursive reading that the next rows are about, errors included |
| BuildArguments.ParseIsNormal | internal/cli/build_arguments.go:28-141 | accepted arguments are canonical flags for analysis and build, followed by the packages |
| BuildArguments.ParseAfterWriting | internal/cli/build_arguments.go:28-141 | writing accepted arguments out and parsing them again gives the same arguments |
| BuildFlags.RecordedInOrder | internal/cli/build_arguments.go:28-141 | allowed flags are recorded unchanged and in order, for the analysis or for `go build`, the last output counts, and the packages follow |
| BuildFlags.OthersAreRefused | internal/cli/build_arguments.go:83-141 | a value that is not allowed is refused for its reason, before anything behind it is read |
| BuildFlags.UnknownIsRefused | internal/cli/build_arguments.go:63-65 | any other flag is refused |
| BuildFlags.BareMeansTrue | internal/cli/build_arguments.go:121-124 | a boolean flag without a value means true |
| BuildFlags.ValueMayFollow | internal/cli/build_arguments.go:83-98 | a value may follow its flag as the next argument |
| BuildFlags.DashesAgree | internal/cli/build_arguments.go:72-81 | one dash or two make no difference |
| BuildArguments.ValidateBuildArguments | internal/compiler/build_arguments.go:31-73 | the verdict of the recursive reading that the next rows are about, with later recorded flags overriding earlier ones and the defaults |
| BuildArguments.ParsedIsValid | internal/compiler/build_arguments.go:31-136 | the build arguments of everything parsed are valid exactly if no recorded flag contradicts one of them |
| BuildArguments.ParsedIsValidAfterAnalysis | internal/compiler/build_arguments.go:31-136 | with flags recorded by the analysis, everything parsed is valid |
| BuildFlags.ValidatedInOrder | internal/compiler/build_arguments.go:31-136 | each flag is judged by what the build records of it, or by itself, and the first verdict against one is the verdict |
| BuildArguments.BuildPackageStart | internal/compiler/build_paths.go:82-98 | the index at which the recursive reading of the next row stops |
| BuildArguments.StartIsWherePackagesBegin | internal/compiler/build_paths.go:82-98 | the packages start where the parser put them exactly if the first one is not a lone dash |
| BuildArguments.LoneDashIsSkipped | internal/compiler/build_paths.go:82-98 | a lone dash is parsed as a package, and the package start is past it |
| BuildFlags.FlagsAreSkipped | internal/compiler/build_paths.go:82-98 | flags are skipped with their values, however these are written, and nothing else is |
| BuildArguments.RelocateBuildArguments | internal/compiler/build_paths.go:13-58 | a relative original directory is an error; otherwise exactly the paths from the package start on are replaced, each by its copied directory and suffix, or the first one without a prepared directory is the error |
| BuildArguments.WildcardPartsMeaning | internal/compiler/build_paths.go:60-80 | the directory has no wildcard, the suffix begins with the first path element that has one, and together they are the path |
| BuildFlags.RelocatedMeaning | internal/compiler/build_paths.go:39-58 | which arguments are paths, and that a path becomes the same file, directory or pattern in the prepared directory |

## Left out
- Loading packages, the AST and SSA walks that build the call graph and the type index, and the discovery of entrypoints: the model starts from the graph, the type index and the code model.
- Text formats: YAML, JSON, go.mod and go.work syntax and Go formatting are injective encodings or parsed values; nil and empty lists are not told apart.
- `path.Match` on one segment and its validity are parameters of the glob matcher, as are pinned versions, clean relative paths and names of error results.
- Cancellation: contexts are never cancelled.
- Concurrency inside one call: cache loads and publications run as whole methods; other processes appear as steps of a cache or lockfile history between them.
- Graph digests, the backend identity, accessor kinds and the text of a canonical policy are inputs of lock creation; that different policies have different texts is not claimed, because JSON does not tell some constants apart.
- Policy validation: resolution takes its diagnostics as an input and relies only on the uniqueness of IDs and attribute keys that it guarantees.
- Score weights, confidence levels, evidence texts and the final ranking of suggestions (internal/suggest/suggest.go:84-166): constant tables over the signals modelled here.
- Static and error-type accessors, accessor names and import aliases (internal/backend/otelc/typed_accessors.go:195-242, 336-433): they would only add members with one branch each.
- The wording of errors, and diagnostics of rejected policies beyond their number, order and fields.
- Vendoring, running `go` and `otelc`, copying files, symbolic links and permissions: process and file-system plumbing.
- LockDiffs.Diff: stated for lockfiles without repeated symbols, attribute keys or artifact paths and without empty symbols, which is what parsing and creating guarantee; with repetitions the unstable sort of the original leaves the result open.
- Resolver.Resolve: stated for unique rule and exclusion IDs, attribute keys and symbol IDs, unless validation has reported errors.
- CanonicalPolicies.CanonicalizationPreservesResolution: of two rejected policies it does not compare the diagnostics, because the first invalid pattern that is reported depends on the order of a list.
- Accessors.ReaderIsCorrect: as the Go language demands, the fields of a struct have different names and exported fields have exported identifiers; values are trees, so that sharing and cycles between pointers are unrolled. Identity, implementation and `String`, which may panic, are parameters of the Go runtime that agree with the recorded kinds; integer constants and floats in policies are not part of it.
- Accessors.AccessorRenderer.RenderValueAccessor: the body starts empty, and collecting imports while a type is written is left out; whether a type can be written is a parameter.
- CacheKeys.AnalysisCacheKey: package IDs are unique within one load, as the package loader promises.
- AnalysisCaches.HitIsUncachedAnalysis: that the analysis depends on nothing but the covered inputs and the Go version is an assumption about the Go tools, not a result.
- AnalysisCaches.AnalysisCache.PruneAnalysisCache: a file that vanishes between listing and removal counts as removed, as in the original, and is not told apart from one that was removed.
- Publish.ParentDirectory.PublishArtifacts: the names of temporary directories are fresh and differ from the destination; the files of a bundle are kept by path, so that empty subdirectories are invisible.
- Manifests.RelocateReplacements: the edits of golang.org/x/mod/modfile are not part of the repository; they are modelled by their public behaviour, the first matching directive rewritten and the others emptied, and an edit that meets an emptied directive again has no result. Replacements name a module, as the parser guarantees.
- Workspaces.CollectWorkspaceModuleDirs: finitely many physical directories are assumed, which is what makes the search end.
- BuildArguments.RelocateBuildArguments: the path functions of the platform and the prepared directory of an original one (internal/compiler/build_directory.go:21-53) are parameters.
