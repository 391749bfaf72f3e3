# Verification of the gates, resolvers and logs

A Dafny model of the repository's static gates, its layered configuration resolvers, its append-only memory
log and its freeze-time roster resolver, with proofs about each. `dafny verify dfyconfig.toml` checks it all.

**The field-worker gate** (`Syntax`, `Payload`, `Runs`, `Aliases`, `Chains`, `Scanner`, `Forms`, `Order`, `Alarms`,
`Recorded`, `Missed`, `Gate`, `Marketplace`). A small syntax tree carries two readings that share only the tree and
what a type-only wrapper is. One is the scanner's: shapes of payloads, names that stand for the table or a chain on
it, the nodes it reports. The other, `Runs`, is what the file can do: the values a payload can take (object literals
as in section 13.2.5 of ECMA-262), the names every declaration, parameter, import and assignment binds, patterns and
defaults included (sections 13.15.5 and 14.3.3), what an expression can denote in a run that fills these places in any
order, and which calls and assignments then write a guarded column. The scanner is proved sound against the second
reading as an abstract interpretation; the two-pass name collection is compared with the least fixed point of its
rules. Two conditions appear, both computed from the text and the collected names. A file is *transparent* when every
name that a place of the file may give the table or a chain is collected; a file that binds names in the recognised
ways only is transparent exactly when two rounds reach the fixed point, and awaited queries, as in the projector, are
no obstacle. A node is *sighted* when it is clear of the table, or spelled as the scanner reads it; in a transparent
file a node that may write is reported exactly when it is sighted. `Missed` holds the spellings outside: for each, a
file or node that may write and is not reported. `Alarms` is the converse, for every file as the parser builds it:
each collected name stands for the table or a chain in some run, and a reported node may write, or always writes,
exactly as the text of its payload says. A guarded report is therefore a write under every valuation but for one kind:
an upsert in which a later member may redefine the `set` that the scanner read. The gate's floor accepts those too, so
`Gate.PassIsNotVacuous` tells them apart, and `Missed` holds one that never writes and one that sometimes does not.
`Forms`, `Recorded` and `Order` fix the scanner from outside: which spellings it takes for the table, a chain, a
payload shape or a site, which nodes of a tree record a name, and in what order the findings come. `Gate.VerdictExact`
says when the gate gives each answer.

**Layered configuration** (`KeyedLists`, `ListMerge`, `ListRegroup`, `ConfigMerge`, `Regroup`). Documents with
ordered tables, the keyed and appending list merges, the recursive merge, the fold over layers and the dotted-path
lookup. A keyed merge is described place by place for any lists, repeated keys included. The condition under which
merging is associative is exact for all documents. It is stated on keys and places, with one exception: where the
inner merges of three lists go by different fields and the lists hold equal items twice, equal items are compared
too. Without repeated items keys alone decide (`ListRegroup.KeysDecide`), and with them they do not
(`ListRegroup.ReplacedByItself`).

**Memory log** (`Memlog`, `LogText`, `MemlogRuns`). The text form with Python's line and space characters, what its
words, lines, stripping and dict operations mean, the three commands, and the temporary-file write with a crash
allowed at each of its steps.

**Roster** (`Roster`). One resolver call over a counted pool, and any number of concurrent calls as a transition
system. The validity engine is an assumed function from member and instant to a verdict or an error, and a call's
engine holds at most one extra connection at a time (`apps/jobs/src/assignable-roster.ts:104-107`). The source's
comment says that a connection per member avoids starvation when two children resolve at once; the code still
holds the member's connection while the engine takes its own, so on the pool of two that
`apps/jobs/src/boot.ts:348` builds two such calls can block each other until the pool's connection timeout
(`packages/domain/src/db.ts:70`) fails one of them. The model follows the code: `Roster.DeadlockExactly` gives the
exact condition, over steps in which no wait is given up, and `Roster.TimeoutRelieves` says what a timeout then does.

**Text machines** (`Text`, `SqlTuple`, `GlobRegex`, `GlobWalk`, `StripComments`, `SqlMask`). The SQL tuple parser and
row loop (string literals as in section 5.3 of ISO/IEC 9075-2), the glob compiler and its pruned walk (regular
expressions as in section 22.2 of ECMA-262), the comment stripper and the literal masker, each against a reference
that reads the text once.

Loops and objects that the source updates in place are methods and classes proved equal to specification functions;
the lemmas then speak about those functions.

## Model

| member | source | states |
|---|---|---|
| Syntax.EnclosingFunctionName | scripts/field-worker-state-invariant/lib.ts:149-167 | the climb from a node's parent stops at the innermost function-like ancestor and returns the name it goes by, `<anonymous>` for an unnamed one, nothing at the top level |
| Syntax.EnclosingIsInnermost | scripts/field-worker-state-invariant/lib.ts:144-167 | the answer of the climb is the label of the innermost function-like ancestor and no other answer is |
| Syntax.EnclosingName | scripts/field-worker-state-invariant/lib.ts:149-167 | that answer read off the tree: nothing when no function-like node is around; else a declaration's, method's or accessor's own name, `constructor`, the name of a named function expression, the declaration or property an unnamed one or an arrow directly stands in, and `<anonymous>` in every other case |
| Syntax.ChildrenMakeNode | scripts/field-worker-state-invariant/lib.ts:232-286 | a visit of the children leaves out no part of a node and takes its parts in the order of the text: put back in that order they make the node |
| Payload.UnwrapLoop | scripts/field-worker-state-invariant/lib.ts:54-63 | removes every wrapper that does not change which object an expression is, and only those |
| Payload.PayloadSound | scripts/field-worker-state-invariant/lib.ts:117-142 | `guarded`: under every valuation of variables, calls and spreads the written value holds a guarded column; `clean`: under none |
| Payload.TruthExact | scripts/field-worker-state-invariant/lib.ts:112-142 | every payload always, never or under some valuations only writes a guarded column, exactly as computed from its text; a conditional payload by its alternatives, an assignment by the assigned value |
| Payload.PayloadExact | scripts/field-worker-state-invariant/lib.ts:112-142 | the scanner's three answers mean always, never and it depends, in both directions, exactly for the payloads it does not call unverifiable although their text settles them |
| Payload.ArrayJoins | scripts/field-worker-state-invariant/lib.ts:137-140 | an array's shape is the join of its elements' shapes, for any number of elements |
| Payload.WrappersVanish | scripts/field-worker-state-invariant/lib.ts:53-63 | any stack of type-only wrappers around a payload changes neither the object found nor its shape |
| Forms.TableExact | scripts/field-worker-state-invariant/lib.ts:78-83 | an expression is taken for the table exactly when it is, under any type-only wrappers, the table's name, a known alias, or a member of that name written with a dot or a literal index |
| Forms.ChainExact | scripts/field-worker-state-invariant/lib.ts:169-200 | an expression is taken for a chain exactly when it goes on, by any members, indexes, calls and the four listed wrappers, from an `update` or `insert` of the table or from a name that holds a chain |
| Forms.PayloadForms | scripts/field-worker-state-invariant/lib.ts:117-142 | a payload is guarded exactly when it is an object literal, or an array with one, that plainly names a guarded column; clean exactly when it is an object literal, or an array of them, that names none and has no spread, accessor, method or computed key; unverifiable otherwise |
| Forms.PlainIsReadable | scripts/field-worker-state-invariant/lib.ts:117-142 | an object literal, or an array of them, with assignments to literal keys and shorthands only is never unverifiable |
| Forms.SetForms | scripts/field-worker-state-invariant/lib.ts:202-213 | an upsert's `set` is the value of the first member that is a plain `set`, unless a spread or a shorthand `set` comes before it; there is none exactly in an object literal without any of these |
| Forms.ReportExact | scripts/field-worker-state-invariant/lib.ts:250-284 | a node is reported, with a given site and shape, exactly when it is a `set` or upsert call with one argument, or a `values` call with a first one, of a chain on the table whose payload has that shape and is not clean, or a plain assignment to a guarded column of the table |
| Aliases.ChainTargetsTable | scripts/field-worker-state-invariant/lib.ts:171-200 | the leftward cursor walk agrees with the recursive reading of a chain: a call of `update` or `insert` on the table, or a start at a name that holds a chain |
| Aliases.TableNames.Bind | scripts/field-worker-state-invariant/lib.ts:219-222 | one binding adds its name to the tables, else to the chains, else to neither |
| Aliases.TableNames.VisitOwn | scripts/field-worker-state-invariant/lib.ts:223-231 | the four kinds of binding node each add what their binding says |
| Aliases.TableNames.Visit | scripts/field-worker-state-invariant/lib.ts:223-233 | one recursive visit over the mutable name sets is one sweep of the tree's bindings in visiting order |
| Aliases.CollectTableNames | scripts/field-worker-state-invariant/lib.ts:216-237 | two visits give the names of two rounds over the file's bindings |
| Aliases.SweptIsRound | scripts/field-worker-state-invariant/lib.ts:223-235 | sweeping a tree is applying its bindings one after the other, whatever was known before |
| Aliases.NothingInvented | scripts/field-worker-state-invariant/lib.ts:216-237 | every name found after any number of rounds lies on an alias path of real bindings, with a bound on how often the path uses a name before its binding |
| Aliases.LfpClosed | scripts/field-worker-state-invariant/lib.ts:218-231 | the names reached by alias paths are closed under every binding rule |
| Aliases.LfpLeast | scripts/field-worker-state-invariant/lib.ts:218-231 | they are the least such set, so they are the least fixed point of the binding rules |
| Aliases.PathFound | scripts/field-worker-state-invariant/lib.ts:234-235 | a path with at most r uses before binding is found in round r + 1, by the time its last binding is visited |
| Aliases.RoundsExact | scripts/field-worker-state-invariant/lib.ts:216-237 | when no value is both table and chain, r rounds find exactly the names with a path of fewer than r uses before binding |
| Aliases.CollectedBelowLfp | scripts/field-worker-state-invariant/lib.ts:215-237 | on every file the two-pass collection never exceeds the least fixed point |
| Aliases.CollectedIsLfp | scripts/field-worker-state-invariant/lib.ts:215-237 | when no value is both table and chain, it equals the least fixed point exactly for the files where every reachable name has a path with at most one use before binding |
| Aliases.CollectedIsFixpoint | scripts/field-worker-state-invariant/lib.ts:215-237 | on every file, clashes included, it equals the least fixed point exactly when no binding rule would add a name to it |
| Aliases.ThreeReversedAliases | scripts/field-worker-state-invariant/lib.ts:234-235 | two rounds miss the outermost of three aliases each bound after its use |
| Aliases.ClashHidesChain | scripts/field-worker-state-invariant/lib.ts:219-222 | a name bound to both the table and a chain: its alias is never recorded as a chain, though it is one |
| Recorded.PlainIsCollected | scripts/field-worker-state-invariant/lib.ts:216-237 | every import or destructuring of the table, and every declaration or assignment of an expression that plainly is it, anywhere in the tree, has its name collected |
| Recorded.AliasIsCollected | scripts/field-worker-state-invariant/lib.ts:216-237 | so has every name bound to an alias of such a name, and every name bound to a chain that starts from the table under any of them, in any order |
| Recorded.CollectedFrom | scripts/field-worker-state-invariant/lib.ts:216-237 | nothing else is collected: each collected name is imported, destructured or bound by some node of the tree, to what the collected names make the table or a chain |
| Chains.TableClear | scripts/field-worker-state-invariant/lib.ts:78-83 | an expression the analysis calls clear of the table denotes the table in no environment the collected names cover |
| Chains.ChainClear | scripts/field-worker-state-invariant/lib.ts:169-200 | an expression it calls clear of chains denotes none there |
| Chains.TableReal | scripts/field-worker-state-invariant/lib.ts:78-83 | an expression that is not called clear of the table denotes it in some environment the collected names cover |
| Chains.ChainReal | scripts/field-worker-state-invariant/lib.ts:169-200 | an expression that is not called clear of chains denotes one in some such environment, when its keys are plain |
| Chains.RecognisedChain | scripts/field-worker-state-invariant/lib.ts:169-200 | what the leftward walk takes for a chain is never called clear |
| Chains.RunsCollected | scripts/field-worker-state-invariant/lib.ts:215-237 | in a transparent file no run, filling the places of the syntax in any order and any number of times, binds the table or a chain to a name that is not collected |
| Chains.TransparentIsFixpoint | scripts/field-worker-state-invariant/lib.ts:215-237 | in a transparent file the two rounds have reached the least fixed point of the scanner's own rules |
| Chains.PlainTransparent | scripts/field-worker-state-invariant/lib.ts:215-237 | a file that binds names in the recognised ways only is transparent exactly when the two rounds reach the least fixed point |
| Chains.AwaitedQueriesTransparent | scripts/field-worker-state-invariant/lib.ts:218-225 | names bound to awaited calls, each clear of chains or plainly one, leave a file transparent |
| Chains.AwaitedCallTransparent | scripts/field-worker-state-invariant/lib.ts:218-225 | a file that binds an awaited call is transparent |
| Chains.AwaitedInsertTransparent | scripts/field-worker-state-invariant/lib.ts:218-225 | a file that binds an awaited insert into the table, as the projector does, is transparent |
| Chains.TableDenotedIsSeen | scripts/field-worker-state-invariant/lib.ts:78-83 | in a transparent file, an expression that some run makes the table is not called clear of it |
| Chains.ChainDenotedIsSeen | scripts/field-worker-state-invariant/lib.ts:169-200 | in a transparent file, an expression that some run makes a chain on the table is not called clear of chains |
| Missed.BlindToChain | scripts/field-worker-state-invariant/lib.ts:192-195 | a chain under a `<T>` or `satisfies` wrapper is still the chain and is not recognised |
| Missed.BlindToTable | scripts/field-worker-state-invariant/lib.ts:57-58 | the table under `await` is still the table and is not recognised |
| Missed.DefaultMissed | scripts/field-worker-state-invariant/lib.ts:227-231 | `const { t = fieldWorkers } = opts`: a write through `t` is not reported |
| Missed.ComputedKeyMissed | scripts/field-worker-state-invariant/lib.ts:229-230 | `const { ['fieldWorkers']: fw } = schema`: a write through `fw` is not reported |
| Missed.AssignmentPatternMissed | scripts/field-worker-state-invariant/lib.ts:226 | `({ fieldWorkers: fw } = schema)`: a write through `fw` is not reported |
| Missed.ParameterDefaultMissed | scripts/field-worker-state-invariant/lib.ts:223-232 | `function f(t = fieldWorkers)`: a write through `t` is not reported |
| Missed.LogicalAssignmentMissed | scripts/field-worker-state-invariant/lib.ts:226 | `t ??= fieldWorkers`: a write through `t` is not reported |
| Missed.ChoiceMissed | scripts/field-worker-state-invariant/lib.ts:79-83 | `const t = fallback || fieldWorkers`: a write through `t` is not reported |
| Missed.ElementWriteMissed | scripts/field-worker-state-invariant/lib.ts:275-281 | `fieldWorkers['district'] = v` is reported in no file |
| Missed.PatternWriteMissed | scripts/field-worker-state-invariant/lib.ts:275-281 | `({ a: fieldWorkers.district } = row)` is reported in no file |
| Missed.ExtraArgumentMissed | scripts/field-worker-state-invariant/lib.ts:255-259 | `.set(payload, extra)` is reported in no file |
| Missed.WrappedMethodMissed | scripts/field-worker-state-invariant/lib.ts:251-253 | `(chain.set)(payload)` is reported in no file |
| Missed.ComputedMethodMissed | scripts/field-worker-state-invariant/lib.ts:251-253 | `chain[m](payload)` with `m` bound to `'set'` is not reported |
| Missed.UpsertIsGuarded | scripts/field-worker-state-invariant/lib.ts:261-266 | an upsert with a guarded `set` first is reported as guarded whatever member follows |
| Missed.OverriddenSetNeverWrites | scripts/field-worker-state-invariant/lib.ts:207-212 | `{ set: { district: v }, set: {} }`: reported as guarded and never writes |
| Missed.SpreadSetMayNotWrite | scripts/field-worker-state-invariant/lib.ts:207-212 | `{ set: { district: v }, ...rest }`: reported as guarded, may write, and does not under every valuation |
| Scanner.OnConflictSetLoop | scripts/field-worker-state-invariant/lib.ts:204-213 | the member loop returns the first member it takes for the `set`, or unreadable, or none |
| Scanner.UpsertExact | scripts/field-worker-state-invariant/lib.ts:202-213 | every upsert always, never or under some valuations only writes a guarded column, exactly as computed from its text: always when some member surely defines `set` and every member that can be the last to define it assigns a payload that always writes; never when each of those never writes |
| Scanner.UpsertSound | scripts/field-worker-state-invariant/lib.ts:261-266 | when the first `set` the scanner reads is the last one evaluation can define, its clean answer means never and its guarded answer always |
| Scanner.Visit | scripts/field-worker-state-invariant/lib.ts:250-286 | the recursive visit pushes exactly the findings of the tree below a node, after those pushed before |
| Scanner.Scan | scripts/field-worker-state-invariant/lib.ts:240-290 | a scan collects the names of the file and then visits it |
| Scanner.ScanExact | scripts/field-worker-state-invariant/lib.ts:239-290 | a file's findings are exactly its reported nodes, each with its detail and the name of its innermost enclosing function |
| Order.ScanOrdered | scripts/field-worker-state-invariant/lib.ts:250-290 | the findings of a file come in the order of the text, no position twice; with `ScanExact` this fixes the whole list |
| Scanner.WritesAreReported | scripts/field-worker-state-invariant/lib.ts:239-290 | in a transparent file, a node that under some run and some valuation writes a guarded column is reported exactly when it is sighted |
| Scanner.ReportedWrites | scripts/field-worker-state-invariant/lib.ts:255-283 | a reported node that may write does so whatever the valuation exactly when its payload's text says always; for a guarded report, exactly when it is no upsert, or one whose every possible `set` always writes |
| Alarms.NamedIsGiven | scripts/field-worker-state-invariant/lib.ts:223-231 | every name recorded as the imported or destructured table is given the table by a place of the parsed file, nested patterns, defaults and parameters included |
| Alarms.ChainDenoted | scripts/field-worker-state-invariant/lib.ts:171-200 | what the leftward walk takes for a chain, knowing one name, denotes a chain when that name is read so |
| Alarms.CollectedHeld | scripts/field-worker-state-invariant/lib.ts:215-237 | every name the two rounds collect stands for the table, or for a chain, in some run of the parsed file |
| Alarms.ReportIsRight | scripts/field-worker-state-invariant/lib.ts:239-290 | in a parsed file a reported node may write a guarded column of the table exactly when its payload's text does not rule it out, and in some run does so whatever the valuation exactly when that text says always |
| Scanner.ComputedSetMissed | scripts/field-worker-state-invariant/lib.ts:207-212 | an upsert whose `set` is the computed key `['set']` is taken for one without a `set` |
| Scanner.DuplicateSetMissed | scripts/field-worker-state-invariant/lib.ts:207-212 | of two `set` keys the scanner reads the first and evaluation takes the last |
| Marketplace.ChainTargetsTable | scripts/marketplace-module-state-invariant/lib.ts:97-121 | the older cursor walk agrees with the recursive reading of a chain |
| Marketplace.SetKept | scripts/marketplace-module-state-invariant/lib.ts:124-132 | a plain `set` with a guarded key is kept by the newer reading of the upsert except exactly when a clean quoted `set` comes first |
| Marketplace.Refines | scripts/marketplace-module-state-invariant/lib.ts:144-183 | every node the older scanner reports is reported by the newer one, whatever its names, except exactly the upserts whose plain `set` a clean quoted one precedes |
| Marketplace.RefinesFile | scripts/marketplace-module-state-invariant/lib.ts:134-190 | the same for every position of a file against the newer scanner's whole output |
| Marketplace.BareAgrees | scripts/marketplace-module-state-invariant/lib.ts:90-183 | on nodes spelled with property accesses and bare names and literals the older scanner reports exactly what the newer one, knowing no names, reports as guarded |
| Gate.Check | scripts/field-worker-state-invariant/check.ts:65-127 | the gate's answer from its files: too few, an allowlisted writer unseen, foreign findings, or passed, in that order of precedence |
| Gate.Gather | scripts/field-worker-state-invariant/check.ts:87-105 | the nested loops separate the findings of all files into those reported and the allowlisted writers seen |
| Gate.Separate | scripts/field-worker-state-invariant/check.ts:92-104 | an allowlisted finding counts as seen when readable and is reported when not; any other is reported |
| Gate.VerdictExact | scripts/field-worker-state-invariant/check.ts:65-127 | what each answer means: fewer than 50 files; or the keys of exactly those allowed functions that directly hold no readable write; or exactly those reports that are unreadable or stand outside the functions allowed for their file; or none of these |
| Gate.PassesExactly | scripts/field-worker-state-invariant/check.ts:75-124 | the gate passes exactly when there are at least 50 files, every report of every file is readable and stands directly in a function allowed for its file, and every allowed function directly holds one |
| Gate.PassIsSound | scripts/field-worker-state-invariant/check.ts:87-124 | when the gate passes, every sighted node of a transparent file that may write a guarded column lies directly in an allowlisted function of its file; it writes one under every valuation exactly when it is no upsert, or one whose every possible `set` always does |
| Gate.PassIsNotVacuous | scripts/field-worker-state-invariant/check.ts:107-117 | when the gate passes, directly inside every allowlisted function stands a node that in some run is a write of the table; it may write a guarded column exactly when it is no upsert or one whose `set` can, and does under every valuation exactly when it is no upsert or one whose every possible `set` does |
| Gate.SeenKeyInjective | scripts/field-worker-state-invariant/check.ts:100 | the joined key of a seen writer determines its file and function when function names hold no `#` |
| Gate.OwnConfiguration | scripts/field-worker-state-invariant/check.ts:36-41 | the gates' own tables, columns and allowlist meet the conditions of these results |
| KeyedLists.MergeByKey | _bmad/scripts/resolve_customization.py:115-138 | the two loops over the result list and the index of positions put every override item at the last position of its key, or append it; they raise exactly on an unhashable key; the index stays exact throughout |
| KeyedLists.DetectExact | _bmad/scripts/resolve_customization.py:98-112 | two lists are merged by `code` exactly when there are items and all are tables with a `code`, by `id` when not but all are tables with an `id`, and otherwise appended |
| KeyedLists.SameKeyExactly | _bmad/scripts/resolve_customization.py:115-138 | two values are one key exactly when they are equal, or equal as numbers with a Boolean counting as 0 or 1; lists and tables are no keys |
| KeyedLists.KeyedMerge | _bmad/scripts/resolve_customization.py:115-138 | a keyed merge of any lists with the field holds the base keys in base order, then the new override keys in order of first appearance; a base place ends with the last override item for its key when it is the last place of that key, else with its own item, and each new key with its last item |
| ListMerge.MergeLands | _bmad/scripts/resolve_customization.py:98-149 | every merged list takes its items from positions of the two lists that are computed from their keys alone |
| ListMerge.LandingByKeys | _bmad/scripts/resolve_customization.py:98-149 | lists with the same keys place by place are merged from the same positions, into lists with the same keys |
| ConfigMerge.DeepMerge | _bmad/scripts/resolve_customization.py:152-168 | the recursive merge computes the specified merge of two documents and raises exactly where a keyed list has an unhashable key |
| ConfigMerge.DeepMergeTables | _bmad/scripts/resolve_customization.py:158-165 | copying the base table and updating it key by key gives the base keys in order, then the new ones, with merged values |
| ConfigMerge.RaisesExact | _bmad/scripts/resolve_customization.py:115-168 | a merge raises exactly when at some path both documents have lists that are merged by a field which some item fills with a table or a list |
| Regroup.MergeAssociative | _bmad/scripts/resolve_customization.py:152-168 | merging three layers is associative, key order included, exactly when they regroup: a condition on the paths that all three define, stated on keys and places; where inner list merges go by different fields and items are repeated, equal items count as the same place |
| Regroup.AbsorbedExactly | _bmad/scripts/resolve_customization.py:152-168 | merging one document over another gives the latter exactly when, at every shared table, its keys start with the former's, and every shared list is absorbed |
| Regroup.ListAbsorbedExactly | _bmad/scripts/resolve_customization.py:98-149 | merging a list over another gives the former exactly when the keys of the former start with those of the latter, go on with new ones, and the items agree wherever a later place has the same key |
| Regroup.AgreeingLayersRegroup | _bmad/scripts/resolve_customization.py:98-168 | layers of the same kind wherever all three define a path, with lists that detect the same key field or all none, regroup; over an empty base, lists with ids also need the condition of `ListRegroup.EmptyBaseExactly`, which unique ids meet |
| ListRegroup.PutAllRegroups | _bmad/scripts/resolve_customization.py:126-136 | keyed override items applied in two steps or first merged among themselves give the same list, for any lists |
| ListRegroup.SameField | _bmad/scripts/resolve_customization.py:98-149 | three lists that detect one key field, repeated keys or not, merge to the same list in either grouping; for `id` over a non-empty base |
| ListRegroup.EmptyBaseExactly | _bmad/scripts/resolve_customization.py:98-149 | over an empty base, lists that detect `id` do so exactly when the merged list, if all its items have a code, keeps the same items by code as by id |
| ListRegroup.UniqueIdsRegroup | _bmad/scripts/resolve_customization.py:98-149 | over an empty base, lists that detect `id` regroup whenever the last one repeats no id |
| ListRegroup.OneFieldEach | _bmad/scripts/resolve_customization.py:98-149 | when no item carries both fields, three lists regroup exactly when both inner merges go the same way, or one has nothing to merge, or neither replaces an item |
| ListRegroup.ListsRegroupExactly | _bmad/scripts/resolve_customization.py:98-149 | any three lists merge to the same list in either grouping exactly when a condition on their keys and places holds, case by case on the fields that the two inner merges find; when these differ: no item replaced if both outer merges append, every place filled from the same position if both are keyed, and never if one is |
| ListRegroup.DistinctRegroup | _bmad/scripts/resolve_customization.py:98-149 | three lists without a repeated item regroup exactly when both groupings fill every place from the same position |
| ListRegroup.KeysDecide | _bmad/scripts/resolve_customization.py:98-149 | so for lists without a repeated item their keys alone decide: two such triples with the same keys both regroup or both do not |
| ListRegroup.UnkeyedOutside | _bmad/scripts/resolve_customization.py:98-149 | a list without a common field, mixed code and id items included, before or after two keyed lists: the groupings agree exactly when the keyed merge replaces nothing |
| ListRegroup.UnkeyedBetween | _bmad/scripts/resolve_customization.py:98-149 | such a list between two others makes both groupings append |
| ListRegroup.NotBothByCode | _bmad/scripts/resolve_customization.py:98-112 | when the inner merges go by id, the two outer merges never both turn to code |
| ListRegroup.ReplacedByItself | _bmad/scripts/resolve_customization.py:126-136 | with repeated items keys do not decide: two triples with the same keys, of which one regroups, although both its inner merges replace something, and the other does not |
| Regroup.ScalarBetweenTables | _bmad/scripts/resolve_customization.py:158-168 | a table, a scalar and a table do not regroup |
| ConfigMerge.MergeWellFormed | _bmad/scripts/resolve_customization.py:152-168 | merging keeps every table's keys distinct and in step with its values |
| ConfigMerge.MergeLayers | _bmad/scripts/resolve_config.py:156-163 | folding the layers with `deep_merge`, lowest priority first, computes the fold of the specified merge and raises exactly when one step does |
| ConfigMerge.ExtractMerge | _bmad/scripts/resolve_config.py:114-136 | the value at a path of a merge is the merge of the values at that path, unless the override has a non-table on the way |
| ConfigMerge.ExtractFold | _bmad/scripts/resolve_config.py:128-163 | over any number of layers, the value at a dotted path of the folded document is the fold of the values of the layers after the last one that blocks the path |
| ConfigMerge.UnblockedAllVisible | _bmad/scripts/resolve_config.py:128-163 | when no layer blocks the path, those are all the layers that have it |
| ConfigMerge.ExtractKey | _bmad/scripts/resolve_config.py:128-136 | the moving `current` variable ends at the value of the path, or reports it missing |
| Memlog.SplitText | _bmad/scripts/memlog.py:90-107 | the parsing loop gives the fields in source order and the body, or says which fence is missing |
| LogText.SplitExact | _bmad/scripts/memlog.py:90-107 | a text without the fence as its first line, or without a second one, is refused; otherwise the fields are the dict of the lines between the first two fences and the body is the rest without leading newlines |
| LogText.LinesBroken | _bmad/scripts/memlog.py:96 | up to its first break a text is one line, a carriage return taking a line feed along, and the lines of the rest follow |
| LogText.FieldLineRead | _bmad/scripts/memlog.py:103-106 | a field line is split at its first colon and both sides are stripped; a line without a colon is passed over |
| LogText.DictExact | _bmad/scripts/memlog.py:102-106 | a dict filled pair by pair holds for each key the value of its last pair, its keys in the order in which they first came up |
| LogText.PutPlace | _bmad/scripts/memlog.py:186 | setting a key replaces its value in place, or adds it at the end |
| LogText.StripExact | _bmad/scripts/memlog.py:106 | stripping gives the one string without outer spaces that the text is with spaces around it |
| LogText.WordsExact | _bmad/scripts/memlog.py:167 | `split()` gives exactly the maximal runs of non-space characters, in order |
| LogText.FieldText | _bmad/scripts/memlog.py:110-112 | a field is printed as key, colon, space, and the lines of its value joined by spaces |
| LogText.LogPrinted | _bmad/scripts/memlog.py:110-113 | a log is printed as a fence, its fields, a fence, an empty line, and the body with one final newline |
| Memlog.Frontmatter.Touch | _bmad/scripts/memlog.py:116-119 | afterwards the dict holds the other fields in their order and then the new stamp, last |
| LogText.TouchedExact | _bmad/scripts/memlog.py:116-119 | stamping puts `updated` last with the new stamp and leaves the other keys their order and values |
| Memlog.FieldsKept | _bmad/scripts/memlog.py:90-113 | printed fields come back under their own keys exactly when every key has no colon, no line break and no outer space |
| Memlog.RenderSplit | _bmad/scripts/memlog.py:90-113 | under that condition the printed log reads back as its fields with settled values, and its body |
| Memlog.ReadKeysGood | _bmad/scripts/memlog.py:100-106 | whatever text is read, the keys found are distinct and fit their lines |
| MemlogRuns.BodyRead | _bmad/scripts/memlog.py:107-113 | a body of one-line entries survives printing and reading unchanged |
| MemlogRuns.BodyAppended | _bmad/scripts/memlog.py:164-173 | appending puts the entry after all others and changes none of them |
| MemlogRuns.NextBodyExact | _bmad/scripts/memlog.py:173 | whatever the body, the entry goes on a line of its own after it; newlines at the end of the body are dropped, and a blank body altogether |
| MemlogRuns.CountOne | _bmad/scripts/memlog.py:132-133 | every line that starts with the list mark counts one, wherever it stands |
| MemlogRuns.EntryExact | _bmad/scripts/memlog.py:167-172 | an entry is exactly the list mark, the label in parentheses unless it is empty, and the words of the text with single spaces between them; the label is the kind, then ` by ` and the author when one is given, stripped |
| MemlogRuns.LabelPlain | _bmad/scripts/memlog.py:168-171 | a kind and an author without outer spaces stand in the label as they are, and an author alone as `by` and the author |
| MemlogRuns.EntryOneLine | _bmad/scripts/memlog.py:167-172 | an entry is one line starting with the list mark exactly when its tag has no line break, whatever the text |
| MemlogRuns.EntryKept | _bmad/scripts/memlog.py:164-177 | after an append the log lists the old entries and then the new one, one line each, exactly when the tag has no line break |
| MemlogRuns.Folder.WriteAtomic | _bmad/scripts/memlog.py:122-129 | the file and the temporary file after the write, for every point at which the program may die |
| MemlogRuns.Folder.CmdInit | _bmad/scripts/memlog.py:145-161 | `init` refuses an existing file, then a field without `=`, and otherwise writes the fields and the stamp |
| MemlogRuns.InitExact | _bmad/scripts/memlog.py:151-157 | `init` refuses exactly when a field has no `=`, and otherwise starts from the dict of the fields split at their first `=` and stripped |
| MemlogRuns.RepliesExact | _bmad/scripts/memlog.py:145-187 | which refusal each command gives and when, that a refusal changes nothing, and that otherwise it prints the count unless it dies |
| MemlogRuns.Folder.CmdAppend | _bmad/scripts/memlog.py:164-177 | `append` reads the file, stamps it and writes it back with the entry at the end |
| MemlogRuns.Folder.CmdSet | _bmad/scripts/memlog.py:180-187 | `set` replaces or adds one field, stamps the file and writes it back |
| MemlogRuns.StepHolds | _bmad/scripts/memlog.py:122-187 | one command with a crash anywhere: the file parses to the history before it or after it, and an acknowledgement carries the number of entries |
| MemlogRuns.AllOrNothing | _bmad/scripts/memlog.py:122-129 | a crash leaves the old file or the complete new one, and the temporary file it may leave changes no later outcome |
| MemlogRuns.CompletedEntries | _bmad/scripts/memlog.py:145-187 | the entries after any events are those before it followed by the entries of the appends that landed, in order |
| MemlogRuns.RunExact | _bmad/scripts/memlog.py:90-187 | after any run of the three commands with a crash at any step of any write, the file parses, `updated` is the last field, and its entries are exactly one for each append that landed on a started log, in order: its label and the words of its text |
| MemlogRuns.AcknowledgedCount | _bmad/scripts/memlog.py:136-142 | every acknowledgement prints the number of appends completed so far |
| Roster.ResolveRoster | apps/jobs/src/assignable-roster.ts:112-159 | one call returns the roster of its specification and gives back every connection it took on every exit, given one free connection, or two when an engine trip will be made |
| Roster.KeptExact | apps/jobs/src/assignable-roster.ts:138-158 | the loop keeps exactly the members whose verdict is assignable, in enumeration order |
| Roster.RosterExact | apps/jobs/src/assignable-roster.ts:92-109 | the roster is the ascending list of the members assignable at the freeze instant; it is withheld exactly when the freeze commit is missing or a verdict fails |
| Roster.RerunIdentical | apps/jobs/src/assignable-roster.ts:121-159 | a re-run over a membership that grew only by members not assignable at the instant gives the identical list |
| Roster.StepInv | apps/jobs/src/assignable-roster.ts:121-156 | every step of every call keeps the pool within its capacity and each call's gathered list equal to the roster of the members visited |
| Roster.OneConnectionPerStep | apps/jobs/src/assignable-roster.ts:121-156 | every step of a call takes one connection or gives one back; it starts and ends with none, and holds two exactly while its engine has one |
| Roster.RunsBounded | apps/jobs/src/assignable-roster.ts:139-158 | no run of concurrent calls is longer than a bound computed from its first state |
| Roster.NoDeadlock | apps/jobs/src/assignable-roster.ts:104-107 | with fewer calls that need a second connection than the pool has connections, no reachable state is stuck |
| Roster.DeadlockExactly | apps/jobs/src/assignable-roster.ts:104-120 | some run deadlocks exactly when at least as many calls need a second connection as the pool has connections |
| Roster.TwoCallsOnTwoConnections | apps/jobs/src/boot.ts:346-348 | on a pool of two, as the jobs application builds it, two such calls are enough to deadlock |
| Roster.TimeoutRelieves | packages/domain/src/db.ts:40-70 | in a deadlock some call is parked with its own connection in hand; failing its wait lets every other waiting call go on |
| Roster.EveryCallEnds | apps/jobs/src/assignable-roster.ts:111-160 | below that number, a run that cannot go on has ended every call with its own roster or failure and returned every connection |
| Roster.Pool.Connect | packages/domain/src/db.ts:170 | taking a connection needs a free one and leaves one fewer, within the pool's capacity |
| Roster.Pool.Release | packages/domain/src/db.ts:181 | giving one back needs one that was taken and leaves one more, within the pool's capacity |
| SqlTuple.ReadLiteral | scripts/benefit-mechanism/lib.ts:420-434 | the inner loop reads a quoted literal, undoubling quotes, and stops just past its closing quote |
| SqlTuple.ParseSqlValueTuple | scripts/benefit-mechanism/lib.ts:408-459 | the cursor loop agrees with the tuple grammar: its values, and the index just past the matching parenthesis; it fails exactly on a malformed tuple |
| SqlTuple.TrimExact | scripts/benefit-mechanism/lib.ts:437-447 | trimming gives the one string without outer spaces that the value is with spaces around it |
| SqlTuple.TupleRoundTrip | scripts/benefit-mechanism/lib.ts:402-459 | any non-empty list of literals, with spacing or casts around them, numbers, keywords and nested calls, written as a tuple and followed by any text, parses to the trimmed contents and exactly the text after it |
| SqlTuple.TupleValues | scripts/benefit-mechanism/lib.ts:402-459 | the values are exactly the contents of the cells without outer spaces |
| SqlTuple.LiteralsUnchanged | scripts/benefit-mechanism/lib.ts:402-459 | quoted values without outer spaces, spaced in any way, come back unchanged |
| SqlTuple.EmptyTuple | scripts/benefit-mechanism/lib.ts:446-449 | `()` has one empty value |
| SqlTuple.NextRow | scripts/benefit-mechanism/lib.ts:499-536 | one turn of the row loop yields the next record and strictly advances |
| SqlTuple.ExtractRows | scripts/benefit-mechanism/lib.ts:499-537 | the row loop yields the records of the row grammar |
| SqlTuple.RowsRoundTrip | scripts/benefit-mechanism/lib.ts:471-542 | a printed list of n rows yields n records in order, each read off its own values, and then the records of whatever follows |
| SqlTuple.PickIdFirst | scripts/benefit-mechanism/lib.ts:513-520 | a record's id is the first non-empty value among the id columns by priority |
| SqlTuple.RecordExact | scripts/benefit-mechanism/lib.ts:508-530 | a record has the first non-empty value under the five id columns by priority, or else the fallback; the value under the first tag column when the row is long enough; and the insert's own file and line |
| SqlTuple.AllValid | scripts/benefit-mechanism/lib.ts:201-262 | validation reports nothing exactly when every record carries a permitted tag |
| SqlTuple.FindingsExact | scripts/benefit-mechanism/lib.ts:201-262 | validation reports, in order and once each, exactly the records with no tag, with a tag that is no mechanism, or with a mechanism that is not yet permitted, and says which of these it is |
| SqlTuple.PrintedInsertAccepted | scripts/benefit-mechanism/lib.ts:201-262 | from text to answer: a printed insert that no further row follows is accepted exactly when every row reaches the tag column and its trimmed tag is permitted |
| GlobRegex.ChainIsTranslation | scripts/benefit-mechanism/check.ts:111-121 | the chain of replacements equals one token-by-token translation exactly for the globs in which no literal section sign stands right before another or before a `**`, so for every glob without one |
| GlobRegex.ParseTranslation | scripts/benefit-mechanism/check.ts:111-121 | the text of the translation reads back as the intended expression |
| GlobRegex.CompiledMatches | scripts/benefit-mechanism/check.ts:115-119 | the expression matches a path exactly when the direct matcher does: `*` within a segment, `?` one character, `**` with or without its slash nothing or anything on one line that ends in a slash |
| GlobRegex.TestsExact | scripts/benefit-mechanism/check.ts:111-132 | for those globs the written expression tests a path true exactly when the glob matches it |
| GlobRegex.SectionPairIsDeep | scripts/benefit-mechanism/check.ts:115-119 | two literal section signs are read as a `**`: the glob made of them matches the empty path |
| GlobWalk.Walk | scripts/benefit-mechanism/check.ts:123-135 | the recursive walk adds exactly the tested files below its directory whose names on the way are not skipped |
| GlobWalk.Sort | scripts/benefit-mechanism/check.ts:137 | the result is strictly ascending and holds exactly the set |
| GlobWalk.SortedUnique | scripts/benefit-mechanism/check.ts:137 | a sorted list is determined by its members, so the listing order of directories does not show |
| GlobWalk.ResolveGlobs | scripts/benefit-mechanism/check.ts:102-138 | the run stops exactly when some glob's base is a file; otherwise it returns the files found for any of the globs, sorted, each once |
| GlobWalk.BeforeFirstWildcard | scripts/benefit-mechanism/check.ts:105-106 | every path a glob matches starts with the glob's static prefix |
| GlobWalk.BaseOfMatch | scripts/benefit-mechanism/check.ts:105-108 | the base directory of a glob is the first directories of every path it matches |
| GlobWalk.BaseExact | scripts/benefit-mechanism/check.ts:104-106 | the base is exactly the directories before the last slash of the part of the glob before its first wildcard |
| GlobWalk.LookupFile | scripts/benefit-mechanism/check.ts:107-125 | looking names up leads to a file exactly when the tree has a file there |
| GlobWalk.ResolveExact | scripts/benefit-mechanism/check.ts:101-138 | walking only from the static prefix loses nothing: the result is every matching file of the tree with no `node_modules` and no name that starts with a dot below the glob's base, and nothing else |
| StripComments.StripCommentsLoop | scripts/survey-advisory-invariant/lib.ts:81-116 | the nested loops compute the specified stripping, line by line, and end on every text |
| StripComments.StripLineClean | scripts/survey-advisory-invariant/lib.ts:85-113 | an output line is its input line with characters left out and no comment opener in it; a line without openers outside a block is unchanged |
| StripComments.StripLineCut | scripts/survey-advisory-invariant/lib.ts:86-112 | what is left of a line once its blocks are gone is cut right at its first `//` or `--`; a line without a block opener, outside a block, is only cut |
| StripComments.StripClean | scripts/survey-advisory-invariant/lib.ts:71-116 | the number of lines is kept, and each output line is a subsequence of its own with no comment opener left |
| StripComments.StripIdempotent | scripts/survey-advisory-invariant/lib.ts:81-116 | stripping a stripped text changes nothing |
| StripComments.StripConcat | scripts/survey-advisory-invariant/lib.ts:81-116 | stripping a text of two parts is stripping the first and then the second from the block state the first left |
| StripComments.StripBlocksOnePass | scripts/survey-advisory-invariant/lib.ts:87-107 | for every line and either block state, repeated deletion equals one left-to-right pass exactly when no closed block stands between a kept `/` and a kept `*` |
| StripComments.GluedExact | scripts/survey-advisory-invariant/lib.ts:97-107 | what one pass keeps holds a block opener exactly when such a block was there |
| StripComments.GlueOpensBlock | scripts/survey-advisory-invariant/lib.ts:97-107 | with such a slash a deletion can open a block that one pass does not see |
| StripComments.StripIsTextPass | scripts/survey-advisory-invariant/lib.ts:81-116 | on a text where no closed block stands between a kept `/` and a kept `*`, the stripped lines are those of one pass over the whole text, block state carried across lines, each cut at its first line comment |
| SqlMask.MaskIsMachine | scripts/schema-diff/lib.ts:245-247 | from any position outside literals, the masking replacement equals the quote machine exactly when nothing but spaces follows a quote left open |
| SqlMask.MaskExact | scripts/schema-diff/lib.ts:243-247 | masking keeps every line's length; it blanks exactly the characters inside literals, keeping every other in place, exactly when nothing but spaces follows a quote left open, so on every line with an even number of quotes |
| SqlMask.MaskOdd | scripts/schema-diff/lib.ts:245-247 | on a line whose quote is left open: the quote machine up to that quote, then blanks up to the last two quotes of the line, and the rest unchanged |
| SqlMask.UnclosedIsOdd | scripts/schema-diff/lib.ts:243-247 | a literal is left open exactly when the number of quotes is odd |
| SqlMask.UnclosedLiteral | scripts/schema-diff/lib.ts:246 | an open literal for which the two differ |
| SqlMask.ScannableExact | scripts/schema-diff/lib.ts:249-285 | for those lines, the text left to scan ends at the first `--` outside a literal, keeps all code at its index, and blanks literal contents unless the code part is dynamic DDL |

## Left out

- ListRegroup.ListsRegroupExactly: when the inner merges go by different fields and items are repeated, equal items from different positions count as the same; `ReplacedByItself` shows that keys alone do not decide there.
- Gate.PassIsSound: speaks of transparent files and sighted nodes; `Missed`, `ThreeReversedAliases`, `ClashHidesChain`, `ComputedSetMissed` and `DuplicateSetMissed` show what lies outside.
- Gate.PassIsNotVacuous: speaks of trees as the parser builds them (`Alarms.Parsed`): binding elements stand in patterns, and patterns where a declaration or parameter binds.
- MemlogRuns.RunExact: takes one command at a time; two processes writing the same log at once are not modelled.
- GlobWalk.ResolveExact: a glob whose static prefix climbs above the repository root with `..` finds nothing in the model, and links in a static prefix are not followed.
- SqlMask.ScannableExact: says nothing of lines with more than spaces after a quote left open, where the masking itself goes wrong.
- Runs: values passed as arguments, returned by functions, stored in properties or collections, or taken from a loop's iterable are not followed, and neither are methods reached through `call`, `apply` or `bind`, increments and `delete`; a key counts as written whatever its value, `undefined` included; each scope's names are taken together, as the scanner does.
- Parsers: syntax trees, TOML documents, directory trees and file lists are inputs; the INSERT header expression and the search for `VALUES` are not modelled, and the row loop starts from known columns and a position.
- Line numbers and message texts of findings: a finding's position is its path in the tree.
- `scanAdvisoryInvariant`: a substring search over the stripped lines would only add easy members.
- The dynamic-DDL keyword expression and the validity engine are parameters; the clock's stamp is a parameter without line breaks or outer spaces.
- Roster.EveryCallEnds: its runs give up no wait and lose no connection; a timeout of the pool enters only in `TimeoutRelieves`, and the transactions inside a scope are not modelled.
- TOML's not-a-number as a list key.
- Text-mode newline translation when the memory log is read; the commands write no carriage return when keys and tags have no line break.
- UTF-16 code units: characters are whole, and sorting compares them by code point.
- Directory creation, argument parsing, JSON output and exit codes.
- The sibling gates for alerts, pools, helpdesk, claims and members, which repeat the older scanner.
