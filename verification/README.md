# Verified model of the Cambrian transpiler and runtime core

Cambrian is a contract language; its transpiler orders declarations, deployments
and assignments by graph algorithms, computes Solidity storage slots, and emits
word updates against them, and its runtime library (`cambrian-core`) does 256-bit
arithmetic and serialization. This project models these parts in Dafny and proves
what they compute.

| files | what they model |
|---|---|
| `Wrappers`, `Sequences`, `StringOrder`, `Graphs`, `Ast` | shared vocabulary: options, lists without repeats, the order of names, reachability, syntax trees |
| `TarjanState`, `Discovery`, `Tarjan`, `TarjanResult` | `tarjan_sccs`, the order in which it finds things, its two passes for routes and entities, and the cycle checks of the validator |
| `DfsTopo`, `DeclOrder` | `dfs_topo` and its clients `order_type_items` and `order_pure_fns` |
| `ExprTree`, `Kahn`, `TemporalRefs`, `Temporal`, `DeployOrder` | the expression tree, the collector of `^member` references, the order it leads to, and the deployment order of instances |
| `FailClosure` | the routes that can fail, a least fixpoint over same-entity calls |
| `ImportTrace`, `ImportWalk` | the worklist over entry files and imports |
| `Words`, `U256`, `U256Div`, `MulDiv`, `Power`, `Literals` | limb arithmetic, long division, 512-bit `muldiv`, `pow`, literal parsers and printers |
| `Utf8`, `Utf8Chars`, `Codec`, `CodecBytes`, `CodecIO`, `CodecLimits` | the big-endian serializer and deserializer, down to the bytes, and the text in it |
| `StorageLayout`, `LayoutFacts`, `LayoutWidths` | the slot layout, refined by a byte cursor, and the width of each type |
| `ExistsUse`, `Displacement`, `DeclaredLayout` | the walkers that look for uses of existence flags, the variables that the emitter declares, and how they displace those of the table |
| `WordUpdate`, `StateSeed`, `DeployedSeed`, `SeedExamples` | the masked word updates that seed packed storage, and what they do to the deployed contract |

Conventions. Rust's `u128` is a bounded natural number and a `U256` is two of
them; a panic of the original is the result `None`, so "panics exactly when" is
part of a contract. A hash map or set that the original iterates over is iterated
with an arbitrary choice, so a contract holds for every iteration order. Loops and
recursive traversals that update tables are methods, over the fields of a class
where the original shares mutable state (`tarjan_sccs`, `dfs_topo`) and over
arrays in `instance_deploy_order_report`; they are proved against predicates and
functions about which the lemmas speak. `usize::MAX` is the constant
`2^64 - 1`.

## Where the code and its comments differ

* `reverse_condensation` turns Tarjan's callees-first order into callers-first,
  the opposite of what the comments at `cambrian-transpiler/src/graph.rs:53` and
  `cambrian-transpiler/src/analysis/graphs.rs:37` say. The model follows the
  code: `EntitySccs` proves callers-first, `DependeesFirstIff` says exactly when
  such an order is also dependees-first (when every edge lies on a cycle), and
  `EntityOrderIsNotDependeesFirst` gives a two-entity program for which it is
  not.
* The comment at `cambrian-transpiler/src/codegen/evm_test_codegen.rs:2626` says
  that the low mask of a packed field always fits `u128`. The code clips the mask
  to 128 bits, so a packed field of 17 to 31 bytes keeps its old upper bits.
  `ReadBackIff` states, in terms of the storage before seeding, exactly when the
  pinned value is read back, and `PackedAddressLoses` gives a `bool` next to an
  `address` for which a pin is lost.
* The module comment of `cambrian-transpiler/src/codegen/storage_layout.rs:18`
  says that the table mirrors what the emitter declares. The emitter also
  declares existence flags that the table does not count, `_inner_exists`,
  `_keys` and `_keys_index` variables for some mappings, and gives identity
  members of string or array type real storage
  (`cambrian-transpiler/src/codegen/solidity/evm/entity.rs:251-338`).
  `TableIsDeclaredIff` states for which entities the table is right. The table
  counts the existence flag of a mapping only for an `exists` in a transform, under
  few kinds of nodes; the emitter also for `contains`, for route bodies,
  conditions, defaults and macros, inside blocks and matches, and for pure
  functions that are passed the mapping. `MissedIff` states which uses the table
  misses, and `TableFromBodiesIff` which entities it therefore describes.
* The comment at `cambrian-transpiler/src/codegen/solidity/evm/analysis.rs:888-893`
  says that this can at worst leave the slot of the flag unallocated. It moves
  every later variable on by whole words (`MemberPlace`), and `gen_state_init`,
  which takes its slots from the table, then writes to the wrong ones.
  `BallotMisplaced` gives a mapping that only a route condition asks, followed by
  two numbers: a pin of the second reads zero and overwrites the first. The shape
  is that of `contracts/multisig.cam`, which asks `m_custodians.exists` only in
  conditions. `PinReadsIff` proves that a pinned variable is read back, as far as
  the mask reaches, in every storage exactly when no member before its own has a
  variable that the table does not know, and `VariablesKept` that while this holds
  of all pinned members every other declared variable is unchanged.
* `gen_state_init` also lays the entity out without the `_initialized` flag
  (`cambrian-transpiler/src/codegen/evm_test_codegen.rs:2560-2568`), while the
  deployed contract declares the flag after the members
  (`cambrian-transpiler/src/codegen/solidity/evm/entity.rs:340-343`) in the
  deterministic mode, the only one the EVM target has
  (`cambrian-transpiler/src/main.rs:485`,
  `cambrian-transpiler/src/validate/mod.rs:253-261`). A pinned member that is
  alone in its word without the flag is stored over the whole word and wipes a
  flag that Solidity packs beside it: `CounterLosesFlag` gives a `u64` for which
  this happens. `FlagKeptIff` proves that the flag survives in every storage
  exactly when no pin is of that kind, and that none is if any member has a
  variable that the table does not know; `FlagAfterWipe` and `FlagCleared` say
  what the flag is otherwise.
* The error of the temporal sort is called a cycle, but it lists every member
  that depends on a cycle, and nothing else (`RouteOrder`).
* The collector of `^member` references does not look into `address_of` and
  `encode`, which the syntax tree calls test-only, nor into the bodies of macros.
  `RefsExact` states what it finds, `HiddenReference` gives two transforms that
  are ordered against a reference inside `encode`, and `EveryReferenceSeen`
  proves that without these two forms nothing is missed.
* Lengths are cast to 32 bits without a check, so that a text or list of 2^32
  elements or more decodes to its first `len % 2^32` (`TextDecodes`,
  `ListDecodes`); `RoundTripIff` states exactly which values come back, if the
  text in map keys is not too long itself.
* With a diagnostics budget of zero the import walk drops malformed files
  without an error (`LoadWithImports`); the command line only passes positive
  budgets.

## Model

| member | source | states |
|---|---|---|
| Tarjan.Search.StrongConnect | cambrian-transpiler/src/graph.rs:80-126 | one call of the recursive traversal keeps the whole invariant (tables agree, the stack is a chain, every stack node leads back to an open node, emitted components are classes with callees first, and in the order in which their nodes were met unless a later one reaches an earlier one), meets exactly the nodes that a depth-first search meets here, and either leaves its node open above the old stack or restores the stack; the recursion terminates and no lookup or pop fails |
| Tarjan.Search.VisitCallees | cambrian-transpiler/src/graph.rs:96-112 | after the loop every callee that is a key has been visited, in the order of the callees, and the lowlink of the node bounds, and is witnessed by, a stack node it reaches |
| Tarjan.Search.VisitCallee | cambrian-transpiler/src/graph.rs:97-111 | one callee: skipped if it is no key, descended into, or accounted for by its index if it is on the stack; the loop invariant extends to it |
| Tarjan.Search.PopComponent | cambrian-transpiler/src/graph.rs:114-125 | pops exactly the stack from the component's root upwards and emits it |
| TarjanState.EmitStep | cambrian-transpiler/src/graph.rs:114-125 | when lowlink equals index, the popped segment is one whole mutual-reachability class and the invariant holds again |
| TarjanState.KeepStep | cambrian-transpiler/src/graph.rs:114-125 | when lowlink is smaller, the node stays on the stack with a way back below it and the invariant holds |
| TarjanResult.Components | cambrian-transpiler/src/graph.rs:128-141 | the components are exactly the mutual-reachability classes of what the names reach, without repeats, callees first; what the first names reach, and of what a node reaches what its first callees reach, comes before everything else; inside a component the nodes met last come first |
| TarjanResult.TarjanSccs | cambrian-transpiler/src/graph.rs:68-159 | the same for the returned list under both options: the flags only reverse the order found and stably sort inside a component, so reversed means callers first and the first names last |
| TarjanResult.StableSortSorts | cambrian-transpiler/src/graph.rs:149-151 | the sort orders by key, keeps every node as often as before, and keeps the order of equal keys |
| TarjanResult.DecompositionUnique | cambrian-transpiler/src/graph.rs:62-72 | the classes do not depend on the traversal: any two results have the same components as sets |
| Discovery.OrderExact | cambrian-transpiler/src/graph.rs:128-141 | the search from the names meets exactly what they reach |
| Discovery.NamesInOrder | cambrian-transpiler/src/graph.rs:65-141 | for every k, the components reached from the first k names are completed before all others |
| Discovery.TargetsInOrder | cambrian-transpiler/src/graph.rs:96-112 | for every node and every k, of what it reaches and is met after it, what its first k callees reach is completed first |
| TarjanResult.FoundUnique | cambrian-transpiler/src/graph.rs:68-141 | names and callee lists determine the list of components completely: which, in which order, and the order of the nodes in each |
| TarjanResult.AnswerUnique | cambrian-transpiler/src/graph.rs:68-159 | so there is one answer for every combination of the options |
| TarjanResult.RouteSccs | cambrian-transpiler/src/analysis/graphs.rs:115-132 | route components partition the routes of the entity, callees first, declaration order inside, and otherwise in the order in which the routes and their callees lead to them |
| TarjanResult.EntitySccs | cambrian-transpiler/src/analysis/graphs.rs:134-158 | entity components partition the entities with routes, senders before receivers, and otherwise in the reverse of the order in which the entities and their sends lead to them |
| TarjanResult.WithRoutesConcat | cambrian-transpiler/src/analysis/graphs.rs:134-158 | the names of the entities with routes, in the order of declaration |
| TarjanResult.RetainConcat | cambrian-transpiler/src/analysis/graphs.rs:134-158 | the sends that are kept, in their order |
| TarjanResult.WithRoutesOne | cambrian-transpiler/src/analysis/graphs.rs:134-158 | one entity is taken if it has routes, one send is kept if it leads to another entity with routes |
| TarjanResult.DependeesFirstIff | cambrian-transpiler/src/graph.rs:53-56 | a callers-first list of classes is dependees-first, as the comment promises, exactly when every edge leads back |
| TarjanResult.EntityOrderIsNotDependeesFirst | cambrian-transpiler/src/analysis/graphs.rs:37-38 | for an entity A that sends to B, no result of the entity pass lists B first |
| TarjanResult.CyclicComponents | cambrian-transpiler/src/validate/entity.rs:5650-5675 | the alias and record checks flag whole components, each once, that contain exactly the names on a cycle; none is flagged exactly when the graph is acyclic |
| DfsTopo.Search.Visit | cambrian-transpiler/src/graph.rs:23-42 | visiting keeps the invariant that a listed node's dependencies are listed before it or reach it, lists only finished nodes, once each, only extends the list, and lists exactly what a depth-first search lists here |
| DfsTopo.Search.VisitDeps | cambrian-transpiler/src/graph.rs:36-40 | afterwards every in-range dependency has been visited, in the given order |
| DfsTopo.Order | cambrian-transpiler/src/graph.rs:19-48 | a permutation of the indices in which a dependency comes later only if it reaches the node that needs it; declarations already in order keep their order; the whole sequence is that of the depth-first search |
| DfsTopo.LeavesInOrder | cambrian-transpiler/src/graph.rs:36-40 | dependencies that need nothing themselves are listed in the order in which they are given |
| DfsTopo.TargetsFirstIffAcyclic | cambrian-transpiler/src/graph.rs:12-18 | all dependencies come first exactly when the graph is acyclic |
| DeclOrder.CollectTypeNames | cambrian-transpiler/src/analysis/types.rs:60-77 | collects exactly the names that occur in the type at any depth |
| DeclOrder.Deps | cambrian-transpiler/src/analysis/types.rs:29-56 | exactly the other declared names that the item mentions, sorted, once each |
| DeclOrder.SortedUnique | cambrian-transpiler/src/analysis/types.rs:48-55 | the sorted dependency list does not depend on the iteration order of the hash set |
| DeclOrder.OrderTypeItems | cambrian-transpiler/src/analysis/types.rs:82-111 | no declaration is lost, repeated or taken twice; every referenced sibling comes first exactly when the reference graph is acyclic, otherwise only references on a cycle point forward; an already ordered list is unchanged |
| DeclOrder.TypeOrderUnique | cambrian-transpiler/src/analysis/types.rs:82-111 | there is only one such order |
| DeclOrder.TakeEach | cambrian-transpiler/src/analysis/types.rs:105-110 | taking every item out once along a permutation never meets an item that is gone |
| DeclOrder.PickedPermutes | cambrian-transpiler/src/analysis/types.rs:105-110 | picking along a permutation of the indices yields the same declarations, each as often |
| DeclOrder.Collect | cambrian-transpiler/src/analysis/pure_order.rs:20-27 | appends, once each and in the order of the first calls, exactly the called functions of the universe other than the caller |
| DeclOrder.PureFnCallees | cambrian-transpiler/src/analysis/pure_order.rs:29-34 | exactly the other top-level functions called anywhere in the body, without repeats |
| DeclOrder.OrderPureFns | cambrian-transpiler/src/analysis/pure_order.rs:41-59 | a permutation of the functions, callees first exactly when the call graph is acyclic, and only calls on a cycle point forward otherwise; the sequence is that of the depth-first search over the calls in their order |
| Kahn.StuckRun | cambrian-transpiler/src/analysis/temporal.rs:245-269 | any run of the algorithm that cannot continue has placed exactly the nodes that do not need a cycle, and all of them exactly when the graph is acyclic |
| Temporal.CollectDeps | cambrian-transpiler/src/analysis/temporal.rs:45-71 | collects each member of the route once with all the references to known members that the collector finds in the bodies of its transforms, accumulated over the transforms |
| Temporal.BuildGraph | cambrian-transpiler/src/analysis/temporal.rs:218-234 | for every iteration order of the map, in-degrees count the in-route dependencies and adjacency lists repeat a dependent as often as it refers |
| Temporal.Relax | cambrian-transpiler/src/analysis/temporal.rs:248-256 | taking a node lowers exactly its dependents, keeps the queue sorted and equal to the ready nodes, and never lets a counter underflow |
| Temporal.TopologicalSort | cambrian-transpiler/src/analysis/temporal.rs:214-270 | Ok exactly when the in-route graph is acyclic, then the greedy dependencies-first order of all members; Err lists exactly the members that need a cycle |
| Temporal.GreedyUnique | cambrian-transpiler/src/analysis/temporal.rs:236-257 | the order that always takes the greatest ready name is unique |
| Temporal.AnswerUnique | cambrian-transpiler/src/analysis/temporal.rs:214-270 | the answer is the same for every iteration order of the map |
| StringOrder.LessExact | cambrian-transpiler/src/analysis/temporal.rs:236-257 | the order of names is the lexicographic one |
| ExprTree.ChildrenExact | cambrian-transpiler/src/ast.rs:752-838 | the children of an expression are exactly what stands in one of its fields |
| TemporalRefs.MentionedIff | cambrian-transpiler/src/analysis/temporal.rs:102-212 | a name occurs at some position exactly if it stands in the expression, form by form; the same outside `address_of` and `encode` |
| TemporalRefs.Collect | cambrian-transpiler/src/analysis/temporal.rs:102-212 | the recursive walk over all expression forms appends every openly occurring reference, once for each occurrence, from left to right |
| TemporalRefs.RefsExact | cambrian-transpiler/src/analysis/temporal.rs:96-212 | a name is found exactly when it stands, form by form, outside every `address_of` and `encode` |
| TemporalRefs.TransparentExact | cambrian-transpiler/src/analysis/temporal.rs:96-212 | in an expression without these two forms exactly the occurring names are found |
| Temporal.RouteOrder | cambrian-transpiler/src/analysis/temporal.rs:45-91 | from the transform bodies of a route to the emitted order: it covers the route's members, puts every openly referenced member first, and is rejected exactly on a cycle of such references, with all members that depend on one |
| Temporal.EveryReferenceSeen | cambrian-transpiler/src/analysis/temporal.rs:45-91 | without `address_of` and `encode` the edges of that order are all references of the bodies |
| Temporal.HiddenReference | cambrian-transpiler/src/analysis/temporal.rs:209-210 | a member whose body encodes the new value of another is ordered before it |
| DeployOrder.NeedListElements | cambrian-transpiler/src/codegen/evm_test_codegen.rs:660-719 | the edges added for an instance are exactly its references to other instances: a pin that is the name of an instance and of no earlier one, or a parameter of the first init route that is an address of the instance's entity, which no earlier instance has |
| DeployOrder.AddEdgesOf | cambrian-transpiler/src/codegen/evm_test_codegen.rs:660-719 | the in-degree and adjacency arrays account for the references of one more instance |
| DeployOrder.Place | cambrian-transpiler/src/codegen/evm_test_codegen.rs:660-719 | draining the worklist places all instances exactly when the reference graph is acyclic, each after what it refers to |
| DeployOrder.DeployOrderReport | cambrian-transpiler/src/codegen/evm_test_codegen.rs:660-719 | the order is a permutation; `topological` holds exactly for an acyclic reference graph, then siblings are deployed before they are referenced, always the instance that became ready last, of several the one declared last; else it is declaration order |
| DeployOrder.StackSample | cambrian-transpiler/src/codegen/evm_test_codegen.rs:700-710 | of three instances of which the last refers to the second the order is the second, the third, the first |
| DeployOrder.SortDedupSorted | cambrian-transpiler/src/codegen/evm_test_codegen.rs:740-820 | sorting and deduplicating gives a strictly ascending list |
| DeployOrder.InventoryRow | cambrian-transpiler/src/codegen/evm_test_codegen.rs:740-820 | the row reports the deployment order and its kind; the listed pairs are, sorted and without repeats, exactly the references to a sibling whose name has its last place further behind, repeated names included |
| DeployOrder.RowExact | cambrian-transpiler/src/codegen/evm_test_codegen.rs:740-820 | with distinct names, which the validator demands, these are exactly the references to siblings deployed later, and there are none exactly when the order is topological |
| DeployOrder.NoForwardIffTopological | cambrian-transpiler/src/codegen/evm_test_codegen.rs:740-820 | no forward reference exactly when the order is topological |
| FailClosure.Sweep | cambrian-transpiler/src/analysis/route_facts.rs:100-136 | in any order, a sweep stays inside the closure and marks something new or proves that nothing is left to mark |
| FailClosure.FailClosure | cambrian-transpiler/src/analysis/route_facts.rs:100-136 | a route is marked exactly when a chain of same-entity calls leads to one that fails by itself, or, with the policy off, when it does itself |
| FailClosure.LeastFixpoint | cambrian-transpiler/src/analysis/route_facts.rs:100-136 | the closure is contained in every set closed under the propagation rule |
| FailClosure.CanFailIsFixpoint | cambrian-transpiler/src/analysis/route_facts.rs:100-136 | the closure is itself closed under the propagation rule |
| FailClosure.SettledIsExact | cambrian-transpiler/src/analysis/route_facts.rs:100-136 | a table between local surfaces and closure on which a sweep changes nothing is the closure |
| ImportWalk.QueueImports | cambrian-transpiler/src/project.rs:824-833 | queues one imported job per import, the i-th for the i-th import, or stops exactly when some import does not resolve |
| ImportWalk.Visit | cambrian-transpiler/src/project.rs:804-847 | a file seen for the first time fails exactly when it is unreadable or has an unresolved import; otherwise the jobs processed so far are again a beginning of the walk and the queue, the list and the diagnostics are what they must be after them |
| ImportWalk.LoadWithImports | cambrian-transpiler/src/project.rs:783-856 | over any finite, possibly cyclic file system the walk ends; a failure names a needed file that is unreadable or has an unresolved import; a list has each file once, only needed ones that parse, tagged as entries exactly when an entry path names them, in breadth-first order; when all paths to a file agree about its contents, it fails, reports or lists exactly by what is needed |
| ImportTrace.WalkUnique | cambrian-transpiler/src/project.rs:794-849 | the walk is determined by the file system: every beginning of a walk is a beginning of the complete one |
| ImportWalk.AnswerUnique | cambrian-transpiler/src/project.rs:783-856 | there is only one answer |
| ImportTrace.ListedOnce | cambrian-transpiler/src/project.rs:801-804 | no file is listed twice under whatever paths it is queued |
| ImportTrace.ListedKind | cambrian-transpiler/src/project.rs:780-799 | a listed file is tagged as an entry exactly when an entry path names it, also if it is imported |
| ImportTrace.CompleteOrder | cambrian-transpiler/src/project.rs:794-849 | the processed jobs are the initial ones and then the imports of the listed files in the order of the list: the walk is breadth-first |
| ImportTrace.QueuedHandled | cambrian-transpiler/src/project.rs:801-847 | every queued file is listed or was found malformed |
| ImportWalk.LoadedList | cambrian-transpiler/src/project.rs:794-849 | such a list follows from the processed jobs alone, on any file system |
| ImportWalk.FailureIsNeeded | cambrian-transpiler/src/project.rs:806-833 | a failure names a reachable file that is unreadable or has an unresolved import, and says which of the two |
| ImportWalk.AnswerExact | cambrian-transpiler/src/project.rs:783-856 | when all paths to a file agree about its contents, the walk fails exactly if some needed file is unreadable or has an unresolved import, reports diagnostics exactly if some needed file is malformed and there is a budget, and otherwise lists every needed file that parses |
| U256Words.Add | cambrian-core/src/lib.rs:238-246 | panics exactly when the sum is 2^256 or more, else is the sum |
| U256Words.Sub | cambrian-core/src/lib.rs:248-256 | panics exactly when the difference is negative, else is the difference |
| U256Words.WrappingAdd | cambrian-core/src/lib.rs:182-186 | the sum modulo 2^256 |
| U256Words.WrappingSub | cambrian-core/src/lib.rs:188-192 | the difference modulo 2^256 |
| U256Words.WideningMul | cambrian-core/src/lib.rs:536-550 | the exact 256-bit product of two limbs; no 128-bit step overflows |
| U256Words.Mul | cambrian-core/src/lib.rs:258-269 | panics exactly when the product is 2^256 or more, else is the product |
| U256Words.WrappingMulExact | cambrian-core/src/lib.rs:198-204 | the product modulo 2^256 |
| U256Words.ShlExact | cambrian-core/src/lib.rs:305-313 | for every shift, multiplication by a power of two modulo 2^256 |
| U256Words.ShrExact | cambrian-core/src/lib.rs:315-323 | for every shift, the quotient by a power of two |
| U256Div.LeadingZerosBounds | cambrian-core/src/lib.rs:178-180 | the count brackets the value between neighbouring powers of two |
| U256Div.StartShift | cambrian-core/src/lib.rs:285-303 | the starting shift loses no bit of the divisor and puts it above half the dividend |
| U256Div.DecideBit | cambrian-core/src/lib.rs:285-303 | one round keeps the division invariant; neither its subtraction nor its addition can fail |
| U256Div.DivRem | cambrian-core/src/lib.rs:285-303 | fails exactly for a zero divisor, else returns quotient and remainder below the divisor |
| MulDiv.Mul512 | cambrian-core/src/lib.rs:877-894 | the exact 512-bit product; the top limb does not overflow |
| MulDiv.Sub512 | cambrian-core/src/lib.rs:939-948 | fails exactly when the difference is negative, else is the difference |
| MulDiv.Gte512 | cambrian-core/src/lib.rs:935-937 | the order of 512-bit values |
| MulDiv.Shl512Exact | cambrian-core/src/lib.rs:923-933 | for every shift that fits in 512 bits, multiplication by a power of two |
| MulDiv.StartShift512 | cambrian-core/src/lib.rs:896-921 | the starting shift fits in 512 bits and puts the divisor above half the dividend |
| MulDiv.DecideBit512 | cambrian-core/src/lib.rs:896-921 | one round keeps the division invariant, or the quotient really has 257 bits or more |
| MulDiv.Div512 | cambrian-core/src/lib.rs:896-921 | fails exactly when the divisor is zero or the quotient is 2^256 or more, else is the floor of the quotient |
| MulDiv.U256MulDiv | cambrian-core/src/lib.rs:859-873 | for non-zero factors, the floor of x*y/z, failing exactly when z is zero or it is 2^256 or more; a zero factor gives zero whatever z is |
| MulDiv.U256MulDivMod | cambrian-core/src/lib.rs:859-873 | the same quotient with the true remainder |
| MulDiv.U128WideMulDiv | cambrian-core/src/lib.rs:950-954 | the floor of x*y/z over the 256-bit product, failing exactly when it is no `u128` |
| MulDiv.U128MulDiv | cambrian-core/src/lib.rs:798-810 | the `u128` form, zero factors included |
| MulDiv.U128MulDivMod | cambrian-core/src/lib.rs:798-810 | quotient and remainder of the `u128` form |
| MulDiv.I128MulDivMod | cambrian-core/src/lib.rs:823-837 | the signed quotient truncates toward zero, the remainder is zero or signed like the product and smaller than the divisor; fails exactly when the quotient is no `i128`, the minimum included |
| MulDiv.I128MulDiv | cambrian-core/src/lib.rs:823-837 | the truncated quotient with the same exact failure condition |
| MulDiv.TruncatedUnique | cambrian-core/src/lib.rs:823-837 | truncation toward zero is the only quotient with such a remainder |
| MulDiv.SignedFromUnsigned | cambrian-core/src/lib.rs:812-837 | putting the signs back onto the unsigned quotient and remainder gives the truncated ones |
| Power.Pow | cambrian-core/src/lib.rs:985-999 | returns the power whenever it is below 2^256 and fails otherwise, 0^0 = 1 included |
| Power.OddStep | cambrian-core/src/lib.rs:988-994 | multiplying the result in never exceeds the final power |
| Power.EvenStep | cambrian-core/src/lib.rs:988-998 | squaring the base never exceeds the final power while a round is left |
| Literals.FromDecimalStr | cambrian-core/src/lib.rs:99-118 | scans digits up to the first bad character or overflow and reports which comes first |
| Literals.DecimalExact | cambrian-core/src/lib.rs:99-118 | an all-digit literal gives the number it denotes, or `Overflow` exactly when that is 2^256 or more |
| Literals.GuardExact | cambrian-core/src/lib.rs:110-115 | the quotient-and-remainder guard fires exactly when the next digit would overflow |
| Literals.StripConcat | cambrian-core/src/lib.rs:100 | removing the underscores works piece by piece |
| Literals.StripOne | cambrian-core/src/lib.rs:100 | an underscore is removed and every other character stays |
| Literals.HexDigitsExact | cambrian-core/src/lib.rs:121-138 | the hexadecimal digits are `0..9`, `a..f` and `A..F` with their values |
| Literals.BodyExact | cambrian-core/src/lib.rs:141-147 | one `0b` in front of binary digits is dropped |
| Literals.ToDisplayDecimal | cambrian-core/src/lib.rs:82-96 | both branches print the decimal digits of the value |
| Literals.DecimalLeads | cambrian-core/src/lib.rs:82-96 | only zero is printed with a leading zero |
| Literals.DecimalShortest | cambrian-core/src/lib.rs:82-96 | no shorter string of digits denotes the value |
| Literals.DecimalDenotes | cambrian-core/src/lib.rs:82-96 | the printed form denotes the value it was printed from |
| Literals.DecimalRoundTrip | cambrian-core/src/lib.rs:82-118 | any answer of the parser on the printed form is the value |
| Literals.FromHexExact | cambrian-core/src/lib.rs:121-138 | the denoted number for 1 to 64 hexadecimal digits, and which error otherwise |
| Literals.HexRoundTrip | cambrian-core/src/lib.rs:229-234 | parsing the 64 digits that `Display` writes gives the value back |
| Literals.FromBinaryDigits | cambrian-core/src/lib.rs:141-166 | the denoted number for 1 to 256 binary digits, and which error otherwise |
| Codec.DecodeEncoded | cambrian-core/src/lib.rs:1005-1174 | for every type and value whose lengths fit in 32 bits, every encoding that some map iteration order allows decodes to the value and advances by exactly its length, wherever it lies |
| Codec.RoundTrip | cambrian-core/src/lib.rs:1005-1174 | the same between any prefix and suffix, at the prefix length |
| Codec.ListsRebuilds | cambrian-core/src/lib.rs:1138-1152 | inserting the entries of a map in any order rebuilds the map |
| Codec.DeLocal | cambrian-core/src/lib.rs:1005-1174 | a successful decode stays inside the buffer and does not depend on what follows the new offset |
| Codec.TruncatedFails | cambrian-core/src/lib.rs:1008-1014 | a truncated encoding never decodes |
| Codec.PrefixFree | cambrian-core/src/lib.rs:1005-1174 | no encoding of a value is a prefix of an encoding of another value of the type |
| CodecIO.SerBe | cambrian-core/src/lib.rs:1005-1174 | for every value of the type, too long ones included, the serializer's loops produce an encoding of it; the bytes of a number are its digits in base 256, the highest first, in two's complement, and so are the four bytes of a length |
| CodecIO.SerEntries | cambrian-core/src/lib.rs:1138-1144 | walking the map in any order produces an encoding of the map |
| CodecIO.TryDeBe | cambrian-core/src/lib.rs:1005-1174 | the offset-advancing deserializer computes the decoding function, the failing offsets and the lossy conversion of text included; a decoded number is the one in range whose digits were read |
| CodecIO.TryDeItems | cambrian-core/src/lib.rs:1117-1122 | the item loop stops at the first item that does not decode |
| CodecIO.RoundTripBe | cambrian-core/src/lib.rs:1005-1174 | serializing and then deserializing anywhere in a buffer gives the value back |
| CodecIO.LimbBytes | cambrian-core/src/lib.rs:61-74 | the two big-endian limbs of a U256 are its 32 big-endian bytes |
| CodecBytes.Pow256Bits | cambrian-core/src/lib.rs:1034-1041 | a number of n bytes has 8n bits |
| CodecBytes.ToBEDigits | cambrian-core/src/lib.rs:1016-1030 | byte i of a written number is its digit for 256^(size-1-i) |
| CodecBytes.FromBEOne | cambrian-core/src/lib.rs:1016-1030 | one byte is read as itself |
| CodecBytes.FromBEConcat | cambrian-core/src/lib.rs:1016-1030 | earlier bytes count in units of 256 to the number of later ones |
| CodecBytes.DigitsRead | cambrian-core/src/lib.rs:1016-1030 | a natural number in range has these digits exactly if it is what is read |
| CodecBytes.SignedRead | cambrian-core/src/lib.rs:1016-1030 | the same for a signed number in two's complement |
| CodecBytes.EncodedBytes | cambrian-core/src/lib.rs:1005-1174 | every encoding consists of such digits, one byte for a truth value or a tag, and text and byte arrays as they are |
| CodecBytes.DecodedBytes | cambrian-core/src/lib.rs:1005-1174 | what is decoded has the digits that were read |
| CodecBytes.Samples | cambrian-core/src/lib.rs:1016-1109 | the `u32` 1, the `i16` -2 and the text `hi` |
| Utf8Chars.ValidIff | cambrian-core/src/lib.rs:1105 | well-formed text is exactly the encoding of a list of Unicode scalar values |
| Utf8Chars.ChunkLongest | cambrian-core/src/lib.rs:1105 | what is replaced at once is the longest part that begins a character |
| Utf8.LossyOfValid | cambrian-core/src/lib.rs:1105 | the lossy conversion keeps well-formed text |
| Utf8.LossyIsValid | cambrian-core/src/lib.rs:1105 | whatever the bytes are, the lossy conversion gives well-formed text |
| CodecLimits.DecodedTyped | cambrian-core/src/lib.rs:1005-1174 | whatever the bytes are, a successful decode gives a value of the type: integers in range, well-formed text, the right number of parts |
| CodecLimits.DecodedSized | cambrian-core/src/lib.rs:1093-1152 | in which no list or map has 2^32 elements and no text 3 * 2^32 bytes, at any depth |
| CodecLimits.TextDecodes | cambrian-core/src/lib.rs:1093-1109 | a text of any length decodes to the lossy form of its first `len % 2^32` bytes |
| CodecLimits.ListDecodes | cambrian-core/src/lib.rs:1110-1122 | a list of any length decodes to its first `len % 2^32` items |
| CodecLimits.LongMapLost | cambrian-core/src/lib.rs:1136-1152 | a map with 2^32 entries or more never comes back |
| CodecLimits.MustFit | cambrian-core/src/lib.rs:1005-1174 | a value with a length that does not fit in 32 bits never comes back, wherever and between whatever bytes its encoding lies, if in every map the keys that may hold text fit |
| CodecLimits.RoundTripIff | cambrian-core/src/lib.rs:1005-1174 | so under that condition a value comes back exactly when all its lengths fit |
| CodecLimits.PlainKeysFit | cambrian-core/src/lib.rs:1136-1152 | the condition holds for every value of a type without text in map keys |
| StorageLayout.PackRecordFields | cambrian-transpiler/src/codegen/storage_layout.rs:319-381 | the recursive record packer ends at the byte where the cursor model puts the end of the record, and sums the bytes of its fields; it terminates because record nesting is acyclic |
| StorageLayout.PackPayloadEnumFields | cambrian-transpiler/src/codegen/storage_layout.rs:383-423 | the same for a payload enum: one tag byte, then all variants' fields |
| StorageLayout.PlaceValue | cambrian-transpiler/src/codegen/storage_layout.rs:192-208 | a value is placed at the cursor if it fits in the current word and at the next word otherwise |
| StorageLayout.ComputeLayout | cambrian-transpiler/src/codegen/storage_layout.rs:109-263 | the slot table equals, entry by entry, the table of a fold that keeps only one byte cursor |
| Displacement.StartLeast | cambrian-transpiler/src/codegen/storage_layout.rs:192-208 | everything starts at the first byte from the cursor on where it has room: a value inside a word, all else at the beginning of one |
| LayoutWidths.WidthExact | cambrian-transpiler/src/codegen/storage_layout.rs:429-465 | the width of a type from its name: integers by their bits, byte arrays by their bytes, one byte for `bool`, 20 for `address`, a word for every other name |
| LayoutWidths.PackedItem | cambrian-transpiler/src/codegen/storage_layout.rs:165-208 | a member of such a type, of a typed address or of an enum without payload (one byte) is a value of that width |
| LayoutWidths.PackedEntry | cambrian-transpiler/src/codegen/storage_layout.rs:109-263 | the table has an entry for it, that many bytes from its offset on, inside one word |
| LayoutWidths.WordItem | cambrian-transpiler/src/codegen/storage_layout.rs:165-232 | a mapping and a dynamic array take a word |
| LayoutWidths.FieldShapesAt | cambrian-transpiler/src/codegen/storage_layout.rs:319-381 | the fields of a record are laid out in their order |
| LayoutWidths.EnumShapesAt | cambrian-transpiler/src/codegen/storage_layout.rs:383-423 | a payload enum has one byte for the variant and then the fields of all variants |
| LayoutWidths.VariantTypesConcat | cambrian-transpiler/src/codegen/storage_layout.rs:383-423 | these are in the order of the variants |
| LayoutWidths.RecordFound | cambrian-transpiler/src/codegen/storage_layout.rs:265-300 | of several records of one name the first counts |
| SeedExamples.LendingTable | cambrian-transpiler/src/codegen/storage_layout.rs:436 | two `u128` members share a word, at offsets 0 and 16 |
| LayoutFacts.LayoutSound | cambrian-transpiler/src/codegen/storage_layout.rs:109-263 | no byte belongs to two entries, values lie inside the word they report, and structs, mappings and arrays start and end on word boundaries |
| LayoutFacts.ExclusiveExact | cambrian-transpiler/src/codegen/storage_layout.rs:81-86 | an entry reported as exclusive shares no word with another, and, when no entry is empty, exactly those entries are reported |
| LayoutFacts.WholeWordsAlone | cambrian-transpiler/src/codegen/storage_layout.rs:62-64 | an entry made of whole words shares no word with another |
| LayoutFacts.EntriesNonEmpty | cambrian-transpiler/src/codegen/storage_layout.rs:319-423 | if no record is empty, every entry occupies at least one byte |
| ExistsUse.FindsExact | cambrian-transpiler/src/codegen/solidity/evm/analysis.rs:265-422 | each of the three walkers (of the table, of the emitter, and of the bodies of pure functions) finds exactly the nodes it looks for that lie only below nodes it enters |
| ExistsUse.UsedIff | cambrian-transpiler/src/codegen/solidity/evm/analysis.rs:265-422 | `member_uses_exists` holds exactly if the emitter's walker comes to a use at some position in the entity |
| ExistsUse.UsedByForm | cambrian-transpiler/src/codegen/solidity/evm/analysis.rs:265-422 | form by form: exactly if somewhere in the entity, outside array literals, `exists` or `contains` is called on the member, or a pure function is called that asks the parameter for which the member is passed |
| ExistsUse.CountedByForm | cambrian-transpiler/src/codegen/solidity/evm/analysis.rs:894-921 | `transforms_use_exists`, form by form |
| ExistsUse.CountedIff | cambrian-transpiler/src/codegen/solidity/evm/analysis.rs:894-921 | `transforms_use_exists` holds exactly if `exists` is called on the member in a transform, below binary operators, `let`, `if` and calls of functions and other methods only |
| ExistsUse.MissedIff | cambrian-transpiler/src/codegen/solidity/evm/analysis.rs:886-921 | what the table counts the emitter sees; a mapping is missed exactly if it is used and each use is outside the transforms, is `contains` or a pure function, or lies below another form |
| DeclaredLayout.TableIsDeclaredIff | cambrian-transpiler/src/codegen/solidity/evm/entity.rs:251-345 | the table of the deterministic mode places exactly the declared state variables if and only if no mapping has an existence flag that the table does not count, an inner existence flag or key lists, and no identity member is stored |
| DeclaredLayout.ListedIsDeclared | cambrian-transpiler/src/codegen/solidity/evm/analysis.rs:861-921 | an existence flag that the table lists is declared |
| DeclaredLayout.TableFromBodiesIff | cambrian-transpiler/src/codegen/solidity/evm/analysis.rs:861-921 | with both decisions taken from the expressions of the entity: exactly if no mapping is iterated or has an inner flag, every used one has a use that the table sees, and no identity member is stored |
| Displacement.Placement | cambrian-transpiler/src/codegen/solidity/evm/entity.rs:262-338 | an entry of the table starts at its own byte among the declared variables if no variable that the table does not know comes before it, and at least a word later otherwise |
| WordUpdate.MaskedUpdateExact | cambrian-transpiler/src/codegen/evm_test_codegen.rs:2639-2651 | load, mask, shift and or replace exactly the masked bits of the word by the low bits of the value |
| WordUpdate.ReadOwn | cambrian-transpiler/src/codegen/evm_test_codegen.rs:2639-2651 | the replaced field reads back |
| WordUpdate.ReadAbove | cambrian-transpiler/src/codegen/evm_test_codegen.rs:2621-2625 | fields above the replaced one keep their bits |
| WordUpdate.ReadBelow | cambrian-transpiler/src/codegen/evm_test_codegen.rs:2621-2625 | fields below the replaced one keep their bits |
| StateSeed.GenStateInit | cambrian-transpiler/src/codegen/evm_test_codegen.rs:2555-2654 | emits, pin by pin, the statement for the first slot of that name, or none |
| StateSeed.LookupExact | cambrian-transpiler/src/codegen/evm_test_codegen.rs:2580-2600 | a pin targets the first entry of its name, and none exactly if there is none |
| StateSeed.IdentityExact | cambrian-transpiler/src/codegen/evm_test_codegen.rs:2570-2590 | an identity pin is skipped: the first member of that name decides |
| StateSeed.WriteKeeps | cambrian-transpiler/src/codegen/evm_test_codegen.rs:2613-2652 | the write of one pin leaves every other entry of the table it is computed from unchanged |
| StateSeed.WriteReads | cambrian-transpiler/src/codegen/evm_test_codegen.rs:2613-2652 | what the pinned field reads afterwards: the value, or for a packed field wider than 16 bytes its low 128 bits below the old upper bits |
| StateSeed.RunIsExecution | cambrian-transpiler/src/codegen/evm_test_codegen.rs:2570-2653 | the run of the pins, one after the other, is the execution of all emitted statements |
| StateSeed.UnpinnedKept | cambrian-transpiler/src/codegen/evm_test_codegen.rs:2570-2653 | after any sequence of pins every entry of the writer's table that was not pinned is unchanged |
| StateSeed.LastPinReads | cambrian-transpiler/src/codegen/evm_test_codegen.rs:2570-2653 | after any sequence of pins a pinned field reads its last pin, as far as the mask reaches |
| StateSeed.UpperBitsKept | cambrian-transpiler/src/codegen/evm_test_codegen.rs:2624-2633 | no sequence of pins changes the bits above the low 128 of a packed field |
| StateSeed.ReadBackIff | cambrian-transpiler/src/codegen/evm_test_codegen.rs:2624-2633 | the last pin is read back exactly when the entry is exclusive, or at most 16 bytes wide, or the field had the upper bits of the value before seeding |
| StateSeed.ReadBackFresh | cambrian-transpiler/src/codegen/evm_test_codegen.rs:2624-2633 | over upper bits that are zero, exactly when the entry is exclusive, at most 16 bytes wide, or the value is below 2^128 |
| SeedExamples.PackedAddressLoses | cambrian-transpiler/src/codegen/evm_test_codegen.rs:2626-2633 | an address packed behind a flag and pinned to 2^128 reads zero |
| StateSeed.ExclusiveAtZero | cambrian-transpiler/src/codegen/evm_test_codegen.rs:2613-2619 | an exclusive entry lies at the low end of its word, where the full-word store puts the value |
| StateSeed.LayoutIsTable | cambrian-transpiler/src/codegen/evm_test_codegen.rs:2568-2570 | the writer's layout, without the `_initialized` flag, meets the assumptions of the write lemmas if no record is empty |
| DeployedSeed.DeployedTable | cambrian-transpiler/src/codegen/solidity/evm/entity.rs:251-345 | so does the table of the variables that the contract declares, with all variables behind mappings and the flag |
| DeployedSeed.MemberPlace | cambrian-transpiler/src/codegen/evm_test_codegen.rs:2568 | the declared variable of a member has the writer's slot and offset if no earlier member has a variable that the table does not know, and a larger slot otherwise |
| DeployedSeed.VariablesKept | cambrian-transpiler/src/codegen/evm_test_codegen.rs:2568-2653 | if no pin writes a member behind such a variable, every declared variable that was not pinned is unchanged, the flag included if no pin wipes it |
| DeployedSeed.PinReadsIff | cambrian-transpiler/src/codegen/evm_test_codegen.rs:2568-2653 | the declared variable of a pinned member reads the pin, as far as the mask reaches, in every storage if and only if the member is not behind such a variable |
| DeployedSeed.BehindUnread | cambrian-transpiler/src/codegen/evm_test_codegen.rs:2568-2653 | a pin of a member behind such a variable leaves the member's own variable as it was |
| DeployedSeed.DeployedReadBack | cambrian-transpiler/src/codegen/evm_test_codegen.rs:2624-2633 | after any pins a declared variable in front reads its last pin back exactly under the condition of `ReadBackIff` |
| SeedExamples.BallotMisplaced | cambrian-transpiler/src/codegen/solidity/evm/analysis.rs:888-893 | a mapping that a route condition asks with `exists`, then two numbers: pinning the second sets the first instead |
| DeployedSeed.FlagKeptIff | cambrian-transpiler/src/codegen/evm_test_codegen.rs:2568-2653 | the `_initialized` flag of the deployed contract is unchanged in every storage if and only if no pin targets an entry that is exclusive in the writer's table and has the flag's slot; none does if any member has a variable that the table does not know |
| DeployedSeed.FlagAfterWipe | cambrian-transpiler/src/codegen/evm_test_codegen.rs:2613-2619 | otherwise the flag is afterwards the byte of the last such pin's value at the flag's place, whatever the storage was |
| DeployedSeed.FlagCleared | cambrian-transpiler/src/codegen/evm_test_codegen.rs:2613-2619 | that is false if the value fits its field |
| SeedExamples.CounterLosesFlag | cambrian-transpiler/src/codegen/evm_test_codegen.rs:2568 | pinning a `u64` of an entity with init parameters to 7 clears a set flag |

## Left out

- LoadWithImports: canonicalisation, reading, parsing and import resolution are an abstract file system, and of the diagnostics only the bounded number is modelled. Only that all needed files are found (`AnswerExact`) assumes that the paths to one file agree about its imports, which relative imports behind symbolic links can break.
- GenStateInit: the emitted text is modelled by the statement it contains; the value of a pin is a number, so the translation of the expression is not part of this model.
- ComputeLayout: requires acyclic record nesting, also through payload enums, without which the original does not terminate; the validator's record check does not follow payload enums. Whether there are init parameters is an input. The byte total of a struct saturates at 255 as in the code and has no further meaning.
- TableIsDeclaredIff: which mappings are iterated, or have inner mappings asked for keys, is an input, and so are the identity members that are stored; a stored identity member counts as one word, as strings and dynamic arrays do.
- FindsExact: how the expressions of an entity are collected from its routes, and patterns, types and guards inside expressions, are not part of this model.
- RoundTripIff: a map with a text key of 2^32 bytes or more is left open between that length and 3 * 2^32, where `DecodedSized` excludes a return: the bytes after such a key are read as further entries, and a conversion of damaged text to replacement characters may lengthen them again, so a coincidence is not excluded.
- TopologicalSort: expects each member once and dependencies only of members, as its only caller provides; the diagnostics for unknown references are not modelled.
- RouteSccs: how the callee lists of routes and the send lists of entities are found in the syntax tree is not part of this model.
- FailClosure: the per-route facts are inputs; the policy flags for cross-entity sends and rescue are carried but, as in the code, not used by the closure.
- Payload enums nested inside a payload enum, mappings and arrays inside a variant, and `Option` types count as one 32-byte value, as in the code; whether Solidity agrees is not part of this model.
- Narrow `muldiv` forms (`u8` to `u64`, `i8` to `i64`), whose final cast truncates silently, and the small numeric helpers beside them.
- SHA-256, serde derives, cell encodings, YAML and file access, text generation, the parser and the validator rules other than the two cycle checks.
- Data locations of mappings and dynamic arrays, which Solidity derives by hashing: a mapping or array is the one word it reports.
