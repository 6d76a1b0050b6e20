# Narval: a verified model of the compiler core and the runtime

Narval is a compiler with a C runtime. This project models the parts of it whose correctness
rests on more than one function, and proves what they are for:

- **Type inference.** Unification with in-place links, path compression, an occurs check and the
  language's own coercions; what it means that two types agree or are compatible; generalisation,
  instantiation and the free variables of a chain of scopes, and the type that a declared function is
  stored with (`Types`, `Bindings`, `Schemes`, `Unification`, `Fillings`, `Namespaces`,
  `InnerSchemes`, `Declarations`).
- **The concurrent runtime.** Atomic reference counts, channels built on a linked list and a
  condition variable, spawn and join through a slot table, and parallel loops, as state machines
  whose steps are the single accesses to shared memory (`RefCounts`, `Channel`, `Runtime`), and what
  their threads can wait for (`Progress`); the chunking of a parallel loop and the store of top-level
  values as sequential code (`ParallelFor`, `ValueStore`).
- **Code generation of statements.** A semantics of statements, run as the language means them and
  as the generators emit them; the laws that say what it makes of sequences, jumps, conditionals and
  loops; and exactly where the two ways to run agree: the names a loop carries, what a conditional
  hands on, as results or by selects, and what is lost in arms, increments, deferred statements and
  the `else` of a `for` (`Statements`, `StatementLaws`, `LoopLaws`, `BranchSelects`, `LoopCarried`,
  `Chains`, `CodegenLimits`, `SelectLimits`).
- **Rewrites.** The registered folds, against the values of expressions (`Folds`).
- **Modules.** The resolving walk with its cycle check, the orders in which files may list their
  imports, the names that import paths give, and the merge that relies on the walk (`Modules`,
  `ImportOrders`, `ImportPaths`, `Combining`, `Merging`).
- **Arithmetic and strings.** Integer power, row-major offsets, function types as strings, and the
  delta encoding of semantic tokens (`Power`, `FlatIndex`, `FunctionTypes`,
  `FunctionStrings`, `SemanticTokens`).
  `MachineInt` holds the C integer types.

Code that changes its state step by step is a class or a method with loops here too, proved
against a function of its inputs; the laws are lemmas about those functions.

## Where the code does not do what it is meant to

Each of these is a law that is false of the code as it stands, with an input and the condition under
which the code meets it.

- `occurs_in` does not look under MAP, TENSOR and POLY_TYPE, so a link can close a cycle
  (`Bindings.MapHidesCycle`). A link that the check lets through keeps the links acyclic if and only
  if the variable does not hide there (`Bindings.UnseenLinkAcyclicIff`), and where it does there is no
  unifier (`Unification.KnotOutcome`).
- `equals` follows a linked variable on its left, and one on its right only if it is at a linked variable
  on the left as well: with a variable linked to `T`, it accepts the variable against `T` and refuses
  `T` against the variable (`Bindings.EqualsIsLopsided`). It accepts two types if and only if they are
  the same through all links and every variable that it comes upon on the right is followed
  (`Bindings.EqualsIff`).
- `unify` has no case for MAP: two maps with variables in them are accepted if and only if `equals`
  takes them for equal (`Unification.UnificationContext.UnifyRoots`), and refused even where a unifier
  exists (`Unification.MapRefusedThoughUnifiable`).
- Many checks make a type variable with the id that `get_next_var_id` tells and leave the counter
  alone, so the id is handed out again (`Unification.UnificationContext.MadeWithNextId`); and a read of
  a polymorphic name instantiates it from a copy of the counter, so two reads have all their ids in
  common (`Unification.UnificationContext.ReadTwice`). New ids are unused exactly as long as no id in
  use is one of the next of the counter; as long as all ids come from it, they are, and two instances
  share what they should (`Unification.UnificationContext.GeneralizeAndUseTwice`).
- `PolyType::collect_free_vars` erases its quantified ids from the accumulator that it shares with
  every other entry, so ids that are free elsewhere get lost, some of them depending on hash order. For
  any entries, the walk over the scopes finds exactly the free ids in every order if and only if each
  of them is added by an entry (tensors add none) and added again further out than wherever an entry
  erases it (`Namespaces.FindsFreeIff`). A scheme in an outer scope loses a parameter's id in every
  order (`Namespaces.OuterSchemeLosesId`).
- A `def` is generalised while its own parameters are still in scope, so unless a scheme around it
  erases one of their ids, its type quantifies none (`Declarations.NothingQuantified`): the identity
  nested in another function is stored without a quantifier, though its id is free nowhere else
  (`Declarations.NestedIdentity`). Its type quantifies the ids of the parameters that it should if and
  only if each is free further out and kept, or not free further out and erased for good or hidden by
  a parameter of the same name (`Declarations.FunctionQuantifiesIff`). A `def` at the top level escapes
  this, as its name has been registered as a constant before (`Namespaces.ConstantStays`).
- `PolyType::substitute` takes the quantifier of a scheme inside the body away and leaves its ids as they
  are. So two instances of a function type whose result has been generalised on its own have, besides
  what the scheme leaves free, every id in common that the result quantifies
  (`InnerSchemes.OpenedIdsAreShared`, with an input in `InnerSchemes.ResultIsNotRenamed`).
- `resolve_dependencies` erases the requested name but not the name that the module registered
  itself under. What stays behind is known from the imports alone (`Modules.OnlyStraysStay`,
  `Modules.VisitedRestoredIff`). A module asked for as `./b` and then as `b` is reported as a cycle
  (`Modules.StrayLooksLikeCycle`), in the other order it is not: the walk returns normally if and only
  if its start is clean and no name is asked for after another one whose file is registered under it
  (`Modules.WalkIff`), and it does so in every order of the import lists if and only if its start is
  clean and no file on the way is asked for by two names (`ImportOrders.OrdersIff`).
- A module is registered under the name it declares, whatever is there: every file that a normal walk
  comes to is among the modules if and only if no two different ones declare one name
  (`Modules.AllKeptIff`). A file that imports another one of its own name is replaced by it, without an
  error (`Modules.HiddenIsLost`).
- The prelude modules are loaded without being resolved, so a circle of imports among them passes
  the cycle check and the merge does not end (`Merging.PreludeCircle`). After a normal resolution the
  merge ends if and only if none of them starts a circle (`Merging.CompiledEndsIff`).
- Deferred statements and match arms are generated in a scope that hands nothing on, so what they
  assign is lost, whether or not a walker lists the name: `while x == 0 { defer { x = 1 }; x = 0 }` and
  `while x == 0 { match 1 { _ => x = 1 } }` never end (`CodegenLimits.ListedDeferRunsForever`,
  `CodegenLimits.MatchLoopRunsForever`; exact conditions in `CodegenLimits.LoopIff` and
  `CodegenLimits.MatchIff`). The walker of the conditional does not look past a `defer` at all
  (`CodegenLimits.ConditionalIff`).
- No walker looks at an increment: `while x == 0 { x++; }` never ends, and `if c { x++; }` leaves `x`
  alone (`CodegenLimits.IncrementRunsForever`, `CodegenLimits.IncrementIsLost`; the same exact
  conditions).
- Nothing is generated for the `else` of a `for` (`CodegenLimits.ElseIsNotRun`), and its binding is
  defined before the carried names, so a body that assigns a binding which hides a visible name sees
  the carried value instead of the element and leaks it (exact condition for both in
  `CodegenLimits.ForIff`).
- A conditional that becomes selects computes every value in the store reached with the selects
  before it, so `if c { x = x + 1; x = x * 2 }` forgets the first assignment
  (`SelectLimits.SecondUpdateForgetsFirst`, exact condition in `SelectLimits.SelectIff`).
- A function type whose result is itself a function type does not survive printing and parsing
  (`FunctionTypes.ReturnsFunction`); the exact condition is in `FunctionTypes.RoundTripIff`.
- `nv_tensor_flat_index` tells the elements of a tensor apart if and only if every dimension past the
  fourth is 1 or some dimension is 0 (`FlatIndex.OffsetsDistinctIff`,
  `FlatIndex.RankFiveSharesOffsets`).

## Model

| member | source | states |
|---|---|---|
| Types.SeenOrHidden | include/frontend/checker/unification.hpp:195-242 | a variable is free in a term exactly when the occurs check comes across it or it hides under a kind the check does not enter |
| Types.PlainHidesNothing | include/frontend/checker/unification.hpp:195-242 | the terms in which the occurs check can miss nothing are exactly those without variables under MAP, TENSOR and POLY_TYPE |
| Types.ApplyContains | include/frontend/checker/unification.hpp:63-65 | what is put for a variable lies properly inside the instance of a term that contains it, which is why a circular constraint has no solution |
| Bindings.FullIsMostGeneral | include/frontend/checker/type.hpp:136-142 | every assignment that respects the links sees a term and its full resolution alike |
| Bindings.SolutionRespects | include/frontend/checker/type.hpp:136-142 | an acyclic set of links describes an assignment that respects all of them |
| Bindings.FullUnique | include/frontend/checker/type.hpp:136-142 | what a term resolves to does not depend on how acyclicity is witnessed |
| Bindings.CompressedRespects | include/frontend/checker/type.hpp:136-142 | path compression leaves the set of solutions unchanged |
| Bindings.LinkAcyclicIff | include/frontend/checker/unification.hpp:60-79 | linking an unbound variable keeps the links acyclic if and only if the variable is not in the resolution of the type it is linked to |
| Bindings.UnseenLinkAcyclicIff | include/frontend/checker/unification.hpp:195-242 | a link that the occurs check lets through closes a cycle exactly when the variable hides where the check does not look |
| Bindings.MapHidesCycle | include/frontend/checker/unification.hpp:239-240 | `'a := map<'a, int>` passes the occurs check and makes a cycle |
| Bindings.EqualsSound | include/frontend/checker/type.hpp:85-97 | types that `equals` accepts stay the same, up to undecided widths and dims, under every solution of the links |
| Bindings.EqualsIff | include/frontend/checker/type.hpp:85-97 | `equals` accepts two types if and only if their full resolutions are the same and it follows every linked variable that it comes upon on the right |
| Bindings.EqualsIsLopsided | include/frontend/checker/type.hpp:85-97 | a variable linked to a type equals the type, and the type does not equal the variable |
| Unification.UnificationContext.NewTypeVar | include/frontend/checker/unification.hpp:17-21 | a new variable has the next id, an unused one as long as every id in use came from the counter, and that stays so |
| Unification.UnificationContext.MadeWithNextId | src/frontend/checker/expressions/check_access_expr.cpp:72-73 | a variable made with the id that `get_next_var_id` tells is the one that the next `new_type_var` hands out again |
| Unification.UnificationContext.Resolve | include/frontend/checker/unification.hpp:24-34 | the result is an unbound variable or a type with the resolution of the argument; links only get shorter, to the same resolutions, and stay acyclic |
| Unification.UnificationContext.OccursIn | include/frontend/checker/unification.hpp:195-242 | terminates and says exactly whether the variable is visible in the full resolution of the type, changing links only by compression |
| Unification.UnificationContext.EqualTerms | include/frontend/checker/type.hpp:85-97 | terminates and decides equality through links, widths and dims, changing nothing (what that accepts: Bindings.EqualsIff, Fillings.SameIff) |
| Unification.UnificationContext.Unify | include/frontend/checker/unification.hpp:37-192 | for all types: always terminates, keeps the links acyclic and loses none, also when it fails midway; on success the types are compatible under every solution and every unifier satisfies the links added; on refusal no unifier exists and the types can never become compatible under the links made so far, unless two maps or two schemes with variables in them were refused; where the code would close a circle of links there is no unifier; and none of the exceptions arises if no variable sits under MAP, TENSOR or POLY_TYPE (what compatible means: Fillings.CompatibleIff) |
| Unification.UnificationContext.UnifyRoots | include/frontend/checker/unification.hpp:37-192 | the same for resolved types; and two maps, or two schemes, with variables in them are accepted if they are equal and refused otherwise |
| Unification.UnificationContext.UnifyVariable | include/frontend/checker/unification.hpp:52-79 | an unbound variable is linked unless it occurs in the other type, with the outcome promised for unification; a link that the occurs check lets through although it closes a circle is told apart |
| Unification.UnificationContext.UnifyComponents | include/frontend/checker/unification.hpp:90-168 | components are unified from the first on; a refused one refuses the whole, and all together make the wholes compatible |
| Unification.UnifiedIsMostGeneral | include/frontend/checker/unification.hpp:37-192 | after a success, and however many links follow, the resolved types are compatible, and every unifier factors through what the call left |
| Unification.VerdictIsExact | include/frontend/checker/unification.hpp:37-192 | the call succeeds if and only if the two types, resolved through the links it leaves, are compatible up to width 0, dim -1, enum with int and int with float; the two exceptions apart (Fillings.CompatibleIff, and equality where nothing is left to decide or convert: Fillings.DecidedCompatibleIff) |
| Unification.KnotOutcome | include/frontend/checker/unification.hpp:60-79 | where the variable hides in the type, no assignment makes the two identical, and the link that the code makes all the same closes a circle |
| Unification.MismatchOutcome | include/frontend/checker/unification.hpp:173-191 | roots that are neither equal nor coerced nor of one constructed kind have no unifier and are compatible under no assignment, unless they are two maps or two schemes with variables in them |
| Unification.MapRefusedThoughUnifiable | include/frontend/checker/unification.hpp:168-191 | a map from an undecided type and a map from integers are not equal, so they are refused, though an assignment makes them identical |
| Unification.OccursOutcome | include/frontend/checker/unification.hpp:60-79 | the circular-constraint error is raised only where no assignment makes the two types identical or even compatible |
| Unification.CompatibleSymmetric | include/frontend/checker/unification.hpp:85-86 | the compatibility that unification grants does not depend on the order of its arguments |
| Fillings.SameIff | include/frontend/checker/type.hpp:730-740 | two types agree if and only if one type fills both: any width for an undecided one, any dimensions for dynamic ones, any ids for as many quantified ones, and everything else as it is |
| Fillings.CompatibleIff | include/frontend/checker/unification.hpp:80-192 | two types are compatible if and only if one type fills both the second and what the first becomes when some of its integers are made enums or floats, or the other way |
| Fillings.DecidedSameIff | include/frontend/checker/type.hpp:730-740 | types with all widths and dimensions decided and nothing quantified agree only if they are equal |
| Fillings.DecidedCompatibleIff | include/frontend/checker/unification.hpp:80-192 | where moreover no integer meets an enum or a float, they are compatible only if they are equal |
| Fillings.UnifyDecided | include/frontend/checker/unification.hpp:37-192 | for two such types without variables: what unifies is equal; and equal ones unify, as long as no variable hides in the links |
| Fillings.ShapesDiffer | include/frontend/checker/unification.hpp:125-141 | tensors whose shapes differ in the second dimension are not compatible, and compatible if it is dynamic in one of them |
| Unification.UnificationContext.Generalize | include/frontend/checker/unification.hpp:254-277 | for all types: quantifies what the walk finds in the resolved type and not in the environment, and returns the type itself when there is nothing; without quantifiers inside that is exactly the free ids |
| Unification.UnificationContext.Instantiate | include/frontend/checker/unification.hpp:245-251 | the walk of `substitute` over the body with a variable for each quantified id, and for stored schemes the renamed resolution; the new ids are the next ones of the counter, each used once, and unused before if all ids in use came from the counter |
| Unification.UnificationContext.InstantiateFrom | include/frontend/checker/type.hpp:193-200 | the same for the member of the scheme that counts on in the counter it is given |
| Unification.UnificationContext.UseTwice | include/frontend/checker/unification.hpp:245-251 | two instances of a scheme have the ids that it leaves free, those are all they share, and their other ids are two successive runs of the counter |
| Unification.UnificationContext.GeneralizeAndUseTwice | include/frontend/checker/unification.hpp:245-277 | generalise a type and instantiate it twice: each instance has the ids free in the environment and, for each quantified id, a new one of its own from the next ids of the counter; the two share exactly the ids free in the environment; the new ids are none of the environment's, and unused, if all ids in use came from the counter |
| Unification.UnificationContext.ReadTwice | src/frontend/checker/expressions/check_primary_expr.cpp:96-100 | two reads of a polymorphic name have all their ids in common, and the next new variable has one of them too |
| Schemes.CollectMono | include/frontend/checker/type.hpp:115-121 | on a type without quantifiers the walk adds exactly the free ids of its resolution |
| Schemes.CollectFull | include/frontend/checker/type.hpp:115-121 | on any type the walk finds what it finds in the full resolution, whatever it has collected before |
| Schemes.CollectPrenex | include/frontend/checker/type.hpp:178-183 | on a scheme the walk adds its free ids and takes its quantified ids out of everything collected before |
| Schemes.FunctionWalk | include/frontend/checker/type.hpp:178-183 | in a function type with a generalised result the walk loses the parameters' ids that the result quantifies |
| Schemes.SubstituteMono | include/frontend/checker/type.hpp:123-133 | substitution is substitution into the full resolution |
| Schemes.InstanceFreeVars | include/frontend/checker/type.hpp:185-191 | the free ids of an instance are those of the body that are not quantified plus the new ids of the quantified ones that occur |
| Schemes.InstancesShare | include/frontend/checker/unification.hpp:245-251 | instances with different new ids have exactly the ids that the scheme leaves free in common |
| Schemes.NothingCapturedIff | include/frontend/checker/unification.hpp:245-251 | an instance has as many ids as the body if and only if no new id is one that the scheme leaves free |
| Schemes.InstanceInvertible | include/frontend/checker/unification.hpp:245-251 | renaming the new ids back gives the scheme's body again |
| Namespaces.FindsFreeIff | src/frontend/checker/namespace.cpp:66-86 | for arbitrary entries and whatever the order of names within scopes, the walk finds exactly the ids that are free in an entry if and only if each of them is added by one, and by one further out than wherever an entry erases it |
| Namespaces.AlwaysCollectedIff | src/frontend/checker/namespace.cpp:66-86 | an id is collected in every order exactly when an entry adds it and, wherever one erases it, one further out adds it |
| Namespaces.NeverCollectedIff | src/frontend/checker/namespace.cpp:66-86 | an id is collected in no order exactly when no entry adds it, or a scope erases it and neither that scope nor one further out adds it |
| Namespaces.PrenexEntry | include/frontend/checker/type.hpp:178-183 | an entry quantified at most at its root adds exactly its free ids and erases exactly those it quantifies |
| Namespaces.OuterSchemeLosesId | src/frontend/checker/namespace.cpp:66-86 | a variable in a scope inside one with a scheme that quantifies its id: free, and found in no order |
| InnerSchemes.TrulyFreeIff | include/frontend/checker/type.hpp:178-183 | an id counts as free in a type, which is what the walks are judged by, if and only if it stands somewhere where no scheme around it quantifies it |
| InnerSchemes.InnerSchemeIsOpened | include/frontend/checker/type.hpp:185-200 | an instance of a function whose result is a scheme has the renamed parameters, and the result without its quantifier, with the quantified ids as they were |
| InnerSchemes.OpenedIdsAreShared | include/frontend/checker/type.hpp:185-200 | two instances of it with different new ids have in common exactly what the scheme leaves free and the ids of the result that the result quantifies |
| InnerSchemes.ResultIsNotRenamed | include/frontend/checker/type.hpp:185-200 | in `forall p. (p) -> forall a. a` the `a` is the same in every instance |
| Namespaces.Namespace.PutKey | src/frontend/checker/namespace.cpp:18-35 | a name is put into the scope, as a constant unless it is mutable; a constant that is there stays |
| Namespaces.ConstantStays | src/frontend/checker/namespace.cpp:18-35 | whatever is put into a scope later, a constant keeps its first type |
| Namespaces.FirstConstantStays | src/frontend/checker/namespace.cpp:18-35 | any other name has the type of its first constant entry, and is constant from there on |
| Namespaces.LastMutableCounts | src/frontend/checker/namespace.cpp:18-35 | or, if all its entries are mutable, that of the last one, and can be changed again |
| Namespaces.Namespace.CollectFreeVars | src/frontend/checker/namespace.cpp:66-86 | every name of every scope is walked once, scope by scope outwards, and the result is that of the walk over them |
| Declarations.CheckFunction | src/frontend/checker/statements/check_function_stmt.cpp:183-345 | with the scope of the function pushed, holding its parameters and what its body put there: the result is generalised over what the walk over that scope and those around it collects, the function then quantifies the free ids of its parameters that are neither collected nor in the result, and is put into the outer scope unless a constant of its name is there |
| Declarations.FunctionQuantifiesIff | src/frontend/checker/statements/check_function_stmt.cpp:296-302 | of the ids of its parameters the function quantifies those not free in the outer scopes, in every order of the names, if and only if each id is free further out and kept, or else in no way kept: erased for good or never added, and not in the result |
| Declarations.NothingQuantified | src/frontend/checker/statements/check_function_stmt.cpp:236-302 | if no scheme in scope erases an id of a parameter, none is ever quantified, which is right if and only if all of them are free in the outer scopes |
| Declarations.NestedIdentity | src/frontend/checker/statements/check_function_stmt.cpp:236-345 | a nested `def id<T>(x: T): T` with an id that no scope around it knows is stored without a quantifier |
| RefCounts.IncConserves | include/backend/runtime/prototypes.h:579-583 | a holder that lends a reference can be copied from: counts stay equal to owners and no freed object comes back |
| RefCounts.DecConserves | include/backend/runtime/prototypes.h:585-593 | giving a reference up keeps counts equal to owners, and the object is freed exactly with the last one |
| RefCounts.HeldIsLive | include/backend/runtime/prototypes.h:585-593 | whoever holds a reference holds a live object, and a decrement frees it exactly when it was the only owner |
| Channel.InvKept | src/backend/runtime/nir_bridge.c:1404-1435 | every atomic step of send and recv keeps mutual exclusion, the spelling of the list by its pointers, first-in-first-out and the count of wakeups |
| Channel.LinkSpelled | src/backend/runtime/nir_bridge.c:1414-1415 | linking a node behind `tail`, or as `head` of an empty list, appends it to the list that the pointers spell |
| Channel.RunsAreFifoWithoutLostWakeups | src/backend/runtime/nir_bridge.c:1404-1435 | in every state of every run: what was received and then what the pointers reach is what was sent, in lock order; each thread about to return from `recv` has the value recorded for it, at a place of its own; a sleeping receiver never misses a message, since enough woken ones are on their way; and no step touches a node that is not allocated |
| Channel.FinishReturnsReceived | src/backend/runtime/nir_bridge.c:1419-1435 | what `recv` returns is the message recorded for it when it took it off the list, and that is the message sent at that place |
| Channel.StuckMeansDrained | src/backend/runtime/nir_bridge.c:1422-1431 | when nothing can go on, every thread is outside the channel or asleep in `recv`; and while some receiver sleeps, nothing is queued and everything sent has been received |
| Runtime.InvKept | src/backend/runtime/nir_bridge.c:1214-1359 | every step of every thread keeps the invariant, also while the caller of a parallel loop runs chunks itself, nested in any depth, and the workers run on |
| Runtime.ReferencesConserved | include/backend/runtime/prototypes.h:579-593 | in every state of every interleaving a count is the number of owners, the owners are exactly the variables, queued messages, thread slots and chunks, an object is freed once when nobody owns it and never before |
| Runtime.VariablesFollowTheProgram | src/backend/runtime/nir_bridge.c:1214-1435 | in every run a variable changes only by the steps of its own thread that assign to it, drop it or give it away, and then holds what they say |
| Runtime.SendQueuesTheVariable | src/backend/runtime/nir_bridge.c:1404-1413 | in every run `send` queues what its variable holds, which the variable keeps, and counts one reference more |
| Runtime.ReceiveReturnsTheMessage | src/backend/runtime/nir_bridge.c:1429-1435 | in every run `recv` puts the message sent at its place into the variable; the reference that the channel held is gone, the count is unchanged, and nothing is freed |
| Runtime.JoinReturnsTheBodysResult | src/backend/runtime/nir_bridge.c:1251-1259 | with one joiner per id, `join` hands out exactly what the body of that spawn returned, and once |
| Runtime.LoopLeavesNoReference | src/backend/runtime/nir_bridge.c:1278-1359 | when a parallel loop returns, the reference of each of its chunks has been given back; what is left belongs to loops around it |
| Runtime.CallersClosureIsLive | src/backend/runtime/nir_bridge.c:1343-1355 | while the caller of a parallel loop runs a chunk itself, the closure is live and held by the variable it was called with, whatever the chunk and the workers do |
| Progress.ThreadsGoOn | src/backend/runtime/nir_bridge.c:1214-1435 | in every state of every run each thread has ended, or has a next step, or waits for a message, for a lock whose holder has a next step, or, in `join`, for a body that has not ended |
| Progress.StuckIsWaiting | src/backend/runtime/nir_bridge.c:1251-1259 | when no thread has a next step, each that has not ended sleeps in `recv` on a channel from which everything sent has been received, or joins a body that has not ended: the runtime adds no deadlock of its own |
| Progress.InChannelGoesOn | src/backend/runtime/nir_bridge.c:1404-1435 | in a channel a thread has a next step, or sleeps, or waits for the lock, whose holder has one |
| Progress.SpawningGoesOn | src/backend/runtime/nir_bridge.c:1225-1248 | in `spawn` a thread has a next step, whether or not the new thread can be created |
| Progress.JoiningGoesOn | src/backend/runtime/nir_bridge.c:1214-1259 | a body that has returned gives its closure up, and `join` goes on once it has |
| Progress.ParallelGoesOn | src/backend/runtime/nir_bridge.c:1300-1359 | in a parallel loop each chunk that holds a reference can be given to a worker or given up, or has a worker that has not ended; and when none does, the loop can return |
| ParallelFor.Run | src/backend/runtime/nir_bridge.c:1300-1359 | the chunks given to threads and those run by the caller tile `[0, total)` for every number of workers and every first failing thread; nothing is run by the caller unless a thread failed; the closure's count is unchanged |
| ParallelFor.Workers | src/backend/runtime/nir_bridge.c:1310-1319 | between 1 and 8 workers, no more than iterations, and the smallest of cpus, 8, total and free slots |
| ParallelFor.TilesCoverOnce | src/backend/runtime/nir_bridge.c:1291-1294 | in a tiling every index of the range lies in exactly one chunk and no other index in any |
| ParallelFor.EveryIterationOnce | src/backend/runtime/nir_bridge.c:1291-1294 | every iteration runs exactly once, on a thread or on the caller |
| ValueStore.Store.FindSlot | src/backend/runtime/nir_c_ffi.c:261-267 | the slot of the name, or -1 exactly when the store binds no such name |
| ValueStore.Store.Get | src/backend/runtime/nir_c_ffi.c:270-275 | the last value set for the name with one new reference for the reader, or nothing; the bindings do not change |
| ValueStore.Store.Set | src/backend/runtime/nir_c_ffi.c:278-299 | the store binds the name to the value and otherwise what it bound before; the slot holds exactly one reference, the assignment one, the old value's is gone, also when both are one object; a failed reallocation changes nothing |
| ValueStore.Store.Grow | src/backend/runtime/nir_c_ffi.c:283-289 | capacity goes 0, 32, 64 and on, only when full, and keeps the slots |
| ValueStore.BindingsUpdate | src/backend/runtime/nir_c_ffi.c:296-297 | writing a named slot's value rebinds that name and no other |
| ValueStore.HandOverConserves | src/backend/runtime/nir_c_ffi.c:294-297 | the slot takes over the stored reference and its old one is given back, with counts equal to owners |
| Statements.ExecSound | src/backend/nir/NIRGenerationContext.cpp:57-71 | running a block, as the language means it or as it is generated, changes no name outside those it writes, and at a normal end exactly the expected names are visible |
| StatementLaws.SequenceIff | src/backend/nir/passes/LowerNarvalControlFlowPass.cpp:431-465 | one block after another ends as the first does where that is left by a jump, and otherwise as the second does from there; in both ways to run |
| StatementLaws.EndsJump | src/backend/nir/passes/LowerNarvalControlFlowPass.cpp:431-465 | a `break`, a `continue` and a `return` end the block that they stand in, and nothing else happens |
| StatementLaws.IfIff | src/backend/nir/codegen/statements/nir_if_stmt.cpp:238-401 | the language: a conditional ends as its branch does in a scope of its own, which keeps the outer names with their values and leaves a jump as it is |
| StatementLaws.MatchIff | src/backend/nir/codegen/statements/nir_match_stmt.cpp:101-125 | the language: a match ends as the first arm that matches does in a scope of its own, and does nothing if none matches |
| StatementLaws.DeferIsLast | src/backend/nir/codegen/statements/nir_defer_stmt.cpp:14-33 | the language: where no jump is in sight, deferring statements is putting them last, in a scope of their own |
| StatementLaws.DeferBeforeJump | src/backend/nir/codegen/statements/nir_defer_stmt.cpp:14-33 | the language: deferred statements run before a jump that ends the block |
| LoopLaws.LoopTurns | src/backend/nir/codegen/statements/nir_while_stmt.cpp:20-112 | a loop whose condition does not hold does nothing; another one runs its body, and then is run again, after a normal end or a `continue`, or is over, after a `break`, or is left, after a `return`; in both ways to run |
| LoopLaws.ContinueIsTheEnd | src/backend/nir/codegen/statements/nir_continue_stmt.cpp:5-16 | a loop with a `continue` at the end of its body has the outcomes of the loop without it; in both ways to run |
| LoopLaws.BreakIsOneTurn | src/backend/nir/codegen/statements/nir_break_stmt.cpp:5-17 | a loop that begins, with a `break` at the end of a body without other jumps, is one run of the body; in both ways to run |
| LoopLaws.WhileIsIf | src/backend/nir/codegen/statements/nir_while_stmt.cpp:20-112 | the language: `while c { b }` has the outcomes of `if c { b; while c { b } }` where b has no jump and declares nothing |
| LoopLaws.ForTurns | src/backend/nir/codegen/statements/nir_for_stmt.cpp:186-366 | a `for` runs its body for the first element, and goes on with the others after a normal end or a `continue`; in both ways to run |
| LoopLaws.ForNothing | src/backend/nir/codegen/statements/nir_for_stmt.cpp:186-366 | over no elements a `for` is its `else` in the language, and nothing as generated |
| LoopLaws.ForSplits | src/backend/nir/codegen/statements/nir_for_stmt.cpp:186-366 | the language: a `for` over some elements and then others is the `for` over the first ones and then, if that was not left, over the others, with the `else` at the end |
| LoopCarried.AssignedIn | src/backend/nir/codegen/nir_codegen_utils.hpp:39-101 | the list has no duplicates, holds exactly the names that the visited statements assign, in the order of first assignment |
| LoopCarried.WalkersReadTheText | src/backend/nir/codegen/nir_codegen_utils.hpp:39-101 | the loops' walker finds the names of the assignments in the text of a block, in the order of the text, leaving out the deferred parts; that of the conditional leaves out every `defer`; both leave out increments |
| LoopCarried.AddedTwice | src/backend/nir/codegen/nir_codegen_utils.hpp:41-44 | adding the names of two parts one after the other is adding those of both together, so nested walks may share one list |
| LoopCarried.OnlyListedNamesChange | src/backend/nir/codegen/nir_codegen_utils.hpp:30-38 | where the walker lists all that a block writes, execution changes no name outside `nir_assigned_in` |
| LoopCarried.CarryingSuffices | src/backend/nir/codegen/statements/nir_while_stmt.cpp:20-112 | every covered block ends, as generated, with the outcome that the language gives it: loops, conditionals, matches and deferred parts nested in any way, over any semantics of expressions; what the language gives it is said in StatementLaws and LoopLaws |
| LoopCarried.CarryingSufficesFor | src/backend/nir/codegen/statements/nir_for_stmt.cpp:186-366 | the same for a `for`, over every list of elements, if it has no `else` and the body does not assign a binding that hides a visible name |
| LoopCarried.CarryingSufficesIf | src/backend/nir/codegen/statements/nir_if_stmt.cpp:238-401 | the same for a conditional, whether it is generated as a region with results or as selects |
| LoopCarried.CarryingSufficesMatch | src/backend/nir/codegen/statements/nir_match_stmt.cpp:101-125 | the same for a match whose arms write nothing visible around it |
| LoopCarried.CarryingSufficesDefer | src/backend/nir/codegen/statements/nir_defer_stmt.cpp:14-33 | the same for a `defer` whose deferred statements write nothing visible around it |
| BranchSelects.SelectedIsRun | src/backend/nir/codegen/statements/nir_if_stmt.cpp:182-229 | the selects of a conditional give the visible names the values that its branch gives them, if on every path through the branch tests read nothing set before them and the last value of each name reads only what is selected before it and settled, or untouched |
| SelectLimits.SelectIff | src/backend/nir/codegen/statements/nir_if_stmt.cpp:386-400 | for two branches of assignments, the selects do what the taken branch does, whatever its expressions compute from what they read, if and only if in both the last value of each visible name reads only what is selected before it and settled, or untouched |
| SelectLimits.SecondUpdateForgetsFirst | src/backend/nir/codegen/statements/nir_if_stmt.cpp:386-400 | `if c { x = x + 1; x = x * 2 }` as selects forgets the first assignment |
| CodegenLimits.MatchIff | src/backend/nir/codegen/statements/nir_match_stmt.cpp:101-125 | a match over chains (assignments, increments and deferred ones, nested) has the outcome of the language, whatever the expressions compute from what they read, if and only if no arm writes a name that is visible around it |
| CodegenLimits.MatchLoopRunsForever | src/backend/nir/codegen/statements/nir_match_stmt.cpp:105-112 | `while x == 0 { match 1 { _ => x = 1 } }`, as generated, runs out of every number of steps |
| CodegenLimits.LoopIff | src/backend/nir/codegen/statements/nir_while_stmt.cpp:20-112 | a loop around a chain has the outcome of the language, whatever the expressions compute from what they read, if and only if no visible name is lost (written by a deferred statement, or not listed by the walker) or the condition reads no visible name that the body writes |
| CodegenLimits.RunsForever | src/backend/nir/codegen/statements/nir_while_stmt.cpp:20-112 | a loop that has begun, and whose condition reads nothing that a turn hands on, runs out of every number of steps |
| CodegenLimits.WaitsForever | src/backend/nir/codegen/nir_codegen_utils.hpp:79-95 | so does a generated loop that waits for a name which the walker does not list |
| CodegenLimits.ListedDeferRunsForever | src/backend/nir/codegen/statements/nir_defer_stmt.cpp:14-33 | so does `while x == 0 { defer { x = 1 }; x = 0 }`, where the walker lists the name, and the loop of the language ends |
| CodegenLimits.IncrementRunsForever | src/backend/nir/codegen/expressions/nir_post_increment.cpp:19-22 | so does `while x == 0 { x++; }`, whatever `++` makes of `x` |
| CodegenLimits.IncrementIsLost | src/backend/nir/codegen/expressions/nir_post_increment.cpp:19-22 | `if c { x++; }` leaves every name as it was |
| CodegenLimits.ConditionalIff | src/backend/nir/codegen/statements/nir_if_stmt.cpp:136-180 | a conditional over chains that does not become selects has the outcome of the language, in the same sense, if and only if in neither branch a deferred statement writes a visible name, and the walker of the conditional, which stops at a `defer`, collects every visible name that is written |
| CodegenLimits.ForIff | src/backend/nir/codegen/statements/nir_for_stmt.cpp:306-366 | a `for` over chains has the outcome of the language, in the same sense, if and only if its body does not assign a binding that hides a visible name and loses nothing else, and its `else` writes nothing visible |
| CodegenLimits.ElseIsNotRun | src/frontend/parser/statements/parse_for_stmt.cpp:87-92 | the `else` of a `for` over nothing, which the parser accepts, leaves the name that it assigns as it was |
| Folds.LeftInverseIsRightInverse | src/backend/nir/NarvalOps.cpp:274-280 | outer after inner being the identity, as the pattern tests, implies inner after outer being it, as the meaning needs, and that both are permutations |
| Folds.ComposedIsIdentity | src/backend/nir/NarvalOps.cpp:274-280 | the two loops decide whether the composition is the identity |
| Folds.PermutationHitsAll | src/backend/nir/NarvalOps.cpp:270-276 | an injection of 0..n into itself hits every number below n |
| Folds.DoubleTransposeIff | src/backend/nir/NarvalOps.cpp:265-287 | for two permutations the pattern applies exactly when the two transposes are the identity on every tensor of that rank |
| Folds.TransposesCompose | src/backend/nir/NarvalOps.cpp:265-287 | two transposes are the transpose by `inner[outer[i]]`, whatever the permutations |
| Folds.ZeroAddsNothing | src/backend/nir/NarvalOps.cpp:197-217 | adding a tensor of the same shape, filled with a zero constant, gives the left operand |
| Folds.FoldKeepsValue | src/backend/nir/NarvalOps.cpp:56-145 | each registered pattern leaves the value of the operation it replaces, which for a compile-time call is that of its attribute `value`, or of `result` where it has no `value`; and it lowers the measure |
| Folds.RewriteKeepsValue | src/backend/nir/NarvalOps.cpp:193-293 | a pattern applied anywhere inside an expression leaves the value of the whole and lowers its measure |
| Folds.RewritingStops | src/backend/nir/NarvalOps.cpp:142-145 | in whatever order and wherever the patterns are applied, all expressions on the way have the first one's value and there are at most as many as its measure |
| Folds.SimpleIff | src/backend/nir/NarvalOps.cpp:56-145 | no pattern applies anywhere in an expression if and only if it holds no move of a move or of a borrow, no zero fill on the right of an addition, no two transposes that undo each other, no compile-time constant, and no compile-time call of one result with an attribute that holds it |
| Folds.SimpleFormExists | src/backend/nir/NarvalOps.cpp:142-145 | every expression can be rewritten to one to which no pattern applies, and which has its value |
| Folds.OrderMatters | src/backend/nir/NarvalOps.cpp:109-145 | which one that is can depend on the order: a move of a move of a borrow becomes what is borrowed, or a move of it |
| Modules.WalkIff | src/frontend/module_manager.cpp:169-219 | the walk returns normally if and only if no path of imports comes back to itself or to `visited`, none ends at a missing module, and no name is asked for after another one whose file is registered under it; it has then loaded the files it asked for, and left in `visited` their names where they were asked for by others |
| Modules.OnlyStraysStay | src/frontend/module_manager.cpp:169-219 | a normal return leaves in `visited` what was there and exactly the names that a file it came to is registered under though it was asked for by another one |
| Modules.VisitedRestoredIff | src/frontend/module_manager.cpp:169-219 | so `visited` is restored if and only if every file that the module leads to is asked for by the name it declares, or by another one while that name is visited anyway |
| Modules.StrayLooksLikeCycle | src/frontend/module_manager.cpp:174-179 | one module asked for under two names is reported as a cycle |
| ImportOrders.OrdersIff | src/frontend/module_manager.cpp:183-216 | whatever the order in which the files make their requests, the walk returns normally, if and only if its start is clean and no file that it leads to is asked for by two names |
| ImportOrders.FrontAsksFirst | src/frontend/module_manager.cpp:183-216 | with the requests that lead to one name in front, it is asked for before any other name that does not lead to it |
| Modules.ErrorIsReal | src/frontend/module_manager.cpp:170-193 | an error names a module that imports really lead to: one on the way or a missing one; or else it is a cycle reported for a name that is asked for while another name's file is registered under it |
| Modules.NamedOnceIsReal | src/frontend/module_manager.cpp:170-193 | where no file is asked for by two names every reported cycle is one |
| Modules.LoadsWhatItReaches | src/frontend/module_manager.cpp:34-81 | a normal return has loaded exactly the modules it can reach besides those loaded before, and what it loaded under a name is a file that declares it |
| Modules.AllKeptIff | src/frontend/module_manager.cpp:34-81 | after a normal return every file that the module leads to is registered under its name if and only if no two different ones declare the same name |
| Modules.HiddenIsLost | src/frontend/module_manager.cpp:34-81 | a file that imports one which declares its own name is replaced by that one among the modules, and the walk returns normally |
| Modules.CleanStep | src/frontend/module_manager.cpp:183-216 | a module is clean exactly when it is unvisited, present, and everything it goes on to is clean with it visited |
| Modules.RequestsIff | src/frontend/module_manager.cpp:183-213 | a module asks for exactly the names that its imports and its older dependencies spell, without their quotes |
| Modules.ImportsAskedFirst | src/frontend/module_manager.cpp:183-213 | first for every import in order, and then only for dependencies that no import covers |
| Modules.WalkWithoutFile | src/frontend/module_manager.cpp:43-60 | a name without a file: a runtime module is registered with no contents and the walk returns normally, any other name cannot be read |
| Merging.ModuleManager.LoadModule | src/frontend/module_manager.cpp:34-81 | what is registered and under which name: cached, from a file, virtual, or not at all |
| Merging.ModuleManager.ResolveDependencies | src/frontend/module_manager.cpp:169-219 | terminates on every disk, and the fields and the error are those of the walk function |
| Merging.ModuleManager.CompileModule | src/frontend/module_manager.cpp:225-252 | the prelude modules that have a file are loaded, then the main module is resolved from nothing visited |
| Merging.ModuleManager.ProcessModule | src/frontend/module_manager.cpp:303-438 | without import circles it terminates within a call for each module, and what is merged is what the recursion over the imports merges |
| Merging.ModuleManager.GetCombined | src/frontend/module_manager.cpp:440-460 | the calls for the prelude, the main module and then every module; what they merge is what the recursion merges: each module once, and every loaded module that an import names, by its path, before the importer |
| Combining.ChainIsMerged | src/frontend/module_manager.cpp:311-332 | when imports come first, everything a merged module needs is merged |
| Combining.MergeEndsIff | src/frontend/module_manager.cpp:311-336 | merging every loaded module comes to an end if and only if no imports lead in a circle, and then one call more than there are modules is deep enough |
| Combining.CombinedOrder | src/frontend/module_manager.cpp:440-460 | every module is merged exactly once, each import before its importer, the prelude first, then the main module with what it needs, then the rest; exactly the main module is marked as such unless the prelude needs it |
| ImportPaths.BaseNameIff | src/frontend/module_manager.cpp:315-327 | the name that the merge cuts out of a path is `b` if and only if the path is `b`, after directories or not, before an extension or not |
| ImportPaths.SpelledIsUnquoted | src/frontend/module_manager.cpp:313 | an import spelled with or without quotes stands for its path |
| ImportPaths.ImportsByPathFirst | src/frontend/module_manager.cpp:311-332 | where imports come first, every loaded module whose name stands in an import path, as `b`, `d/b`, `b.e` or `d/b.e`, quoted or not, is merged before the importer |
| Combining.MergeOneAdds | src/frontend/module_manager.cpp:303-336 | one call merges only the module and what it needs, each once, and marks nothing but the module itself as the main one |
| Merging.ResolvedIsMergeable | src/frontend/module_manager.cpp:225-252 | after a normal resolution the loaded modules have no import circle if and only if none starts at a module loaded beforehand; with no prelude there is none |
| Merging.CompiledEndsIff | src/frontend/module_manager.cpp:225-252 | after a normal resolution with the prelude loaded, the merge comes to an end if and only if no prelude module starts a circle of imports |
| Merging.PreludeEscapesCycleCheck | src/frontend/module_manager.cpp:243-251 | a circle among the loaded prelude modules passes the resolution of a program that imports nothing, and the merge then runs out of every depth of calls |
| Merging.PreludeCircle | src/frontend/module_manager.cpp:243-251 | in particular when `strings` and `grammar` import each other |
| Merging.MutualImports | src/frontend/module_manager.cpp:303-332 | two modules that import each other by bare name are such a circle |
| Power.IntegerPower | src/backend/runtime/nir_bridge.c:176-189 | if the power fits in 64 bits the loop returns it, and neither `result` nor `factor` leaves 64 bits on the way |
| Power.LowerPowersFit | src/backend/runtime/nir_bridge.c:182-186 | where a power fits, every lower power of the base fits |
| Power.LastSquareMayNotFit | src/backend/runtime/nir_bridge.c:185 | without the guard a power that fits would overflow on the last squaring |
| Power.PowersOfTwoFit | src/backend/runtime/nir_bridge.c:176-189 | of the powers of 2 those up to the 62nd fit in 64 bits, of the powers of -2 those up to the 63rd |
| FlatIndex.TensorFlatIndex | src/backend/runtime/nir_bridge.c:365-380 | at most the first four coordinates count, and none past the rank: with as many as there are dimensions, up to four, the offset leads back to the coordinates; it is the offset of every element that agrees with them in the first four; and for a negative or no number of them it is 0 |
| FlatIndex.FlatIsBijection | src/backend/runtime/nir_bridge.c:360-364 | with one coordinate per dimension, in-bounds coordinates correspond one to one to the offsets below the number of elements |
| FlatIndex.PrefixStartsBlock | src/backend/runtime/nir_bridge.c:374-378 | with fewer coordinates the offset is the first of the addressed sub-block, whose elements are the offsets that follow |
| FlatIndex.OffsetsDistinctIff | src/backend/runtime/nir_bridge.c:374 | in a tensor of any rank distinct elements get distinct offsets if and only if every dimension past the fourth is 1 or some dimension is 0 |
| FlatIndex.RankFiveSharesOffsets | src/backend/runtime/nir_bridge.c:374 | the two elements of a 1x1x1x1x2 tensor share offset 0 |
| FunctionTypes.CreateFunctionTypeString | src/frontend/checker/type.cpp:126-134 | the printed parameters with separators between them, between bars, and the result type |
| FunctionTypes.ParseFunctionType | src/frontend/checker/type.cpp:69-123 | the type strings of the parsing function, or its first error |
| FunctionStrings.TrimIff | src/frontend/checker/type.cpp:99-111 | trimming takes away all spaces and tabs at both ends, and nothing else |
| FunctionStrings.PieceIs | src/frontend/checker/type.cpp:97-116 | a blank piece of the list gives no type; one without a colon is the error that names it, trimmed; any other gives what follows its first colon, trimmed |
| FunctionStrings.FirstErrorCounts | src/frontend/checker/type.cpp:104-107 | the first piece with an error is the one that is reported |
| FunctionStrings.BarsIff | src/frontend/checker/type.cpp:64-79 | a string is no function type if and only if it is shorter than two characters or does not start with a bar; its format is invalid if and only if it has no other bar |
| FunctionStrings.ReturnTypeIff | src/frontend/checker/type.cpp:81-88 | the return type is missing if and only if the string is not of the form `|params|:result`, with no bar in the result |
| FunctionStrings.ParsedForm | src/frontend/checker/type.cpp:81-123 | a string of that form gives the result and the types between the commas, or the first error among them |
| FunctionTypes.RoundTripIff | src/frontend/checker/type.cpp:69-134 | parsing what was printed gives exactly the parameter types in order and the result type if and only if the result has no bar and each parameter has a trimmed type without commas and a name without colons and with only blanks before a comma |
| FunctionTypes.ResultReadAsParameter | src/frontend/checker/type.cpp:74-83 | a printed function without parameters that returns a function of one parameter is read as a function of that parameter, with a bar before its type |
| FunctionTypes.FunctionResultIsLost | src/frontend/checker/type.cpp:69-134 | a function that returns a function does not survive printing and parsing, whatever the parameters of either |
| FunctionTypes.ReturnsFunction | src/frontend/checker/type.cpp:74-83 | in particular a function that returns a function from int to int |
| FunctionTypes.OneParameter | src/frontend/checker/type.cpp:97-116 | a printed parameter yields at least one type, and its own alone exactly under those conditions |
| FunctionTypes.PiecesAreSplit | src/frontend/checker/type.cpp:97-102 | the trailing empty piece that `getline` leaves out would yield nothing |
| FunctionTypes.PlainSurvives | src/frontend/checker/type.cpp:126-134 | in particular parameters with plain names and trimmed comma-free types survive, whether or not they contain bars |
| SemanticTokens.Encode | src/lsp/semantic_tokens.cpp:514-543 | five numbers a token; decoding them gives an ordered permutation of the tokens; the position numbers are non-negative exactly when the tokens' positions are |
| SemanticTokens.DecodesToTokens | src/lsp/semantic_tokens.cpp:525-540 | decoding the deltas of any tokens, ordered or not, gives them back |
| SemanticTokens.DeltasNonNegativeIff | src/lsp/semantic_tokens.cpp:515-529 | the position numbers are non-negative exactly when the tokens are in order and at non-negative positions, which is what the sort is for |

## Left out

- Unification.UnificationContext.Unify: stops before a link that closes a circle, since from there on the types are infinite and the code need not end; it then says which link, with no unifier for the types. For two maps or two schemes with variables it says when they are refused, not whether a unifier exists.
- One object per type variable: the links are a map from id to type. `TypeVar::substitute` and the checks that reuse the next id make further objects with the same id, whose links would be separate; what is said of such ids is that they coincide.
- Unification.UnificationContext.Instantiate: for bodies with quantifiers or with variables in tensor elements it is the walk of `substitute`, not a substitution into the resolution. The table `type_vars` is not modelled, nothing reads it.
- Declarations.CheckFunction: the names that the body puts into the scope are given, and so are the links its checks have made; the defaults of parameters are not part of this model. Parameters and result have no quantifiers inside.
- Class and interface types are compared by name only, as `equals` does; subclassing, methods and prototypes are not part of this model.
- Channel.RunsAreFifoWithoutLostWakeups: the lock and the condition variable are taken as POSIX describes them, a signal waking at least one waiter and spurious wakeups allowed; memory is sequentially consistent.
- Runtime.ReferencesConserved: objects are leaves, since the deallocators that release a container's children are not part of this model; allocation failure in `send` and freeing of channels, which the code never does, are not modelled.
- Runtime.JoinReturnsTheBodysResult: assumes that one thread joins an id, as the code itself does; two joiners of one id race on the slot.
- Progress.ThreadsGoOn: says that there is a next step, not that the scheduler ever takes it; nor that a closure or a loop body that runs in the program's own code comes to an end.
- Free thread and channel slots are chosen freely where the code takes the first one, and the caller of a parallel loop may run chunks at any time, not only when no thread could be created.
- Thread bodies and closures are arbitrary steps of the program; `nv_invoke_closure` and its calling convention are not modelled.
- ParallelFor.Run: the work inside a chunk is not run; each started thread gives its reference back by the time it is joined.
- ValueStore.Store.Set: slot numbers are unbounded, so the doubling of the capacity beyond `int` is not modelled.
- LoopCarried.CarryingSuffices: expressions have no effects, so an increment is modelled where it is a statement, not inside a larger expression; and statements without names of their own (calls, prints) do nothing to the store; what a `return` leaves is not compared; which deferred statements run on a jump out of several blocks does not matter for it, as covered ones write nothing visible. The condition is sufficient for all blocks; it is exact for the shapes of CodegenLimits and SelectLimits.
- CodegenLimits.LoopIff: exact for assignments, increments and nested defers, as are CodegenLimits.ConditionalIff, CodegenLimits.MatchIff and CodegenLimits.ForIff; for other bodies the condition is sufficient only, since code after a `break` may violate it harmlessly. An expression does not occur twice in a program, whatever it is spelled like.
- SelectLimits.SelectIff: exact for branches of assignments; for branches with conditionals inside, BranchSelects.SelectedIsRun is one way, since two tests may exclude each other.
- Folds.RewritingStops: expressions are trees, so one operation used twice is two subtrees; tensor elements are exact numbers, so the sign of a floating-point zero and rounding are not modelled; that a compile-time call's attribute is its result is assumed, as the dialect describes it.
- Modules.WalkIff: assumes that no file leads to a different file which declares the name the first one is asked for by, and that what was loaded beforehand under a name on the way is the file that it stands for; Modules.HiddenIsLost is what happens otherwise. Which file a name finds does not depend on the importing directory here.
- ImportOrders.OrdersIff: the orders are those of all requests of a file; the code makes those of its import statements before those of its older dependency list.
- Merging.CompiledEndsIff: assumes besides that files it reaches are registered under different names and that import paths have the base name of the file they find.
- Merging.ModuleManager.GetCombined: requires loaded modules without an import circle, on which the code would not terminate (Combining.MergeEndsIff); which statements of a module survive the merge, and the sets of imported symbols, are not modelled; modules are parsed. The rest of the modules come in any order instead of by name.
- FlatIndex.TensorFlatIndex: dimensions and offsets are unbounded integers; overflow of the number of elements is not modelled.
- Power.IntegerPower: the branches for floats and negative exponents go through `pow`, which is not part of this model.
- FunctionTypes.ParseFunctionType: the resolver is not applied; the result is what it would be applied to.
- SemanticTokens.Encode: integers are unbounded, which matters only for negative positions.
- Lexer tables, the parser, most checks, MLIR and LLVM lowering, the JIT, GPU code, the language server's transport and the token classifiers: thin or without a specification to prove.
