# Verified model of the analysis core

A model, in Dafny, of the algorithms every rule of the engine rests on, with proofs of what
they answer. The parts that change state are classes and methods with loops, in the shape the
program gives them; each is proved against a specification that says what its answer means,
and the lemmas beside it say what the answers are worth.

* **Control flow.** `Cfg.dfy` holds the graph of one function. Its questions are specified over
  all paths of an arbitrary finite digraph (`Paths`, `Dominance`, `Loops`), and the in-place
  fixpoint loops and worklists are proved to answer them (`Dataflow`, `Worklist`). Nothing is
  assumed of the blocks: a repeated id, a successor that is no block, an entry that is no block
  and a block that never leaves the function are all covered. `Branches` relates the questions to
  one another and to runs. `ReachDef`, `Guard` and `Conjuncts` are clients.
* **The template join.** `Rebinding` is the algebra of renamings, `Fingerprint` the string a
  renaming is remembered by, `ViewGraph` a view's own graph, `Growth` exactly when that graph is
  walked in finitely many ways, `Trails` what the includes on the way accumulate, `Views` the
  walk, `Sinks` what a sink adds and what a run of them keeps of the program, `Join` the writer,
  and `Mapping` the bounded search for the names a mapping carries.
* **The backtracking scanner.** `Regex` is a syntax tree with a printer, `Scanner` the scans of
  the program, `Scanning` and `Anchoring` the proof that the scans read the tree, `Groups` what
  the scan answers on text no tree is written as, `Cutting` what it answers for a pattern it has
  cut, `Redos` the statement of all, and `Language` what a body matches and when a body the scan calls anchored
  really divides every input in at most one way.
* **Smaller algorithms.** `Bench` (greedy scoring), `Packing` (pairing and greedy packing),
  `Presence` (comparisons that a missing operand skips).

`Tally`, `Chains` and `Places` hold helpers.

## Where the code and its description part

* Composing renamings is described as keeping every name meaning what it meant. It does, except
  where an inner name stands for a path that ends in its first dot and the outer renaming
  renames that path's root: `Rebinding.ComposeActs` says exactly when, `ClashExample` shows it.
* A view that includes itself under a lengthening renaming is walked for ever
  (`Growth.TreeIsInfinite`). There are finitely many pairs to walk exactly when no name, among
  the views its links lead to, comes round to itself along an include that reads a field of it
  (`Growth.FiniteExactly`).
* Two renamings can share a fingerprint when a name holds `=` or a path holds `;`
  (`Fingerprint.FingerprintCollides`). Any renaming of two or more entries shares its own with
  one of a single entry; exactly those, and those with `=` in their one entry, share it with some
  other (`Fingerprint.SharedExactly`). No two renamings without `=` in names and `;` in paths
  share one (`Fingerprint.FingerprintInjective`).
* The scanner takes a lookbehind for a group name and looks for `>` beyond it. With a `>` later
  in the pattern it reads the wrong body, or cuts a body that starts past its end and crashes
  (`Redos.LookbehindCrashes`). `Scanning.ScanReadsTheTree` gives the answer for every tree,
  those included, and `Scanning.ScanSettles` says when it is which.
* A slash in a pattern that is not written as a literal cuts the pattern (`Redos.SlashCuts`). The
  answer is then that of the groups that close before the last slash, each as it reads in what is
  left (`Cutting.SlashedPattern`); groups the cut leaves open settle nothing.
* A parenthesis inside a class, in a group the walk to a marker skips, hides the marker
  (`Redos.ClassHidesMarker`), exactly when it does not cancel out (`Anchoring.AtomEndIs`).
* A choice of different single characters is described as matching each character in one way.
  Branches are compared as they are written, so classes and escapes that overlap pass as well:
  `[ab]|[bc]` matches `b` in two (`Redos.OverlapPasses`). A choice the scan calls anchored matches
  every input in at most one way exactly when none of its branches can match nothing and no two
  accept one character (`Redos.AnchoredChoiceMatchesOnceExactly`); where all are literal
  characters that is what the test decides (`Redos.DistinctMatchesOnce`).
* Beginning with a marker is described as leaving exactly one way to divide an input. It does
  when the marker takes one or more characters, always as many, when nothing else in the body
  uses them, and when no end of the body can be taken for its beginning
  (`Language.MarkedDividesOnce`), and for a large class of bodies only then
  (`Language.OmittableDividesOnceExactly`). `aa*`, `a*\.a*`, `a{1,2}` and `x{0,1}a+` are called
  anchored and divide in two ways (`Language.AnchoredCanDivideTwice`); in the last two the bounded
  braces are read as matching exactly once.
* A possessive quantifier is written with a plus, and counts as a repetition inside a group.

## Model

| member | source | states |
|---|---|---|
| Cfg.Build | core/internal/cfg/cfg.go:27-51 | a graph exactly when there are blocks and an entry is named, in a state where every question below is answered right |
| Cfg.Graph.constructor | core/internal/cfg/cfg.go:32-51 | the last block of each id is kept, predecessors mirror successors, post-dominators are built |
| Cfg.Graph.LinkPredecessors | core/internal/cfg/cfg.go:42-48 | b is listed before s exactly when s is a block and b leads to it; dangling successors are left out |
| Cfg.Graph.ComputePostDominators | core/internal/cfg/cfg.go:67-128 | the loop over all blocks ends, and a is left in the set of n exactly when every path from n out of the function passes a |
| Cfg.Graph.StepPostDominators | core/internal/cfg/cfg.go:91-124 | one update removes only what some path misses, and reports a change exactly when the set shrank |
| Cfg.Graph.PostDominates | core/internal/cfg/cfg.go:130-136 | every path from the block out of the function passes a, vacuously where none leaves |
| Cfg.Graph.ControlDependsOn | core/internal/cfg/cfg.go:144-158 | of two or more arms one makes the block unavoidable and another does not |
| Cfg.Graph.SelectedBySuccessor | core/internal/cfg/cfg.go:169-187 | the target is reachable through the named arm and through no other |
| Cfg.Graph.IsGuard | core/internal/cfg/cfg.go:200-207 | two or more arms, and every other block is missed by some way out of the function |
| Cfg.Graph.AnyGuard | core/internal/cfg/cfg.go:221-228 | some candidate is a guard |
| Cfg.Graph.Dominates | core/internal/cfg/cfg.go:266-273 | b is reachable from the entry and every path there passes a; the same on the first call and on every later one |
| Cfg.Graph.Reachable | core/internal/cfg/cfg.go:281-284 | some path leads from the entry to b |
| Cfg.Graph.Reaches | core/internal/cfg/cfg.go:288-310 | one or more edges lead from one block to the other; the worklist ends |
| Cfg.Graph.Repetitions | core/internal/cfg/cfg.go:328-344 | the marked headers whose natural loop holds the block, in the frontend's order, each with its bound |
| Cfg.RepetitionsExact | core/internal/cfg/cfg.go:316-344 | a repetition is listed exactly for each marked header in whose loop the block is |
| Cfg.Graph.NaturalLoop | core/internal/cfg/cfg.go:349-373 | exactly the header and the reachable blocks that come round to a back edge without passing it; empty without a back edge |
| Cfg.Graph.Repeats | core/internal/cfg/cfg.go:376-378 | some marked header's loop holds the block |
| Cfg.Graph.ComputeDominators | core/internal/cfg/cfg.go:382-453 | built once, on first use, and right from then on |
| Cfg.Graph.SolveDominators | core/internal/cfg/cfg.go:401-453 | the loop ends, and a is left in the set of b exactly when a dominates b; unreachable blocks have no set |
| Cfg.Graph.CollectReached | core/internal/cfg/cfg.go:387-399 | exactly the blocks some path leads to from the entry |
| Cfg.Graph.DependsOnSuccessor | core/internal/cfg/cfg.go:459-473 | the named arm, and no other, makes the block unavoidable |
| Dataflow.StepNarrows | core/internal/cfg/cfg.go:91-125 | an update keeps everything unavoidable and, when it changes a set, shrinks the total: why both loops end |
| Dataflow.StableIsUnavoidable | core/internal/cfg/cfg.go:88-126 | sets no update changes, that hold everything unavoidable, hold nothing else: the greatest fixpoint is the meet over paths |
| Dataflow.DominanceReversed | core/internal/cfg/cfg.go:417-452 | dominance is post-dominance with the edges turned round, among the reachable blocks |
| Dominance.DomTransitive | core/internal/cfg/cfg.go:266-273 | dominance is transitive |
| Dominance.DomAntisymmetric | core/internal/cfg/cfg.go:266-273 | two blocks do not dominate each other |
| Dominance.DominatorsFormChain | core/internal/cfg/cfg.go:266-273 | of two dominators of a block one dominates the other |
| Dominance.PostDomUnfold | core/internal/cfg/cfg.go:95-119 | being unavoidable, in terms of being unavoidable from each known successor |
| Loops.HeaderDominatesLoop | core/internal/cfg/cfg.go:349-373 | the header dominates every block of its loop |
| Loops.LoopEnteredAtHeader | core/internal/cfg/cfg.go:349-373 | an edge into the loop from a reachable block outside it lands on the header |
| Loops.LoopsNest | core/internal/cfg/cfg.go:328-373 | two loops that share a block lie one in the other, as their headers dominate one another |
| Branches.RepetitionsNest | core/internal/cfg/cfg.go:328-344 | the repetitions listed for one block form a chain |
| Branches.RepetitionsInOrder | core/internal/cfg/cfg.go:316-344 | the repetitions are those of the places in the frontend's list, first to last, at which a marked header around the block stands, each with its bound |
| Branches.DecidesExactly | core/internal/cfg/cfg.go:144-158 | a branch decides a block exactly when an arm makes it unavoidable that the branch does not, or an arm leads nowhere known |
| Branches.TwoWayDecides | core/internal/cfg/cfg.go:144-158 | on a two-way branch, deciding is one unique arm making the block unavoidable |
| Branches.DecidedByItsArm | core/internal/cfg/cfg.go:455-473 | exactly when the named arm makes the block unavoidable, and each other one leads nowhere known or has a way out that misses it |
| Branches.GuardDecides | core/internal/cfg/cfg.go:189-207 | a guard decides every block one of its arms makes unavoidable |
| Branches.GuardsExactly | core/internal/cfg/cfg.go:189-207 | a branch is a guard exactly when it has two arms or more and no other block is on every way out from it |
| Branches.ReconvergenceIsNoGuard | core/internal/cfg/cfg.go:189-207 | a branch whose arms come back together is no guard |
| Branches.SelectedExactly | core/internal/cfg/cfg.go:160-187 | being selected is: the arm is named once, leads to the target, and every way there starts with it |
| Branches.SelectedOnEveryDeparture | core/internal/cfg/cfg.go:160-187 | on any path to the target every departure from the branch takes the arm |
| Branches.SelectedOnEveryRun | core/internal/cfg/cfg.go:160-187 | if the branch also dominates the target, every run has come through it and out of that arm |
| Branches.AnswersIgnoreOrder | core/internal/cfg/cfg.go:42-48 | the answers do not depend on the order of blocks or of predecessors |
| Branches.BlocksAreLast | core/internal/cfg/cfg.go:37-41 | of several blocks under one id the graph keeps the last |
| Branches.BlocksIgnoreOrder | core/internal/cfg/cfg.go:37-41 | with unique ids, nor does the graph itself |
| ReachDef.Reaches | core/internal/reachdef/reachdef.go:263-273 | the definition is dropped exactly when another certainly runs before the use and cannot be followed by it |
| ReachDef.DominatesUse | core/internal/reachdef/reachdef.go:282-292 | in one block: no cycle through it, and an earlier line; otherwise dominance |
| ReachDef.CanReach | core/internal/reachdef/reachdef.go:297-302 | a cycle through the block, or no later a line; otherwise one or more edges |
| ReachDef.KilledIsOverwritten | core/internal/reachdef/reachdef.go:256-273 | each time a dropped definition runs, on any run to the use, another one runs after it and before the use |
| ReachDef.LastDefinitionKept | core/internal/reachdef/reachdef.go:256-273 | the definition a run leaves for the use is never dropped |
| ReachDef.SomeDefinitionKept | core/internal/reachdef/reachdef.go:256-273 | a use a run reaches with the variable defined keeps a definition of that run |
| ReachDef.KilledExactly | core/internal/reachdef/reachdef.go:256-302 | by lines and runs, exactly when a definition is dropped: some other one is on an earlier line of the use's own block, which no path comes back to, or in another block every run to the use passes; and no path leads from that one on to this, nor is this on its line or below it |
| ReachDef.OverwrittenIsDropped | core/internal/reachdef/reachdef.go:282-302 | in a block no path comes back to, a definition written over before the use is dropped |
| ReachDef.DominatedIsDropped | core/internal/reachdef/reachdef.go:263-302 | across blocks, so is one after which some other definition, on every run to the use, comes with no way back |
| Guard.WorkAfter | core/internal/guard/guard.go:576-592 | a call is found exactly when another block that holds one is on every path out, and none of those is on an earlier line, or earlier on its line |
| Guard.WorkAlwaysRuns | core/internal/guard/guard.go:576-592 | that call's block comes later on every run out of the function |
| Guard.SameAssignedValue | core/internal/guard/guard.go:234-254 | assignments connect the two values, read in either direction: no set closed under them parts the two |
| Guard.SameValueIsPath | core/internal/guard/guard.go:234-254 | that is: a path of assignments, each read in either direction, leads from one to the other |
| Guard.SameValueSymmetric | core/internal/guard/guard.go:234-254 | which of the two is asked about does not matter |
| Guard.SameValueTransitive | core/internal/guard/guard.go:234-254 | and the relation chains |
| Conjuncts.Conjunctions.constructor | core/internal/decision/skipped.go:36-65 | the two maps are the operand relation of the "both" values, read up and read down |
| Conjuncts.Conjunctions.ReadsTheLists | core/internal/decision/skipped.go:36-65 | off the function's own lists: an operand is what an assignment puts into a value whose last entry is called "both", and a comparison's value is the last one of that name written at its place |
| Conjuncts.Conjunctions.Enclosing | core/internal/decision/skipped.go:72-87 | exactly the conjunctions above the comparison |
| Conjuncts.Conjunctions.Expand | core/internal/decision/skipped.go:88-107 | exactly the operands below those, through nested conjunctions |
| Conjuncts.Conjunctions.Operands | core/internal/decision/skipped.go:67-110 | exactly the other values under some conjunction above the comparison |
| Conjuncts.OperandsAreWhatMustHold | core/internal/decision/skipped.go:67-110 | where each conjunction is the "and" of its operands, the comparison and its operands all hold exactly when every conjunction above it does |
| Conjuncts.AbsentOperandSkips | core/internal/decision/skipped.go:112-126 | one false operand makes some conjunction above the comparison false, and all above that one |
| Conjuncts.Conjunctions.FalseOperandSkips | core/internal/decision/skipped.go:67-126 | so does any false operand among those found |
| Conjuncts.RejectsWhenTrue | core/internal/decision/skipped.go:207-224 | some throw is reachable through the arm on which the comparison held, and through no other |
| Presence.Denotation | core/internal/decision/skipped.go:173-187 | the loop names the fields read, outermost root first, through at most eight reads |
| Presence.DenotationTellsApart | core/internal/decision/skipped.go:168-187 | without NUL in names, two values have one denotation exactly when they read the same fields of one root |
| Presence.ReadingGoesBack | core/internal/decision/skipped.go:173-187 | what a value denotes is what it comes to when it is read back through properties, eight at most, as far as they go |
| Presence.SkippedByOperandPresence | core/internal/decision/skipped.go:126-156 | found exactly when each operand has another value under a conjunction above the comparison that is it, or asks whether it differs from nothing |
| Presence.PresenceTestsAre | core/internal/decision/skipped.go:126-166 | a test of presence is a value that reads the thing, or a comparison, by an operator that asks for a difference, of a value that reads it with one that is nothing |
| Presence.MissingByMeaning | core/internal/decision/skipped.go:112-166 | where something is missing every test of its presence is false, from what holding and differing mean |
| Presence.MissingOperandSkips | core/internal/decision/skipped.go:112-156 | then leaving out either operand makes a conjunction around the comparison false, and everything above it |
| Bench.Score | core/internal/bench/bench.go:138-188 | each expectation in turn claims the first free finding with its key, all report lists follow from the claims, the hits are the size of the common part, and both sides add up |
| Bench.ClaimsAreFirst | core/internal/bench/bench.go:147-165 | a claimed finding has its expectation's key and is claimed once, and any before it with that key went to an earlier expectation; where none is claimed they all did |
| Bench.UnreportedAre | core/internal/bench/bench.go:166-168 | in order, exactly the expectations met by a finding that is not reported |
| Bench.DriftedAre | core/internal/bench/bench.go:169-174 | in order, exactly those that assert a confidence their finding does not have, each with the one it has |
| Bench.MissedAre | core/internal/bench/bench.go:160-163 | in order, exactly those no finding was left for |
| Bench.UnclaimedAre | core/internal/bench/bench.go:177-186 | in order, exactly the findings nothing claimed, the reported ones and the others |
| Bench.NoMatchingBeatsScore | core/internal/bench/bench.go:147-175 | no way of pairing expectations with findings pairs more than the score counts |
| Bench.CountIgnoresOrder | core/internal/bench/bench.go:147-175 | the count does not depend on the order of either list |
| Packing.BytesFor | loop/bin/adjudicate.py:431-438 | the sum of the sizes, whatever order the files are taken in |
| Packing.BytesOfOne | loop/bin/adjudicate.py:431-438 | one file weighs its size, one that cannot be read nothing |
| Packing.BytesAdd | loop/bin/adjudicate.py:431-438 | and two sets apart weigh what both do |
| Packing.Choose | loop/bin/adjudicate.py:409-422 | the best plausible engine record still available, or none if there is none |
| Packing.PlausibleExactly | loop/bin/adjudicate.py:411-419 | two records may be one finding exactly when they are in one file and of one class or within five lines, or share another file and are of one class |
| Packing.ChosenIsPreferred | loop/bin/adjudicate.py:409-424 | the chosen record is in the review record's file if any is, then of its class, then the nearest, then the first |
| Packing.PairRecords | loop/bin/adjudicate.py:405-428 | each review record takes the best record left, what is left follows in order, every unit has one or two records and every record is in exactly one unit |
| Packing.UnitsAre | loop/bin/adjudicate.py:421-427 | a unit is the engine's record and then the review's, or the review's alone |
| Packing.PackUnits | loop/bin/adjudicate.py:441-459 | the loop's slices are the records of the specified slicing |
| Packing.SlicingSound | loop/bin/adjudicate.py:441-459 | that slicing is the units, in order, each slice a single unit or within both bounds, and none closed before it had to be |
| Packing.GreedyIsUnique | loop/bin/adjudicate.py:441-459 | only one slicing of the units is like that |
| Packing.SlicesKeepEverything | loop/bin/adjudicate.py:441-459 | laid end to end the slices are the units, nothing lost and nothing split |
| Packing.GreedyIsOptimal | loop/bin/adjudicate.py:441-459 | no packing into consecutive slices by the same rule uses fewer |
| Packing.SlicesWithinCount | loop/bin/adjudicate.py:441-459 | with units of at most two and room for two, no slice exceeds the count |
| Rebinding.ComposeMaps | core/internal/flow/flow.go:341-355 | the two loops fill the composed map |
| Rebinding.ComposeActs | core/internal/flow/flow.go:339-372 | renaming by a composition is renaming by its parts, exactly where the path does not clash |
| Rebinding.ComposeAssociates | core/internal/flow/flow.go:339-355 | composition associates exactly when no innermost name clashes |
| Rebinding.ComposeIdentity | core/internal/flow/flow.go:341-355 | the empty renaming is the identity on both sides |
| Rebinding.AccumulatedUnwinds | core/internal/flow/flow.go:339-372 | however long a chain of includes, its accumulated renaming names what undoing it one include at a time names |
| Rebinding.ClashExample | core/internal/flow/flow.go:359-372 | a renaming on which composition loses a dot |
| Fingerprint.WriteEntries | core/internal/flow/flow.go:374-391 | the entries, written in the order of their names |
| Fingerprint.FingerprintDetermined | core/internal/flow/flow.go:374-391 | one renaming has one fingerprint, whatever order its entries were visited in |
| Fingerprint.FingerprintInjective | core/internal/flow/flow.go:374-391 | without `=` in names and `;` in paths one fingerprint belongs to one renaming |
| Fingerprint.FingerprintCollides | core/internal/flow/flow.go:374-391 | with them it need not: a pair that shares one |
| Fingerprint.SharedExactly | core/internal/flow/flow.go:374-391 | a renaming shares its fingerprint with some other exactly when it has more than one entry, or `=` in the name or path of its one |
| Views.Reach | core/internal/flow/flow.go:313-337 | each derivable pair of a view and a renaming exactly once, and nothing else, where no name comes round longer than it was and keys tell the pairs apart |
| Views.ReachAcyclic | core/internal/flow/flow.go:313-337 | the same of any view of a plain table without cycles |
| Views.ReachPlain | core/internal/flow/flow.go:313-337 | the same of any view of a plain table whose includes rename only to plain names, cycles or not |
| Views.Walker.Walk | core/internal/flow/flow.go:316-334 | one call adds only what is derivable from where it starts and leaves nothing it added with a step untaken |
| Views.PlainKeysDistinct | core/internal/flow/flow.go:318-322 | in a table without NUL in ids, `=` in names or `;` in paths, keys tell apart all that a view reaches |
| Growth.FiniteExactly | core/internal/flow/flow.go:313-337 | a render reaches finitely many pairs exactly when, among the views its links lead to, no name comes round to itself along an include that reads a field of it |
| Growth.ArrivesByLinks | core/internal/flow/flow.go:313-337 | the views a render arrives at are exactly those that extends and includes lead to, whatever they rename |
| Growth.AcyclicIsFinite | core/internal/flow/flow.go:316-334 | which is so where no view draws itself in |
| Growth.PlainRenamingIsFinite | core/internal/flow/flow.go:316-334 | and where includes rename only to plain names |
| Growth.Provenance | core/internal/flow/flow.go:331-355 | whatever a name stands for came, view by view, from its path's root where the walk began, and along a lengthening include if the path has fields |
| Growth.LengtheningIsInfinite | core/internal/flow/flow.go:316-334 | a view that comes to itself with a name standing for a field below that name is reached in no finite number of ways |
| Growth.TreeIsInfinite | core/internal/flow/flow.go:316-334 | the shortest such table |
| Trails.ReachedByTrail | core/internal/flow/flow.go:309-337 | a pair is derivable exactly when some trail of extends and includes ends at the view and its includes accumulate to the renaming |
| Trails.ReadUnwinds | core/internal/flow/flow.go:309-372 | so what an interpolation reads is what undoing the includes of the trail one at a time makes of its path |
| Join.Program.JoinViews | core/internal/flow/flow.go:73-103 | the functions hold what they held and then what the sinks add; the sinks are exactly what the renders bind to what they reach, in functions of the program, none twice, each a call of the channel its context and escaping name; the count is theirs; a well-formed program whose values the renders bind, functions passed as arguments and all, stays well formed, with every sink whole; a second run changes nothing |
| Join.RunIsSoundFor | core/internal/flow/flow.go:73-103 | what the join promises of its sinks is enough for the run to be sound |
| Join.CoveredHasSink | core/internal/flow/flow.go:394-425 | without NUL in function ids and file names, every interpolation a render reaches and binds has a sink with that value in the render's function |
| Join.FromRenderByTrail | core/internal/flow/flow.go:394-425 | a sink comes from a render exactly when some trail of extends and includes leads to a view with its interpolation, the render binds its value to what stands before the first dot of the path the interpolation comes to, and it reads what stands after |
| Join.AskedIsWritten | core/internal/flow/flow.go:394-425 | without NUL in names, whatever a render asks for by such a trail has a sink in its function, at its place, with its value |
| Join.PlainIsWalkable | core/internal/flow/flow.go:313-337 | on a plain table without cycles, or with plain renamings only, every walk of a join ends and tells apart what it reaches |
| Join.Writer.Render | core/internal/flow/flow.go:394-425 | one render adds a sink for every interpolation it reaches and binds whose key is new, and no other |
| Join.Writer.Write | core/internal/flow/flow.go:427-498 | appends the field read, the marker and the call of one sink, and nothing else |
| Join.Writer.NextId | core/internal/flow/flow.go:500-503 | the function's id, the kind and the next count |
| Sinks.TplIdCounts | core/internal/flow/flow.go:500-503 | made-up ids with different counts differ, whatever functions they are made for |
| Sinks.TplIdWritten | core/internal/flow/flow.go:500-503 | how a made-up id is written, on two examples |
| Sinks.SinkKeyInjective | core/internal/flow/flow.go:411-420 | without NUL in function ids and file names a key names one function, one place and one value |
| Sinks.RunKeepsUnique | core/internal/flow/flow.go:427-503 | after any run no two values of the program share an id, and no two calls |
| Sinks.NewIdsFresh | core/internal/flow/flow.go:427-503 | no value a run adds to a function has the id of one the program had |
| Sinks.NewFlowsGrounded | core/internal/flow/flow.go:427-498 | every new flow, argument and result names the bound value or a value just added |
| Sinks.CarriedIsNamed | core/internal/flow/flow.go:427-498 | a sink whose bound value exists refers only to values of the program it is written into |
| Sinks.RunCarries | core/internal/flow/flow.go:427-498 | after a run every sink is in its function whole: its values, its flows, and its call, on a value that those flows alone lead to from the bound one |
| Sinks.RunInChannels | core/internal/flow/flow.go:440-498 | after any run every sink's function calls the channel of its context and escaping, by name, at its place, on one value its flows lead to, and has the value that call results in |
| Sinks.SymbolByContext | core/internal/flow/flow.go:440-473 | the five channels, by name: exactly which contexts, escaped or not, are written into each |
| Sinks.SinkCarriesWhat | core/internal/flow/flow.go:427-498 | the call carries the bound value, or the field read of it where a path is left below the root, and past that the marker exactly where escaping was taken off an unescaped interpolation |
| Sinks.RunAddsCalls | core/internal/flow/flow.go:427-498 | the calls of the whole program grow by exactly the number of sinks |
| Sinks.RunKeepsGrounded | core/internal/flow/flow.go:427-498 | a program in which every flow names values there are, and every argument and result that names a value does, stays one: an argument may name a function instead |
| Sinks.RunIsSound | core/internal/flow/flow.go:73-103 | all of that at once, of the program after a run, with nothing lost and everything a sink refers to a value of it |
| Join.KeysAreSeen | core/internal/flow/flow.go:411-420 | no two sinks of a run share a function, an interpolation and a value |
| Mapping.Resolver.Resolve | core/internal/flow/context.go:51-101 | the names the specification carries, with the open set put back as it was |
| Mapping.Resolver.Context | core/internal/flow/context.go:40-48 | the mappings merged in order, later ones winning |
| Mapping.ReadEntries | core/internal/flow/context.go:69-75 | the loop over a literal's members gives what `FromEntries` does |
| Mapping.LastEntryHolds | core/internal/flow/context.go:69-75 | of the members that give a name a value the last holds |
| Mapping.EntryNames | core/internal/flow/context.go:69-75 | and no other names are given |
| Mapping.LastKeywordHolds | core/internal/flow/context.go:104-113 | the same of a dict's keywords |
| Mapping.KeywordNames | core/internal/flow/context.go:104-113 | and their names |
| Mapping.LastSegmentIs | core/internal/flow/context.go:132-150 | the last segment of a callee is the one text without a dot that is the whole or follows a dot to the end |
| Mapping.DictIsCalled | core/internal/flow/context.go:104-141 | a call makes a dict exactly when its method, or else the name it calls, or else its symbol, is "dict" or ends in that after a dot |
| Mapping.SuppliedIsLast | core/internal/flow/context.go:32-48 | a name is supplied exactly when it is written within reach of some mapping, and stands for what the last such mapping gives it |
| Mapping.OpenLosesNoName | core/internal/flow/context.go:51-101 | a mapping carries exactly the names written within reach: refusing to walk a value twice costs none |
| Mapping.MoreHopsMoreNames | core/internal/flow/context.go:31-101 | looking further only adds names |
| Mapping.LastWriteHolds | core/internal/flow/context.go:95-100 | the last write of a name is the one that holds |
| Mapping.WriteNames | core/internal/flow/context.go:95-100 | and the names written into a value are those some write gives it |
| Mapping.WritesWin | core/internal/flow/context.go:32-39 | what is written into a mapping replaces what it was built with |
| Mapping.LastSourceHolds | core/internal/flow/context.go:51-101 | one mapping gives a name what the last of its sources to have it does: writes over calls, calls over flows, flows over entries, and later ones over earlier |
| Scanner.NestedAmbiguity | core/internal/model/redos.go:28-86 | the loop over the stripped pattern is the scan |
| Scanner.TopLevelAlternation | core/internal/model/redos.go:117-139 | whether a bar outside every group and class is found |
| Scanner.DistinctSingleCharacters | core/internal/model/redos.go:141-176 | each branch between those bars is one atom no earlier branch was |
| Scanner.AtomWidth | core/internal/model/redos.go:289-332 | where the atom ends, or that there is none |
| Scanner.IsAnchored | core/internal/model/redos.go:207-244 | a choice of different atoms, or a walk past optional atoms to one that must match once |
| Scanning.ScanReadsTheTree | core/internal/model/redos.go:28-112 | on every printed tree the scan answers what the tree says, groups closing inside out, crash included |
| Scanning.SeenExactly | core/internal/model/redos.go:90-115 | the body the scan judges is the group's own exactly when no angle bracket follows a lookbehind, and starts past its end exactly when the first such bracket lies beyond the group |
| Scanning.ScanSettles | core/internal/model/redos.go:54-86 | taking groups in the order they close, the scan crashes exactly when the first to settle it is a weighed lookbehind with no angle bracket inside and one after, and answers yes exactly when the first is a weighed group whose body, as cut out, is not anchored |
| Groups.ScanSettlesAnyText | core/internal/model/redos.go:28-86 | on any text at all, whole or cut, the answer is that of the first parenthesis to close a group that repeats, holds a bar or a repetition, and whose body, as cut out, starts past its end or is not anchored; clear exactly where there is none |
| Groups.NothingRepeatedIsClear | core/internal/model/redos.go:54-86 | where no closing parenthesis is followed by a repetition the scan is clear, however many groups the text leaves open |
| Groups.BodyStartExactly | core/internal/model/redos.go:88-115 | where a group's body is taken to start, on any text, named groups that never close included |
| Groups.UnboundedExactly | core/internal/model/redos.go:347-365 | on any text, braces are unbounded exactly when they close and nothing, or two characters or more, follow the first comma in them |
| Groups.WidthExactly | core/internal/model/redos.go:271-287 | how wide the quantifier at a place of any text is |
| Groups.HasBarExactly | core/internal/model/redos.go:117-139 | on any text, a bar is found exactly when one stands with as many parentheses closed before it as opened, none of them in a class or after a backslash |
| Groups.DistinctExactly | core/internal/model/redos.go:141-176 | on any text, the branches pass exactly when what stands between those bars is each a single atom and no two are alike |
| Groups.AtomEndExactly | core/internal/model/redos.go:289-332 | where the atom at a place of any text ends: a class at the first bracket that closes it, a group where its parentheses, in classes too, come to nothing, an escape after what it escapes; or none |
| Cutting.CutReadsTheTree | core/internal/model/redos.go:28-86 | a printed tree cut at any slash answers as the groups that close before it, in the order they close, each as it reads without what was cut off |
| Scanning.ScanFindsAmbiguity | core/internal/model/redos.go:28-86 | with no angle bracket after a lookbehind that it weighs, it answers yes exactly when some repeated group at any depth holds a choice or a repetition and is not anchored |
| Scanning.BodyFollowsPrefix | core/internal/model/redos.go:88-115 | every prefix but a lookbehind is skipped whole |
| Scanning.BodyFollowsBehind | core/internal/model/redos.go:102-112 | a lookbehind is skipped up to the next angle bracket wherever that is |
| Anchoring.BarMeansChoice | core/internal/model/redos.go:117-139 | the scan finds a bar exactly when the tree is a choice |
| Anchoring.SingleText | core/internal/model/redos.go:178-193 | a branch's text is one atom exactly when the branch is |
| Anchoring.DistinctByTree | core/internal/model/redos.go:141-176 | the branches pass exactly when all are single and no two are written alike |
| Anchoring.AtomEndIs | core/internal/model/redos.go:289-332 | the end of an atom is found exactly when the parentheses inside it, counted wherever they stand, cancel out and never close it early |
| Anchoring.PlainIsPaired | core/internal/model/redos.go:289-332 | which is so where no class in it holds a bare parenthesis |
| Anchoring.KindIsRead | core/internal/model/redos.go:254-269 | the quantifier after an atom is read as what it is |
| Anchoring.MarkedFrom | core/internal/model/redos.go:222-244 | the walk over the text finds a marker exactly when the tree has one, where the atoms it reads are paired |
| Anchoring.AnchoredByTree | core/internal/model/redos.go:207-244 | a body is safe by its text exactly when it is by its tree |
| Redos.StrippedBare | core/internal/model/redos.go:29-32 | a pattern is left as it is exactly when it holds no slash |
| Redos.StrippedLiteral | core/internal/model/redos.go:29-32 | a literal gives its body back exactly when that is not empty |
| Redos.BarePattern | core/internal/model/redos.go:28-86 | the answer for a bare pattern, wholly by its tree |
| Redos.LiteralPattern | core/internal/model/redos.go:28-86 | the answer for a literal with flags, wholly by its tree |
| Redos.LookbehindCrashes | core/internal/model/redos.go:102-112 | a pattern on which the scan cuts a body past its end |
| Redos.SlashCuts | core/internal/model/redos.go:29-32 | a bare pattern that is ambiguous and passes because it is cut |
| Cutting.SlashedPattern | core/internal/model/redos.go:29-32 | which, at its last slash, is the answer for every bare pattern with one |
| Redos.ClassHidesMarker | core/internal/model/redos.go:311-327 | a body that is safe by its tree and not by its text |
| Redos.SinglesMatchOnceExactly | core/internal/model/redos.go:141-221 | repeating a choice of single atoms, classes and escapes among them, matches every input in at most one way exactly when none can match nothing and no two accept one character |
| Redos.AnchoredChoiceMatchesOnceExactly | core/internal/model/redos.go:207-221 | so, of every choice the scan calls anchored, exactly those do |
| Redos.LiteralsMatchOnce | core/internal/model/redos.go:211-221 | of literal characters that is: exactly when all are different |
| Redos.DistinctMatchesOnce | core/internal/model/redos.go:141-176 | which on such a choice is what the scan's test decides |
| Redos.OverlapPasses | core/internal/model/redos.go:143-193 | overlapping classes pass the test, are called anchored, and match in two ways |
| Redos.PlainTreePaired | core/internal/model/redos.go:289-332 | a tree in which no class holds a bare parenthesis is read right throughout |
| Language.MarkedDividesOnce | core/internal/model/redos.go:195-244 | a body whose marker takes one or more characters, always as many, which nothing else in it uses, and no word of whose end can end in a character of its beginning, divides every input in at most one way; so does one whose marker has no word |
| Language.AnchoredDividesOnce | core/internal/model/redos.go:195-244 | so a body the scan calls anchored, whose marker is like that, does |
| Language.OmittableDividesOnceExactly | core/internal/model/redos.go:195-244 | where all around the marker can be left out or taken once, exactly the bodies whose marker is like that, or has no word, do |
| Language.DottedDividesOnce | core/internal/model/redos.go:222-226 | the pattern of the source's own comment, a marker after optional space, does |
| Language.MarkerRecursAfter | core/internal/model/redos.go:195-206 | a body whose end can be the marker's character divides some input in two ways, however often the marker is taken |
| Language.MarkerRecursBefore | core/internal/model/redos.go:222-244 | so does one whose optional beginning can be the marker's character |
| Language.EndMeetsBeginning | core/internal/model/redos.go:222-244 | so does one with a character that can both end and begin it |
| Language.CountVaries | core/internal/model/redos.go:254-269 | so does one whose marker may be taken two numbers of times, where the rest can be left out: each as often as the other is long |
| Language.MarkerOfNothing | core/internal/model/redos.go:254-269 | so does one whose marker may be left out, or can match nothing, where the rest can be left out |
| Language.AnchoredCanDivideTwice | core/internal/model/redos.go:195-269 | four bodies the scan calls anchored that divide an input in two ways |

## Left out

- `adjacentAmbiguity`, the second shape of catastrophic pattern, is not part of this model.
- Regular expressions are read as characters, not bytes; atomic groups, inline flags, backreferences by name and a closing bracket written first in a class are not in the tree.
- Scanning.ScanFindsAmbiguity: asks that no angle bracket follow a lookbehind the scan weighs; `ScanSettles` states the answer for the other patterns in terms of the body the scan cuts out, which may or may not agree with the documented meaning.
- Anchoring.AnchoredByTree: asks that the atoms the walk reads be paired; past a group whose end is misread, the walk can still come to the right answer by chance.
- Language.MarkedDividesOnce: the converse is proved where every atom around the marker can be left out or taken once, and from words that do the dividing otherwise; in general it would be the question whether a regular language is a code.
- Language.OmittableDividesOnceExactly: a possessive quantifier is given the words of its greedy form, since what it refuses to give back depends on the rest of the input; where one stands in the body, only the direction towards dividing once speaks of an engine.
- Redos.AnchoredChoiceMatchesOnceExactly: an engine's own guard against repeating an empty match is not modelled, so a branch that can match nothing counts as a second way.
- Language.AnchoredDividesOnce: lookarounds are taken to match nothing wherever they stand, so the theorem covers what the engine matches and more; what a class, an escape or a count in braces means is a parameter.
- Views.Reach: where keys collide the walk leaves pairs out, and the model does not say which.
- Join.Program.JoinViews: takes the renders already resolved; finding the view by the name a caller wrote (`resolveRenders`, `atCallSites`, `keywordArgs`, `resolveName`) is not modelled.
- Mapping.Resolver.Resolve: the returns of all functions a call may enter are one list, in the same order.
- Presence.SkippedByOperandPresence: which values are nothing (`absentValue`, a vocabulary of names and literals) is a parameter.
- ReachDef.Reaches: only the choice of definitions is modelled, not the splitting and rewiring of values (`splitValue`, `rewire`).
- Bench.Score: the floating-point precision and recall, the summary text and reading a corpus are left out.
- Packing.PackUnits: each unit holds a record, as pairing makes them.
- Packing.BytesFor: file sizes are a map; a file that cannot be read is not in it.
- Deleting from a map while ranging over it is modelled as set intersection; ranging over a map is a choice in no particular order.
- `BranchesTwoWays`, `ordered`, `neverReturns`, `namesTheSameThing` and the name helpers would add only easy members.
- Findings, messages, name lists, input and output, and the rest of the rules are not modelled.
