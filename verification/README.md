# Verified model of the crib SDK engine

This project models the orchestration engine of the SDK in Dafny and proves what it guarantees on
every input and in every run. `dafny verify dfyconfig.toml` checks all of it.

The engine turns components into an ordered run in several stages, and the modules follow them.

* **Composite scheduler** (over `Graph`, `DepthFirst` and `WalkOrder`). A composite infers from parameter
  and result types which component needs which, executes them depth first and hands stored results to
  later components. `DepthFirst` gives the search as a function, `WalkOrder` says what it finishes before
  what without the search, and `CompositeEdges` the same of the inferred lists.
  `CompositeScheduler.Composite` is a class with the two result maps; its methods are proved to produce
  exactly the runs that `CompositeModel.FreshRun` describes: calls in the post-order of the search, up to
  the first failure. The run is described by the sequence of executor calls, which is why the class
  carries a ghost trace. The theorems are lemmas about all such runs: `CompositeOrder` on the order of
  calls, `CompositeSearch`, `CompositeValues` and `CompositeSlices` on arguments, `CompositeSuccess` on
  success and on when a run is determined, `CompositeRegistration` on the values of components that do not
  look at the order of their slices, `CompositeRuns` on the existence of runs. `CompositeRegistry`
  registers constructors and runs the whole.
* **Registration order**. Lists of constructors in two orders are related by a bijection of positions,
  because names carry the position (`CompositeRearrangement`, `Reordering`); the two constructors of the
  framework stay in front. `CompositePrecedence` says what is called before what in every order,
  `CompositeExact` compares two runs call by call, `RegistrationOrder` states the promise, and `Staging`
  and `OrderMatters` construct Apply methods and orders that break it, for all signatures that leave
  anything to the order.
* **Plan resolution** (`PlanResolution`, over `ObjectTree`). `Plan.Build` expands plan objects in place,
  with the `visited`, `stack` and `frames` of its recursive closure as the fields of a `Resolver`. Ghost
  fields record which plan was resolved for which place, and in which order.
* **Manifest bundles and the apply run** (`Manifests`, `ApplyRun`, `Errors`).
* **Resource names** (`Resources`, `ResourceLaws`, over `Text`): normalisation to the label grammar of
  section 2.3.1 of RFC 1035, and generated identifiers, with FNV-1a written out.
* **Values, ConfigMaps, indentation, results index** (`ValuesPath`, `ValuesSyntax`, `ValuesHeap`,
  `ConfigMapMapper`, `Indentation`, `PlanCache`). `ValuesHeap` sets a value at a path in a graph of map
  and slice objects; a ghost shape says which object stands where, and the update is proved to be
  `ValuesPath.Set` on the tree that the objects represent.

Three expectations, the first and the last of them documented, do not hold on all inputs. The code is
modelled as it is, with an input on which the expectation fails and the exact condition under which it
holds:

* The ordering of components in a composite is said not to matter (`crib/composite.go:13-16`).
  `OrderMatters.OrderNeverMattersExactly` proves that the order in which constructors are given never
  matters, whatever the Apply methods do within Go's typing, if and only if their signatures can succeed
  in no order, or all of the following hold. "Always before" means that the other component needs it,
  directly or not, or that it belongs to the framework and the other does not.
  * Of any two components that feed the same slice, one is always before the other
    (`CompositeExact.SlicesOrdered`). `RegistrationExamples.RegistrationOrderCanMatter` gives three
    constructors that always succeed, with different values in two orders.
  * For any component whose result is an interface, and may be nil, either all others that take an
    interface are always before it, or it is always before one of them (`RegistrationOrder.NilsOrdered`).
    `RegistrationExamples.NilErrorCanMatter` gives two constructors, one that returns a nil error and one
    that takes the context, which always fail in one order and always succeed in the other.
  * What takes an interface is always before any component that produces another type that may implement
    it (`RegistrationOrder.ImplementersOrdered`). Otherwise even one order has runs with different
    values, `RegistrationExamples.OtherImplementerCanMatter`.

  Signatures can succeed in some order (`RegistrationOrder.CanSucceed`) if there is no cycle, every
  parameter that is not a slice has one other producer, and errors do not stand in the way. The last is
  needed because a component whose only result is an error stores that error, nil, when it succeeds: two
  such components that take a context can never both succeed. Where the first two points fail, two orders
  end differently in all their runs (`OrderMatters.SomeOrderMatters`).
  A composite that violates the condition may still be indifferent because of what its Apply methods do;
  `RegistrationOrder.TolerantInAnyOrder` gives a condition on them that suffices.
* `ToRFC1123` maps some of its own results to other names. `ResourceLaws.NotIdempotent` and
  `ResourceLaws.NotIdempotentWhenCut` give an input of each of the two kinds,
  `ResourceLaws.IdempotentExactly` the exact condition on the cleaned input, and
  `ResourceLaws.FixedPoints` the names that stay.
* A component is said to be found by its name (`crib/plan.go:262-280`).
  `PlanCache.FoundByPrefixExactly` shows that this holds exactly when the name has no space around it
  and does not itself end in a hyphen and eight hexadecimal digits; `PlanCache.PrefixesThatFindNothing`
  gives a name of each kind that finds nothing.

## Model

| member | source | states |
|---|---|---|
| CompositeScheduler.Composite.Apply | internal/core/service/composite.go:152-158 | the calls made and the error returned are those of a `FreshRun`: an ambiguous parameter stops it before any call, otherwise the graph run over the inferred edges decides |
| CompositeScheduler.Composite.DependencyGraph | internal/core/service/composite.go:349-411 | returns exactly the inferred edges when no single-valued parameter has several producers; otherwise reports the first consumer and the first of its parameters for which this is so |
| CompositeEdges.DependencyListIs | internal/core/service/composite.go:358-390 | the dependency list of a component names the other producers of what its parameters want: by parameter, and for one parameter in the order of registration |
| CompositeEdges.DependencyListIsUnique | internal/core/service/composite.go:358-390 | this fixes the list, entry for entry |
| CompositeEdges.EntriesInOrder | internal/core/service/composite.go:358-390 | a producer for an earlier parameter, or one registered earlier for the same, stands earlier in the list |
| CompositeEdges.AmbiguousExactly | internal/core/service/composite.go:392-399 | a parameter is reported as ambiguous exactly when two other components produce its type |
| CompositeEdges.UniqueSinglesExactly | internal/core/service/composite.go:375-399 | the condition of the success theorem is that exactly one other component produces the type of each parameter that is not a slice |
| CompositeScheduler.Composite.ExecuteGraph | internal/core/service/composite.go:414-468 | for any edges, the calls are those of the registered names in the post-order of the depth-first search from the registered names, up to the name that closes a cycle or the first failing call |
| CompositeScheduler.Composite.ExecuteComponent | internal/core/service/composite.go:472-522 | makes exactly one call that the earlier calls allow, and stores its first result under its result type only if the call returned |
| CompositeScheduler.Composite.Arguments | internal/core/service/composite.go:473-485 | collects what each parameter may receive, up to the first parameter that cannot be provided |
| CompositeScheduler.Composite.ValueForType | internal/core/service/composite.go:524-549 | a concrete parameter gets the last stored output of its type, a slice all outputs without repeated keys, an interface the first implementer that a search finds; an error only when there is none |
| CompositeScheduler.Composite.FindImplementations | internal/core/service/composite.go:554-579 | the first output of every key, in the order in which they were stored |
| CompositeScheduler.Composite.FindInterfaceImplementations | internal/core/service/composite.go:582-608 | the first implementer of every key, among the last and then all stored values, for some orders of map iteration; fails exactly where a stored nil is dereferenced |
| CompositeSearch.ImplementersAre | internal/core/service/composite.go:582-608 | whatever the orders of map iteration, a search finds one stored implementer for every key of such a value, and nothing else |
| CompositeSearch.LastMayBeFirst | internal/core/service/composite.go:524-531 | for every type whose last stored value implements the interface, some order of map iteration gives an interface parameter that value |
| CompositeScheduler.Composite.KeepFirstOfEachKey | internal/core/service/composite.go:568-577 | the de-duplication loop keeps exactly the first value of each key |
| CompositeSearch.DedupExactly | internal/core/service/composite.go:568-577 | the values kept are those before which no value has the same key, in order |
| CompositeScheduler.Traversal.Visit | internal/core/service/composite.go:425-455 | the recursive visit finishes names as the depth-first search does, dependencies in the order of the edge list, restores `visiting`, and stops where the search closes a cycle or an execution fails |
| CompositeScheduler.Traversal.VisitRoot | internal/core/service/composite.go:458-465 | one round of the outer loop takes the search one registered name further, or ends the run |
| CompositeScheduler.Traversal.Finish | internal/core/service/composite.go:442-454 | executes a registered component and appends its name to the order only on success |
| DepthFirst.SearchIsWalked | internal/core/service/composite.go:424-465 | the search finishes names after their dependencies and only what roots reach, and stops, at a name on a cycle, exactly when a root reaches a cycle |
| DepthFirst.NeededEarlierStandsBefore | internal/core/service/composite.go:457-465 | what some root reaches finishes before whatever only later roots reach |
| WalkOrder.StandsBeforeExactly | internal/core/service/composite.go:424-465 | without a cycle, one name finishes before another exactly if the other needs it, or it is needed first: by an earlier root, or by an earlier entry of the list through which the other is first needed |
| CompositeOrder.CallsFollowWalk | internal/core/service/composite.go:424-465 | every run calls components in one order that graph and registration fix, all of them unless a cycle or a failing call, its last, ends it |
| CompositeOrder.RunIsTopological | internal/core/service/composite.go:424-465 | in every run no component is called twice, dependencies are called before dependents, only the last call can fail, and on success every component is called exactly once |
| CompositeOrder.NothingOnACycleIsCalled | internal/core/service/composite.go:429-440 | no run, successful or not, ever calls a component that lies on a cycle or reaches one |
| CompositeOrder.CycleReportedExactly | internal/core/service/composite.go:429-431 | unless an execution fails, an error is reported exactly when some component reaches a cycle, and the name in a cycle error lies on a cycle |
| CompositeOrder.NeverRefusingExecutor | internal/core/service/composite.go:414-468 | with a substituted executor that never fails, the graph executor fails exactly when the graph has a reachable cycle |
| CompositeOrder.NeededRunsBefore | internal/core/service/composite.go:435-440 | whatever a component needs, directly or not, is called before it in every run that calls it |
| CompositeOrder.NeededEarlierRunsBefore | internal/core/service/composite.go:457-465 | in every run that calls q, p is called before q if some registered component needs p (or is p) and neither it nor any registered before it needs q |
| CompositeValues.InferredEdge | internal/core/service/composite.go:358-390 | there is an edge exactly from a consumer to each other component that produces exactly the wanted type or slice element type |
| CompositeValues.ConcreteArgument | internal/core/service/composite.go:538-547 | in every run a concrete parameter receives the output of the one other producer of its type, if it is not produced by the component itself |
| CompositeValues.SliceArgument | internal/core/service/composite.go:533-536 | a slice parameter receives an entry for every other producer of the element type, no key twice, and nothing that is not an output of such a producer |
| CompositeValues.InterfaceSliceArgument | internal/core/service/composite.go:582-608 | a slice of interfaces receives an entry for every other producer of that interface and for every output that implements it, no key twice, and nothing else |
| CompositeValues.CallsFollowSchedule | internal/core/service/composite.go:424-465 | the calls of every run of a composite are a beginning of its schedule, and all of it on success |
| CompositeEdges.ScheduledBeforeExactly | internal/core/service/composite.go:349-465 | the same for the components of an acyclic composite, over the inferred lists |
| CompositeEdges.RegisteredFirstIsCalledFirst | internal/core/service/composite.go:364-370 | of two producers of one type, both of which are scheduled, the one registered first is called first exactly if it does not take that type itself |
| CompositeValues.CallsInOrder | internal/core/service/composite.go:472-522 | every call of a run is one that the calls before it allow, and only the last can have failed |
| CompositeSuccess.ArgumentsAreComplete | internal/core/service/composite.go:478-485 | with one other producer for every parameter that is not a slice, no call stops at a missing argument, unless it takes an interface while a nil is stored |
| CompositeSuccess.SingleArgument | internal/core/service/composite.go:524-549 | a concrete parameter, or an interface parameter of which no other implementer is called before, receives the output of the one other producer of its type, which has already run |
| CompositeSuccess.SucceedsExactly | internal/core/service/composite.go:152-158 | where interface parameters have another producer of that type, Apply methods do not fail, and what may return nil is called after everything else that takes an interface, a composite succeeds exactly when it has no cycle and every parameter that is not a slice has exactly one other producer |
| CompositeSuccess.RunIsDetermined | internal/core/service/composite.go:414-522 | two runs over one list make the same calls and end with the same error, if no slice of interfaces is taken and no other implementer of an interface is called before what takes it |
| CompositeRegistration.SuccessfulRunSolves | internal/core/service/composite.go:472-522 | the values of a successful run satisfy, for every component, the equation between its arguments and its result |
| CompositeRegistration.RunFollowsSolution | internal/core/service/composite.go:472-522 | conversely every call of a run that finds no nil in its way returns what a solution of these equations prescribes |
| CompositeRegistration.SolutionIsUnique | internal/core/service/composite.go:472-522 | the values of a successful run are the only solution of these equations, for components that tolerate reordered slices |
| CompositeRegistration.StoreHoldsSolution | internal/core/service/composite.go:499-515 | after such a run the two result maps hold under each type exactly the values of its producers in the solution, in the order of the schedule, and the last of them |
| CompositeRegistration.SuccessCarriesOver | crib/composite.go:13-16 | if a composite succeeds, its components in any other order, with the names that they get there, succeed with the same values, if they tolerate reordered slices and neither nil results nor other implementers make a difference |
| CompositeRegistration.RegistrationOrderIrrelevant | crib/composite.go:13-16 | for such components success and all values are the same in every order, along the bijection of positions |
| RegistrationOrder.TolerantInAnyOrder | crib/composite.go:13-16 | the same for lists of constructors behind those of the framework: every reordering ends alike |
| RegistrationOrder.OrderedInAnyOrder | crib/composite.go:13-16 | components that can succeed in no order, or whose signatures leave nothing to the order, end alike in every order, whatever their Apply methods do |
| RegistrationOrder.SuccessIsPossible | internal/core/service/composite.go:499-515 | what succeeds has errors that are interfaces, none of them always before something that takes an interface, and at most one of them in a component that takes an interface itself |
| OrderMatters.SomeOrderMatters | crib/composite.go:13-16 | signatures that can succeed and leave a slice or a nil result open have Apply methods and two orders such that every run of the one ends differently from every run of the other |
| OrderMatters.ImplementersMatter | crib/composite.go:13-16 | signatures that leave another implementer of an interface open have Apply methods for which one order has two runs that end differently |
| OrderMatters.OrderNeverMattersExactly | crib/composite.go:13-16 | the promise holds for a list of signatures, all Apply methods and all orders exactly when these signatures can succeed in no order or leave nothing to it |
| OrderMatters.OrdersDifferExactly | crib/composite.go:13-16 | where no other implementer gets in between, two orders can end differently in all their runs exactly when signatures that can succeed leave a slice or a nil result open |
| CompositeExact.CallsMirror | internal/core/service/composite.go:457-522 | where slices are ordered and nil results and other implementers make no difference, every call of a run in another order has the arguments and the outcome of a call of the successful run |
| CompositeExact.OrderedSlicesFixCalls | internal/core/service/composite.go:457-522 | then the other run succeeds as well, with the same values |
| CompositeExact.SettledIsUnique | internal/core/service/composite.go:435-440 | names of which one must always come before the other have one order that respects this |
| CompositeRuns.RunExists | internal/core/service/composite.go:414-522 | every composite has a run, so that statements about all its runs are not about none |
| CompositeSlices.SliceInCallOrder | internal/core/service/composite.go:567-578 | the entry of an earlier output stands before that of a later output whose key is new when it is stored; a later output whose key is not new has no entry of its own |
| CompositeSlices.ScheduledFirstInSlice | internal/core/service/composite.go:457-465 | of any two producers of one slice, the one that the schedule has first comes first in the slice, if the key of the other is new |
| CompositeEdges.SliceInRegistrationOrder | internal/core/service/composite.go:364-370 | a slice lists the outputs of producers that do not take its element type themselves in the order of registration, as far as their keys are new |
| RegistrationExamples.RegistrationOrderCanMatter | crib/composite.go:13-16 | two orders of the same three constructors always succeed, and the value of the third always differs |
| RegistrationExamples.NilErrorCanMatter | internal/core/service/composite.go:499-515 | a component that returns a nil error and one that takes the context always fail in one order and always succeed in the other |
| RegistrationExamples.OtherImplementerCanMatter | internal/core/service/composite.go:582-608 | with two implementers of an interface, some Apply methods make two runs of one order end differently |
| CompositeRegistry.IndexedNamesDiffer | internal/core/service/composite.go:196-200 | names made from different positions differ, even when titles contain the separator |
| CompositeRegistry.RegisterComponents | internal/core/service/composite.go:160-216 | all constructors are registered in order with distinct names, or the reasons of exactly the unusable ones are reported, in order |
| CompositeRegistry.ApplyComposite | internal/core/service/composite.go:124-182 | with the two built-in constructors registered first: unusable constructors are reported, all of them in order, before any call; otherwise the calls are those of a `FreshRun`, and its error, if it has one, is reported as the failed start; where interface parameters have producers, Apply methods do not fail and nil results come late, that is so exactly when there is a cycle or a parameter that is not a slice lacks a unique other producer |
| PlanResolution.Plan.Build | crib/plan.go:224-260 | over plans of which some may have been expanded by earlier builds: terminates; panics exactly when the root reaches a cycle, with a genuine path that closes one; otherwise exactly the names reached through plans not yet expanded are finished; the child plans of an expanded plan are, in declaration order, the existing plans that its functions return and new plans each made for this place alone; `log` is the order in which a depth-first traversal of the child plans returns, names finish in the order in which it first returns a plan of that name, and that plan is the one finished; all other plans are untouched, further plans can be built, a plan is left with no child functions exactly when it is the one finished for its name, was expanded before or declares no children, and a plan without child functions is returned unchanged |
| PlanResolution.Resolver.Resolve | crib/plan.go:231-258 | a name on the stack panics with the frames and the name, a visited name is returned as it is, another is expanded; frames and stack are as before |
| PlanResolution.Resolver.Expand | crib/plan.go:244-257 | pushes, resolves the children in order, pops and clears the child functions |
| PlanResolution.Resolver.AddChild | crib/plan.go:249-250 | appends the plan that the next child function gave, the object itself, once it has been resolved |
| PlanResolution.Resolver.ResolveChildren | crib/plan.go:247-251 | appends the resolved child itself for each child function, in declaration order, and resolves each of them depth first before the next |
| PlanResolution.Resolver.Push | crib/plan.go:244-245 | stack and frames gain the name together and still agree |
| PlanResolution.Resolver.Pop | crib/plan.go:253-256 | stack and frames lose the name together, and the name is finished after everything below it |
| PlanResolution.Resolver.AfterBuild | crib/plan.go:240-259 | the finished names are exactly those reached through plans not yet expanded, in topological order, each with one expanded plan, and none reaches a cycle |
| PlanResolution.OrderIsReached | crib/plan.go:240-259 | names that finish in the order of a depth-first traversal of declared children, dependencies first, are exactly what the root reaches |
| ObjectTree.ReturnedExactly | crib/plan.go:247-257 | a depth-first traversal returns from exactly the plans to which following child plans leads |
| ObjectTree.PostorderIsUnique | crib/plan.go:247-257 | it can return from them in one order only |
| Graph.ClosedAvoidsCycles | crib/plan.go:233-242 | what was expanded before without a cycle need not be visited again for cycles to be found |
| PlanResolution.CyclePathMeansCycle | crib/plan.go:233-238 | a reported path really means that its start reaches a cycle |
| Resources.ToRFC1123 | internal/core/common/infra/resources.go:39-142 | the step-by-step rewriting computes `Label`, with its early exits and its length limit |
| Resources.RejoinParts | internal/core/common/infra/resources.go:74-111 | splitting off the hash, mending the prefix and joining again computes `Stem` |
| Resources.CollapseHyphens | internal/core/common/infra/resources.go:64-67 | the replacement loop ends and equals collapsing every run of hyphens in one pass |
| Resources.CollapseAbsorbsReplace | internal/core/common/infra/resources.go:66 | one replacement of pairs does not change what the string collapses to |
| ResourceLaws.LabelIsValid | internal/core/common/infra/resources.go:21-26 | for every input the result is a label: 1 to 63 characters, a letter first, a letter or digit last, letters, digits and hyphens between |
| ResourceLaws.LabelExactly | internal/core/common/infra/resources.go:39-142 | the label of every input, said directly: the letters and digits in lower case with one hyphen for whatever stands between two of them, from the first letter on or behind a hash, the hash at its end kept, cut to the last 63 characters |
| ResourceLaws.CleanIsSpelled | internal/core/common/infra/resources.go:48-67 | lower-casing, replacing, trimming and collapsing leave the letters and digits, with one hyphen for whatever stands between two of them |
| ResourceLaws.CaseIsIgnored | internal/core/common/infra/resources.go:42-55 | upper-casing an input does not change its label, the specially treated names included |
| ResourceLaws.HashSurvives | internal/core/common/infra/resources.go:74-141 | a hash at the end of an identifier is still at the end of its label, after a hyphen, whatever stands before it and however much is cut |
| ResourceLaws.FixedPoints | internal/core/common/infra/resources.go:39-142 | a string is its own label exactly when it is a label without adjacent hyphens that is not a bare hash |
| ResourceLaws.IdempotentExactly | internal/core/common/infra/resources.go:74-141 | applying it twice differs from applying it once exactly when the cleaned input has one of two forms: nothing but a hash from its first letter on, with digits before it, or more than a label from its first letter on, cut in front of a character that is no letter and three ahead of a hyphen |
| ResourceLaws.NotIdempotent | internal/core/common/infra/resources.go:74-106 | "1deadbeef" gives "deadbeef", which gives a different label |
| ResourceLaws.NotIdempotentWhenCut | internal/core/common/infra/resources.go:108-141 | a long name whose label gives a different label |
| ResourceLaws.RoundTrip | internal/core/common/infra/resources.go:155-172 | the trimmed prefix, or the unknown name, comes back from every generated identifier |
| ResourceLaws.HashOfNull | internal/core/common/infra/resources_test.go:164-172 | the hash of the encoding of nil properties begins with 5b9bc4ba, the identifier that the repository gives for them |
| ResourceLaws.HexIsWritten | internal/core/common/infra/resources.go:251-256 | the hexadecimal digits of a hash write its value |
| ResourceLaws.ExtractCases | internal/core/common/infra/resources.go:223-238 | splitting, dropping the last part and joining removes exactly a final hyphen and hash, and nothing otherwise |
| ResourceLaws.NameIsOwnExtract | internal/core/common/infra/resources.go:223-248 | a name is its own extract exactly when it is not empty and has no hash at its end |
| Text.SplitOfJoin | internal/core/common/infra/resources.go:228-237 | splitting undoes joining when no part contains the separator |
| Text.JoinOfSplit | internal/core/common/infra/resources.go:228-237 | joining undoes splitting for every string |
| Manifests.NormalizeManifests | internal/core/service/plan.go:310-349 | the bundles are those of each directory, in increasing directory order |
| Manifests.BundleDirectory | internal/core/service/plan.go:313-346 | the bundles of a directory hold its manifests in order; a local bundle is one local manifest, a remote bundle a non-empty run, and no two remote bundles are adjacent |
| Manifests.BundlesAreUnique | internal/core/service/plan.go:278-309 | there is only one such way to bundle a directory, so remote runs are maximal |
| Manifests.NormalizationIsUnique | internal/core/service/plan.go:312 | the iteration order of the map of directories cannot show in the result |
| Manifests.LessExactly | internal/core/service/plan.go:312 | directories are ordered by their first difference, a proper beginning first |
| Manifests.NothingIsLost | internal/core/service/plan.go:310-349 | the bundles together are the manifests of each directory in sorted order, nothing lost, repeated or moved |
| ApplyRun.Apply | internal/core/service/plan.go:147-154 | the run applies a prefix of the bundles that ends at the first abort failure, passes over all other failures, and returns a state exactly when nothing aborted |
| ApplyRun.ApplyPlan | internal/core/service/plan.go:144-155 | for the bundles of a directory tree, of which there is exactly one list, the run goes that way and returns the error of the bundle that aborted |
| ApplyRun.RunIsDetermined | internal/core/service/plan.go:147-154 | the bundles and the host determine the result, the error and the bundles applied |
| ApplyRun.ShapeIsAccepted | internal/core/service/plan.go:192-230 | the shape checks never reject a bundle of the shapes that normalisation makes: one local manifest, or remote manifests only |
| ApplyRun.BundleStringExactly | internal/core/service/plan.go:393-398 | the argument for kubectl, taken apart at the commas, is the file of every manifest of the bundle, once and in order, exactly when no path contains a comma |
| ApplyRun.EveryRemoteFileIsHandedOver | internal/core/service/plan.go:213-230 | over the commands for all bundles of a directory tree kubectl is handed the file of every manifest that is not local, once and in the order of the directories, if no path contains a comma |
| ApplyRun.NormalizedBundlesAreAccepted | internal/core/service/plan.go:181-230 | if every local manifest can be read, every bundle of a directory tree becomes a command |
| ApplyRun.AbortsExactly | internal/core/service/plan.go:158-179 | a bundle aborts the run exactly when its manifest cannot be read, its executable is missing, or its command fails under the abort setting |
| Errors.WrappingKeepsClass | internal/core/common/dry/errors.go:98-120 | any number of wrappings keeps nil, keeps non-nil, and keeps whether the error is an abort or a continue error |
| Errors.FailureClass | internal/core/domain/client_side_apply.go:78-111 | a failure is an abort error exactly under the abort setting and a continue error exactly under the continue setting, however it is wrapped |
| ValuesHeap.SetValueAtPath | internal/values_loaders.go:249-329 | updating maps and arrays in place turns the tree they represent into `Set` of it; the root object is the same, no object is shared afterwards, and only new objects and those of the value are added |
| ValuesSyntax.StepsOfWritten | internal/values_loaders.go:250-262 | writing keys and decimal indices in brackets, joined by dots, and parsing the path gives the same steps |
| ValuesSyntax.BracketedPart | internal/values_loaders.go:257-265 | a part with a bracket names the element with the number that stands between the bracket and the last character, and none if that is no number |
| ValuesSyntax.NumberExactly | internal/values_loaders.go:262 | a text is a number exactly if it is an optional sign, zeros and the decimal writing of a value of 64 bits |
| ValuesSyntax.SetExactly | internal/values_loaders.go:254-329 | a set changes one key on each level, keeps everything else, makes an array just long enough for its index, and replaces what is not a map |
| ValuesSyntax.SetIsUnique | internal/values_loaders.go:254-329 | only one tree meets this description |
| ValuesHeap.DescendKey | internal/values_loaders.go:291-297 | goes to the map under a key, creating it in place of whatever else is there |
| ValuesHeap.DescendIndex | internal/values_loaders.go:258-289 | goes to the map at an index of the array under a key, creating or extending the array and replacing what is not a map |
| ValuesHeap.Place | internal/values_loaders.go:301-326 | stores the value at the last part of the path, creating or extending the array if it has an index |
| ValuesHeap.PlugIsOwned | internal/values_loaders.go:254-298 | putting an updated part back into untouched surroundings gives a whole without sharing, whose tree is the old one with the part replaced |
| ValuesPath.ReadAfterSet | internal/values_loaders.go:247-329 | reading a path after setting it gives the value |
| ValuesPath.SetAfterSet | internal/values_loaders.go:247-329 | a second set at the same path hides the first |
| ValuesPath.ReadElsewhere | internal/values_loaders.go:247-329 | a set leaves every diverging path as it was, also when it extends an array or replaces a value of the wrong type |
| ValuesPath.SetsCommute | internal/values_loaders.go:247-329 | sets at two diverging paths commute |
| ConfigMapMapper.MapComponents | crib/scalar/k8s/configmap/v2/composite_mapper.go:109-168 | succeeds exactly when components with the same name and namespace define no key twice; then returns the first component of each group, in first-occurrence order, holding the merged group, and changes no other component |
| ConfigMapMapper.GroupOne | crib/scalar/k8s/configmap/v2/composite_mapper.go:113-135 | one round of the loop merges into the first of the group, or reports exactly the shared keys and changes nothing |
| ConfigMapMapper.MergedExactly | crib/scalar/k8s/configmap/v2/composite_mapper.go:108-138 | there are no conflicts exactly when groups are disjoint, and then a group has a value under a key exactly when one of its components does |
| ConfigMapMapper.ConflictsExactly | crib/scalar/k8s/configmap/v2/composite_mapper.go:113-135 | a conflict is reported for exactly the components that share a key with an accepted one before them, in order, with the keys that those have taken |
| ConfigMapMapper.EntriesAreConserved | crib/scalar/k8s/configmap/v2/composite_mapper.go:130-134 | without conflicts the merged components have as many data entries in total as the given ones |
| ConfigMapMapper.LastSetWins | crib/scalar/k8s/configmap/v2/composite_mapper.go:131 | the last component of a group with a non-empty application name or instance decides it |
| ConfigMapMapper.OrderIrrelevantForData | crib/scalar/k8s/configmap/v2/composite_mapper.go:53-57 | whether merging succeeds, the groups and their data do not depend on the order of the components |
| Indentation.RemoveIndentation | internal/core/common/dry/string.go:17-82 | the result is the dedented form of the text |
| Indentation.CommonIndent | internal/core/common/dry/string.go:37-54 | finds the least indentation of the lines that are not blank, or -1 when all are |
| Indentation.Cut | internal/core/common/dry/string.go:58-79 | the character loop cuts exactly the common indentation off a line and empties a blank one |
| Indentation.DedentedIsUnique | internal/core/common/dry/string.go:5-16 | a text has only one dedented form |
| Indentation.RelativeIndentationKept | internal/core/common/dry/string.go:5-16 | every line between the first and last text keeps its text and its indentation relative to the others, blank ones become empty, and some line ends without leading space or tab |
| Indentation.DedentedTwice | internal/core/common/dry/string.go:17-82 | removing indentation from the result changes nothing |
| PlanCache.Results.Add | internal/adapter/plancache/plancache.go:42-61 | appends the node to the list and keeps index and list in agreement; a construct without identifier is skipped |
| PlanCache.Results.Get | internal/adapter/plancache/plancache.go:64-70 | the index gives exactly the nodes of the list with that name, in order |
| PlanCache.WithIdExactly | internal/adapter/plancache/plancache.go:64-70 | the nodes with a name are those at all positions of the list that have it, in order |
| PlanCache.Results.Components | internal/adapter/plancache/plancache.go:73-84 | all constructs in the order in which they were added |
| PlanCache.Results.Children | internal/adapter/plancache/plancache.go:95-106 | exactly the nodes whose parent has that name, in order |
| PlanCache.WithParentExactly | internal/adapter/plancache/plancache.go:95-106 | the nodes with a parent are those at all positions of the list that have it, in order |
| PlanCache.Results.RootNodes | internal/adapter/plancache/plancache.go:109-120 | exactly the nodes without parent, in order |
| PlanCache.Results.ComponentByName | crib/plan.go:279-288 | gives the constructs whose extracted name is that of the argument |
| PlanCache.FoundByFullId | crib/plan.go:262-278 | a construct is found under its full identifier, whatever that is |
| PlanCache.FoundByPrefixExactly | crib/plan.go:262-280 | a construct whose identifier was generated from a prefix is found under that prefix exactly when the prefix is trimmed and does not end in a hash |
| PlanCache.ExtractIsGeneratedName | internal/core/common/infra/resources.go:155-172 | a prefix is looked up under the name that it generates exactly when it is trimmed and does not end in a hash |
| PlanCache.PrefixesThatFindNothing | crib/plan.go:262-280 | "app-deadbeef" and " app" find nothing of what they generated |
| PlanCache.ParentID | internal/adapter/plancache/plancache.go:132-155 | the loop over the path finds the field before the first that equals the identifier |
| PlanCache.ParentIsLastAncestor | internal/adapter/plancache/plancache.go:130-155 | when no ancestor has the identifier of the construct, its parent is its last ancestor |

## Left out

- CompositeScheduler.Composite.ValueForType: the order in which Go iterates over the two result maps is left open, and with it which of several implementers an interface parameter receives and the order of a slice of an interface type.
- OrderMatters.OrderNeverMattersExactly: speaks of concrete parameters, slices of types other than interfaces, and interface parameters that another component produces exactly; slices of interfaces, whose order map iteration decides, and interfaces that only other types implement are outside it. Every result type but those of errors is assumed to have a dynamic type.
- CompositeSuccess.SucceedsExactly: interface parameters without a producer of exactly that type are outside it, since an implementer of another type gives no edge and may not have run; so are nil results that are stored before something takes an interface, which then fails.
- CompositeScheduler.Composite.Arguments: types, method signatures and dynamic values are abstract; reflection itself and the dependency injection container around the composite are not part of this model.
- CompositeRegistry.RegisterComponents: how a display name is derived from a constructor is a parameter (`title`); only the index prefix matters for distinctness.
- CompositeSlices.SliceInCallOrder: keys stand for what formatting prints of a value (the address for a pointer); two values of one type that print alike are one entry, as in the code.
- PlanResolution.Plan.Build: child functions that return a new plan object do so from a registry of declared children, which fixes the plan graph by name, as globally unique names promise; plans left half expanded by a build that panicked are not built again; child functions with other side effects are not modelled, and neither is the text of the panic.
- `CreatePlan` walks only the direct children of the root plan and collects component errors; it is not modelled, and nothing is claimed about components of deeper plans.
- PlanResolution.Resolver.Expand: the body of the loop and the steps before and after it are methods of their own so that each proof stays small; the same holds for the loops of the composite, of ToRFC1123, of SetValueAtPath and of the ConfigMap mapper.
- Resources.ToRFC1123: lower-casing is exact for ASCII and for the two other characters whose lower case is an ASCII letter; every other character becomes a hyphen, as it does after Go's lower-casing. Invalid UTF-8 is not modelled. The assignment of a suffix to `hash` at internal/core/common/infra/resources.go:116-118 has no effect and is omitted.
- ResourceLaws.RoundTrip: the encoding of the properties to bytes (JSON, gob, text) is a parameter; the statement holds for every encoding.
- ResourceLaws.ExtractCases: a nil identifier behaves like the empty one and is not a separate case.
- ApplyRun.ApplyPlan: reading and parsing manifest files, joining paths, looking up executables and running commands are functions of the host; finding the manifests on disk is not part of this model.
- Errors.FailureClass: `errors.Is` is modelled for sentinel targets, the only ones the apply run asks about.
- ValuesHeap.SetValueAtPath: paths on which the code panics (an open bracket with nothing after it, a negative index) and shared or nil maps are preconditions; an index so large that the array cannot be allocated is not considered, and scalars are numbers.
- ConfigMapMapper.MapComponents: the pointers given are distinct, as the caller makes a new component for each; nil and empty data are the same, errors carry the identifier and the keys but not the text, and applying the merged components is not modelled.
- PlanCache.Results.Add: locks are omitted, and constructs are values with an identifier, a path and a tag.
- Locks and object pools, the preview rendering, command-line commands, doctor checks, retry and timeout wrappers, chart and cloud components, and the validation of image references: no algorithm of the engine, or text only.
