# A verified model of the module container, the tree scheduler and the settings values

This project is written in Dafny. It models the core of a game-automation host written in C#. The core has four parts:

- **The dependency-injection scope.** `ModuleBootstrap` discovers the module types. `Scope.Build` then:
  - registers them as singletons or prototypes;
  - selects the widest constructor that can be satisfied;
  - rejects prototypes inside collection parameters and dependency cycles;
  - creates the singleton factories and gives each registered type its nearest factory.

  Resolution then creates singletons once and prototypes on every request. The distance rule is: class steps first, then interfaces plus a penalty of 1000.
- **The scheduler.** `TreeEngine` walks the branch tree from a root and collects the flows declared on this tick. It compares them with the previous tick and then:
  - stops the flows that left;
  - starts the new ones;
  - resumes the running ones;
  - restarts the ones that had finished.

  `BranchContext`, `FlowContext` and `FlowEntry` supply the declaration queue, the linked cancellation tokens and the stop protocol.
- **Setting values.** `SettingValue<T>` (change events, reset, JSON read) and `PatternListValue`. The latter holds a list of wildcard patterns. It matches with the anchored regular expression built from them: `*` as `.*` and `?` as `.`.
- **The settings window names and the log capture.** The display name and field-name formatting of the settings window. A bounded log buffer that drops its oldest entries.

Modules follow the program's structure:

- `TypeTable`: the stand-in for reflection; supertypes have smaller ids.
- `Ordering`, `Collections`, `Definitions`, `Distance`, `Bootstrap`, `Registration`, `Cycles`, `Resolution`, `Build`: the container.
- `Branches`, `Flows`, `Scheduler`: the engine.
- `Settings`, `Patterns`, `Display`, `LogCapture`: the settings and the log.
- `Wrappers`: `Option` and `Result`.

Every operation is a pure function over immutable values. The mutable container is split into two parts: a `Registry` of definitions, and a `Heap` of created objects with its instance cache. Both are threaded through the calls.

The world outside the core becomes parameters:

- **The scheduler:** which flows can be created this tick and which flows finish when resumed.
- **`Do`:** whether the requested flow resolves.
- **`Delay`:** the random number.
- **The branch tree:** given as a value.

## Model

| member | source | states |
|---|---|---|
| Bootstrap.DiscoverTypes | Modules/ModuleBootstrap.cs:17-25 | a type is discovered iff it is a concrete, non-generic-definition class that is not an attribute, carries the module or prototype attribute, and is enabled; the result keeps assembly order (a subsequence of the input) |
| Bootstrap.DisabledNeverDiscovered | Modules/ModuleBootstrap.cs:37-48 | a type whose module or prototype attribute has `Enabled = false` is never discovered, whatever the other attribute says |
| Bootstrap.DiscoveredAreAnnotatedClasses | Modules/ModuleBootstrap.cs:17-35 | every discovered type is a concrete class, not a generic definition, not derived from `Attribute`, and has one of the two attributes |
| Collections.ElementType | Modules/Scope.Helpers.cs:20-29 | an array yields its element type, a supported generic collection its first argument, any other type itself; the result differs from the type exactly when it is a collection |
| Collections.ElementTypeIfCollection | Modules/Scope.Build.cs:199-208 | an element type is returned exactly for collection types |
| Collections.ElementLookupsAgree | Modules/Scope.Build.cs:199-208 | the validation's element lookup agrees with the resolution helper on every type |
| Collections.CollectionForms | Modules/Scope.Helpers.cs:5-18 | arrays are collections, plain types are not, and a generic type is one iff its definition is among `IEnumerable<>`, `IList<>`, `List<>`, `ICollection<>`, `IReadOnlyList<>`, `IReadOnlyCollection<>` |
| Definitions.Put | Modules/Scope.Build.cs:28-33 | a dictionary assignment: the key maps to the new definition, every other key is unchanged, a new key goes last, an existing one keeps its place |
| Definitions.OrderByPriority | Modules/Scope.Singleton.cs:25-30 | the result is a permutation of the input sorted by (priority, full name ignoring case) |
| Definitions.Matching | Modules/Scope.Singleton.cs:20-23 | exactly the registered singletons assignable to the requested type, without duplicates, in priority order |
| Definitions.AllOrdered | Modules/Scope.cs:92-95 | every registered type once, in priority order |
| Definitions.Unique | Modules/Scope.cs:107-117 | no candidate gives the "not found" error, several give the "multiple" error, exactly one gives that type |
| Definitions.MatchingCount | Modules/Scope.Singleton.cs:8-18 | no match means no registered type is assignable; one match is the only assignable type; two matches are two distinct assignable types |
| Definitions.FindSingletonType | Modules/Scope.Singleton.cs:8-18 | success returns the only assignable singleton type; "not found" iff none is assignable; otherwise the "multiple" error with two distinct witnesses |
| Definitions.GetRegisteredPrototypeType | Modules/Scope.cs:141-151 | the same unique-match contract over the prototype definitions: Ok is the one assignable prototype, `NoPrototype` iff none is assignable, and `MultiplePrototypes` only with two distinct assignable prototypes as witnesses |
| Definitions.ByArityDescending | Modules/Scope.Build.cs:48-51 | the constructors are permuted into non-increasing parameter count, and constructors of equal arity keep their declaration order (the sort is stable) |
| Definitions.FirstIsLongest | Modules/Scope.Build.cs:48-55 | the first satisfiable constructor in that order is one of the type's constructors and no constructor with more parameters is satisfiable |
| Definitions.NoneAccepted | Modules/Scope.Build.cs:53-57 | when the loop finds nothing, no constructor of the type is satisfiable |
| Distance.ClassSteps | Modules/Scope.Distance.cs:27-39 | the number of base-class steps from the type to the target, minimal, or -1 iff the target is never reached on the base chain |
| Distance.ClassDistance | Modules/Scope.Distance.cs:27-39 | -1 for a non-class target, otherwise the base-chain distance |
| Distance.ClassDistanceStep | Modules/Scope.Distance.cs:31-37 | the distance from a type is one more than the distance from its base class |
| Distance.Bfs | Modules/Scope.Distance.cs:47-62 | the breadth-first search returns the length of a shortest walk to the target (a walk of that length exists and none shorter does), or -1 only when no interface of the start reaches the target |
| Distance.InterfaceDistance | Modules/Scope.Distance.cs:41-63 | -1 for a non-interface target; 0 iff the target is directly implemented; a result d is the length of a shortest interface walk to the target: one of length d exists and none shorter; -1 means unreachable |
| Distance.CalculateDistance | Modules/Scope.Distance.cs:14-25 | a non-negative result implies assignability and is either the class distance or the penalty 1000 plus the shortest interface distance; the class distance wins when there is one |
| Distance.ClassStepsBound | Modules/Scope.Distance.cs:5-25 | a class distance is at most the id gap between the two types, so it is below the interface penalty in any table of fewer than 1000 types |
| Registration.RegisterType | Modules/Scope.Build.cs:20-34 | a type with the prototype attribute becomes a fresh prototype definition, any other a fresh singleton definition whose cached instance is dropped; nothing else changes |
| Registration.RegisterTypes | Modules/Scope.Build.cs:20-34 | after the loop every listed type is registered with its attribute's priority, in the right collection; unlisted types keep their definitions and instances |
| Registration.Report | Modules/Scope.Build.cs:57-93 | the failure report lists each parameter and marks it satisfied, a prototype dependency, or missing, as the scope's predicates say |
| Registration.Reports | Modules/Scope.Build.cs:61-93 | one report per constructor, and each report flags at least one unsatisfied parameter |
| Registration.SelectConstructor | Modules/Scope.Build.cs:46-95 | success returns a satisfiable constructor of the type with no satisfiable wider one; failure iff no constructor is satisfiable, carrying every constructor's report, widest first: report k tags each parameter of the k-th constructor in arity order OK, PROTOTYPE or MISSING |
| Registration.SelectFor | Modules/Scope.Build.cs:36-44 | every definition not skipped gets its selected constructor and nothing else changes; the first failing selection is the error |
| Registration.SelectAllConstructors | Modules/Scope.Build.cs:36-44 | succeeds iff every singleton without an instance and every prototype has a satisfiable constructor |
| Registration.FirstPrototypeFor | Modules/Scope.Build.cs:186-194 | a prototype assignable to the collection's element type, or none iff no prototype is |
| Registration.ValidateParams | Modules/Scope.Build.cs:177-197 | succeeds iff no parameter is a collection whose element type some prototype is assignable to; the error names the owner, the parameter and such a prototype |
| Registration.ValidateDefs | Modules/Scope.Build.cs:168-175 | succeeds iff no definition's constructor has such a parameter |
| Registration.ValidatePrototypeUsage | Modules/Scope.Build.cs:168-175 | succeeds iff neither the singletons nor the prototypes have such a parameter |
| Cycles.DetectCycle | Modules/Scope.Build.cs:264-293 | returning without a cycle finishes the node and keeps the finish order; a returned cycle is a path starting at the node that closes on the visiting set or on itself |
| Cycles.DetectInDeps | Modules/Scope.Build.cs:281-287 | every dependency is finished when no cycle is found; a cycle found starts at a dependency |
| Cycles.SearchFrom | Modules/Scope.Build.cs:214-222 | the outer loop either finishes every node in a valid finish order or returns a genuine cycle |
| Cycles.VerifyNoCycles | Modules/Scope.Build.cs:212-223 | a reported cycle is a real cycle of the dependency graph |
| Cycles.FinishOrderAcyclic | Modules/Scope.Build.cs:212-223 | a finish order covering every node shows the graph has no cycle |
| Cycles.VerifyNoCyclesCorrect | Modules/Scope.Build.cs:212-223 | the check passes iff the dependency graph is acyclic |
| Build.ParamDependencies | Modules/Scope.Build.cs:247-262 | exactly the singleton types assignable to some parameter's element type |
| Build.Dependencies | Modules/Scope.Build.cs:247-262 | a definition without a constructor has no dependencies; otherwise those of its parameters |
| Build.AddEdges | Modules/Scope.Build.cs:235-245 | every added definition gets its dependency edges, later ones replacing earlier ones; other nodes are unchanged |
| Build.DependencyGraph | Modules/Scope.Build.cs:225-245 | the nodes are all registered types; a prototype's edges are its dependencies, as are a singleton's when no prototype shares its type |
| Build.FactoryTypes | Modules/Scope.Build.cs:123-125 | exactly the registered singletons assignable to the factory interface |
| Build.InstantiateFactoriesAsWritten | Modules/Scope.Build.cs:121-134 | the factory loop as written: one result per factory type; existing objects are never changed |
| Build.AsWrittenDuplicatesSingleton | Modules/Scope.Build.cs:127-133 | a factory already created is built a second time and the cache then points to a new object |
| Build.AsWrittenTwoInstancesExample | Modules/Scope.Build.cs:121-134 | two factories where the first depends on the second: the second is created twice (objects 0 and 2), the first holds object 0 and the cache points to object 2 |
| Build.InstantiateSingletonFactories | Modules/Scope.Build.cs:121-134 | corrected: each factory type gets the scope's one cached instance, and nothing already created is replaced |
| Build.MinDistance | Modules/Scope.Build.cs:148-155 | the smallest non-negative distance, or -1 iff there is none |
| Build.Closest | Modules/Scope.Build.cs:146-164 | no candidate iff every distance is negative; a unique nearest index; or all (at least two) indices tied at the minimum |
| Build.ChooseFactory | Modules/Scope.Build.cs:146-164 | no factory iff none applies; the unique nearest factory; or the ambiguity error naming at least two factories tied at the minimum |
| Build.AssignFor | Modules/Scope.Build.cs:136-144 | every definition not skipped gets the factory `FindFactoryForType` chose and nothing else changes; fails iff some lookup is ambiguous |
| Build.AssignFactoriesToTypes | Modules/Scope.Build.cs:136-144 | on success, the singletons without an instance and all prototypes carry their nearest factory |
| Build.Prepare | Modules/Scope.Build.cs:10-15 | succeeds iff constructor selection succeeds and the result has no prototype-in-collection parameter and an acyclic dependency graph |
| Build.Finish | Modules/Scope.Build.cs:16-17 | factory creation and assignment keep the definitions and only grow the heap |
| Build.BuildScope | Modules/Scope.Build.cs:10-18 | a built scope is valid, keeps every earlier object and every supplied instance not re-registered, and fails whenever preparation fails |
| Build.SupplyOne | Modules/Scope.cs:166-167 | a supplied instance is stored as the singleton of its own type |
| Build.Supply | Modules/Scope.cs:162-167 | the scope itself and every supplied instance become cached singletons; the objects only grow |
| Build.Create | Modules/Scope.cs:160-172 | in a created scope the scope and every supplied instance whose type was not re-registered resolve to the supplied object |
| Build.ResolveSupplied | Modules/Scope.cs:21-28 | resolving a supplied type returns the supplied object and allocates nothing |
| Resolution.Ensure | Modules/Scope.Singleton.cs:32-43 | an unregistered type fails; a cached instance is returned unchanged; otherwise the created instance is cached |
| Resolution.CreateSingleton | Modules/Scope.Instantiation.cs:11-16 | a factory definition creates through the factory; without a factory, success means the selected constructor built the new object with one fitting argument per parameter, and one without factory or constructor fails |
| Resolution.CreateViaConstructor | Modules/Scope.Instantiation.cs:25-32 | the object is built from the constructor with one fitting argument per parameter |
| Resolution.ResolveArgs | Modules/Scope.Instantiation.cs:27-31 | one argument per parameter, each fitting its parameter |
| Resolution.ResolveParam | Modules/Scope.Instantiation.cs:34-62 | a collection parameter gets every assignable singleton; any other parameter gets the resolved instance |
| Resolution.Resolve | Modules/Scope.cs:21-28 | a prototype type fails; otherwise the error of the singleton lookup, or the unique matching singleton's cached instance |
| Resolution.ResolveAll | Modules/Scope.cs:35-38 | the instances of all assignable singletons in priority order |
| Resolution.EnsureAll | Modules/Scope.Singleton.cs:20-23 | one cached instance per listed type, in order |
| Resolution.CreatePrototype | Modules/Scope.Instantiation.cs:18-23 | a new object per call, through the factory when there is one, otherwise through the selected constructor |
| Resolution.ResolveUnregisteredParam | Modules/Scope.Prototype.cs:89-101 | the scope interface resolves to the scope itself, any other parameter as for registered types |
| Resolution.ResolveUnregisteredArgs | Modules/Scope.Prototype.cs:56-62 | one fitting argument per parameter |
| Resolution.InvokeUnregistered | Modules/Scope.Prototype.cs:56-64 | the unregistered type is built with arguments fitting the chosen constructor |
| Resolution.CreateUnregistered | Modules/Scope.Prototype.cs:42-65 | without constructors the default one is used; otherwise the widest satisfiable constructor is used, and no satisfiable constructor is an error |
| Resolution.New | Modules/Scope.cs:57-64 | a singleton type is refused; success returns a new object of the requested type |
| Branches.UseAll | Logic/BranchContext.cs:8-18 | branch types are queued in declaration order, flow types collected, other types ignored |
| Branches.TakeNestedLogic | Logic/BranchContext.cs:20-23 | the head of the queue is removed and returned, or nothing when the queue is empty |
| Branches.TakeAll | Logic/TreeEngine.cs:192-194 | draining the queue returns its whole contents in order and leaves it empty |
| Branches.RollbackUndoes | Logic/BranchContext.cs:29-48 | rolling back to a snapshot undoes any sequence of declarations |
| Branches.EvaluateTree | Logic/TreeEngine.cs:153-198 | only flow types are added, and the flows added are exactly those the branch declares within the depth cap (failed branches declare nothing) |
| Branches.EvaluateChildren | Logic/TreeEngine.cs:196-197 | the children are evaluated one level deeper, adding exactly what some child declares |
| Branches.Collect | Logic/TreeEngine.cs:63-66 | this tick's flows are exactly those declared from the root, all of them flow types |
| Branches.CollectIffPath | Logic/TreeEngine.cs:15-198 | a flow is collected iff a chain of nested branches from the root of at most 100 levels declares it |
| Flows.Cancel | Logic/FlowContext.cs:28-32 | a live context's token becomes cancelled, a disposed one changes nothing, and no other token is signalled directly |
| Flows.Dispose | Logic/FlowContext.cs:37-42 | the context is disposed and keeps its token |
| Flows.DisposeIdempotent | Logic/FlowContext.cs:28-42 | disposing twice is disposing once, and cancelling after disposal does nothing |
| Flows.Do | Logic/FlowContext.cs:44-49 | when the flow resolves, it gets a context whose token is linked to the caller's, disposed after the run |
| Flows.CancelReachesLinked | Logic/FlowContext.cs:16-21 | cancelling any ancestor of a linked token cancels it |
| Flows.CancelStaysBelow | Logic/FlowContext.cs:16-21 | cancelling a token that is not an ancestor leaves a token's state unchanged |
| Flows.DoLinksCancellation | Logic/FlowContext.cs:37-49 | while the nested flow runs, its context sees the caller's cancellation and cancelling it does not cancel the caller; `Do` hands back that context disposed |
| Flows.Until | Logic/FlowContext.cs:51-58 | returns at once iff the condition already holds; otherwise waits up to the given timeout or 300000 ms |
| Flows.Truncate | Logic/FlowContext.cs:65 | the cast to `int` truncates toward zero |
| Flows.Delay | Logic/FlowContext.cs:60-68 | at least 1 ms; when the low end of the jittered interval is at least 2 ms, the sleep lies within that interval, less the truncated fraction; the jitter defaults to 0.25 |
| Flows.DefaultDelayWithinQuarter | Logic/FlowContext.cs:60-68 | with the default jitter, a duration of at least 4 ms sleeps between three and five quarters of it |
| Flows.Resume | Logic/FlowEntry.cs:33-45 | a finished entry is untouched; otherwise it is finished afterwards iff the task finishes on this step |
| Flows.Stop | Logic/FlowEntry.cs:51-80 | a running flow is cancelled and then notified; on every path the task and then the context are disposed |
| Flows.StopCancelsLinked | Logic/FlowEntry.cs:51-80 | stopping a running flow cancels every token linked below its context |
| Scheduler.InitInv | Logic/TreeEngine.cs:17-29 | a new engine holds the engine invariant |
| Scheduler.StartEngine | Logic/TreeEngine.cs:31-37 | starting a started engine does nothing; otherwise both collections start empty |
| Scheduler.StopEngine | Logic/TreeEngine.cs:39-57 | stopping a stopped engine does nothing; otherwise every running entry is stopped and both collections are emptied |
| Scheduler.CancelRemoved | Logic/TreeEngine.cs:73-87 | the entries of removed types are split off unchanged, the rest kept unchanged |
| Scheduler.StartNew | Logic/TreeEngine.cs:89-105 | each new flow type that can be created gets a fresh entry resumed once; the others are reported as failed |
| Scheduler.ResumeContinuing | Logic/TreeEngine.cs:107-117 | the continuing entries already finished are recorded before any resume; the still running ones are resumed |
| Scheduler.Restart | Logic/TreeEngine.cs:119-145 | each recorded entry is stopped and replaced by a fresh one; a type whose entry cannot be created is dropped and reported |
| Scheduler.Tick | Logic/TreeEngine.cs:59-151 | a stopped engine ignores ticks; otherwise departed flows are stopped, new ones started, running ones resumed and finished ones restarted; no entry is stopped twice; every stop takes effect; failed types are left out of the previous set; the engine invariant holds afterwards: the previous types are exactly the running entries, each live and owned by its type |
| Scheduler.DiffPartition | Logic/TreeEngine.cs:68-71 | the three sets compared are disjoint and cover both ticks' types |
| Scheduler.FailedStartRetried | Logic/TreeEngine.cs:99-104 | a flow whose entry could not be created is started afresh on the next tick that can create it |
| Settings.NewSetting | Settings/SettingValue.cs:15-19 | the value starts at the default and no change event has fired |
| Settings.Assign | Settings/SettingValue.cs:23-33 | an equal value changes nothing; a different one is stored and fires the event once; the default never moves |
| Settings.AssignIdempotent | Settings/SettingValue.cs:28-29 | assigning the same value twice is assigning it once |
| Settings.ResetToDefault | Settings/SettingValue.cs:39 | the value becomes the default, and the event fires iff it differed |
| Settings.ReadJson | Settings/SettingValue.cs:46-55 | null, undefined and null-deserializing elements leave the setting as it was; any other value goes through the setter |
| Settings.AssignAllCounts | Settings/SettingValue.cs:23-33 | over any sequence of assignments the event fires once per real change and the value ends at the last one |
| Settings.ResetAfterAssignments | Settings/SettingValue.cs:21-39 | after any assignments, a reset brings back the constructor's value |
| Patterns.NewPatternList | Settings/Values/PatternListValue.cs:18-19 | a new list starts at its default patterns |
| Patterns.Add | Settings/Values/PatternListValue.cs:26-31 | a null or white-space item is ignored; any other item is appended; on the corrected, unshared list the default and the event count stay as they were |
| Patterns.Remove | Settings/Values/PatternListValue.cs:33-38 | reports whether the item was present and removes its first occurrence only |
| Patterns.AddThenRemove | Settings/Values/PatternListValue.cs:26-38 | removing a freshly added new pattern restores the list |
| Patterns.RemoveAt | Settings/Values/PatternListValue.cs:40-44 | an index in range removes that element and shifts the rest; any other index is an out-of-range error |
| Patterns.Clear | Settings/Values/PatternListValue.cs:46-50 | the list becomes empty |
| Patterns.AnyMatches | Settings/Values/PatternListValue.cs:68-72 | true iff some pattern matches |
| Patterns.Matches | Settings/Values/PatternListValue.cs:63-75 | a null or empty value matches nothing; otherwise true iff some pattern matches |
| Patterns.DefaultIgnoresCase | Settings/Values/PatternListValue.cs:63 | without the flag the match ignores case: `A*` matches `abc`, which it does not with case |
| Patterns.ClearedMatchesNothing | Settings/Values/PatternListValue.cs:24-75 | a cleared list has no patterns and matches no value |
| Patterns.WholeMatchIffSegmentation | Settings/Values/PatternListValue.cs:85-93 | the matcher accepts iff the value splits into one piece per pattern character: `*` any newline-free piece, `?` one non-newline character, anything else itself |
| Patterns.StarMatchesAll | Settings/Values/PatternListValue.cs:85-93 | `*` matches every single-line value |
| Patterns.QuestionMatchesOne | Settings/Values/PatternListValue.cs:85-93 | on single-line values `?` matches iff the value is one character long |
| Patterns.LiteralMatchesItself | Settings/Values/PatternListValue.cs:85-93 | the whole-value part of the match: a pattern without wildcards, with case, accepts exactly itself |
| Patterns.LiteralPatternMatches | Settings/Values/PatternListValue.cs:80-93 | the full `^…$` match of a non-empty pattern without wildcards, with case, accepts the pattern itself or the pattern followed by one final newline, and nothing else |
| Patterns.EmptyPatternNeverMatches | Settings/Values/PatternListValue.cs:82-83 | an empty pattern matches nothing |
| Patterns.AsWrittenNew | Settings/Values/PatternListValue.cs:18-19 | as written: the value and the default are one shared list |
| Patterns.AsWrittenEdit | Settings/Values/PatternListValue.cs:52-56 | as written: an edit of the shared list also changes the default and fires no event |
| Patterns.AsWrittenAdd | Settings/Values/PatternListValue.cs:26-31 | as written: adding edits the shared list |
| Patterns.AsWrittenReset | Settings/SettingValue.cs:39 | reset assigns the default through the setter |
| Patterns.AsWrittenResetKeepsEdits | Settings/Values/PatternListValue.cs:18-56 | as written: after edits to the shared list, reset keeps the edits and fires nothing |
| Patterns.AsWrittenResetExample | Settings/Values/PatternListValue.cs:18-31 | as written: a new list with `a*` added still holds `a*` after reset |
| Patterns.Apply | Settings/Values/PatternListValue.cs:26-50 | an edit keeps the default and fires no event |
| Patterns.EditsKeepDefault | Settings/Values/PatternListValue.cs:18-56 | corrected: after any edits the default is still the constructor's, and reset restores it |
| Patterns.EditsKeepSetting | Settings/Values/PatternListValue.cs:26-56 | any edits keep the default and the event count |
| Display.GetDisplayName | Settings/SettingsWindow.cs:100-113 | `SettingSource` shows as `Login`; a name ending in `Settings` loses it; other names show as they are |
| Display.DisplayNameStripsSuffix | Settings/SettingsWindow.cs:109-110 | any name followed by `Settings` displays as that name |
| Display.DisplayNameExamples | Settings/SettingsWindow.cs:100-113 | `MovementSettings` shows as `Movement`, `SettingSource` as `Login`, `Overlay` as itself |
| Display.FormatFieldName | Settings/SettingsWindow.cs:115-127 | a space precedes every upper-case character after the first; the result is one character longer per such character; removing those spaces gives the name back |
| LogCapture.NewAppender | CodeExecution/LogCaptureAppender.cs:15-19 | a new buffer is empty and keeps the capacity it was given |
| LogCapture.DefaultCapacity | CodeExecution/LogCaptureAppender.cs:15 | without an argument the capacity is 1000 |
| LogCapture.TrimFront | CodeExecution/LogCaptureAppender.cs:44-50 | with a non-negative capacity the newest entries that fit are kept; a negative capacity removes from an empty list, which fails |
| LogCapture.Append | CodeExecution/LogCaptureAppender.cs:32-52 | the entry is appended and the buffer holds the newest entries up to the capacity; a negative capacity leaves it empty |
| LogCapture.Clear | CodeExecution/LogCaptureAppender.cs:54-60 | the buffer becomes empty and keeps its capacity |
| LogCapture.AppendAllKeepsNewest | CodeExecution/LogCaptureAppender.cs:32-52 | over any run of appends the buffer holds the newest entries since it was empty, in arrival order |
| LogCapture.KeepsAllBelowCapacity | CodeExecution/LogCaptureAppender.cs:44-50 | below capacity nothing is dropped |

## Left out

- Reflection (`GetConstructors`, `IsAssignableFrom`, custom attributes, generic definitions) is replaced by a type table. In it every supertype has a smaller id than its subtypes. Activation (`Activator`, `Invoke`) creates an object record.
- Resolution.Ensure: a re-entrant request for a singleton still under construction returns a `Reentrant` error. The source has no guard here and would overflow the stack. The build rejects every cycle first, so a built scope never takes this path.
- `CanNew`, `CanResolve` and `CanSatisfyParameter` are written as the predicates the source computes, with no contract of their own. The source's answer is optimistic, because it does not look at nested dependencies, so it is not a partner of `New` or `Resolve`.
- `HashSet` and `Dictionary` enumeration order is taken as insertion order. The scheduler's flow sets are sets, so its result does not depend on an order.
- Exceptions that the source catches and logs become error values or no-ops. Logging itself is not modelled.
- `SyncTask` and the task library are reduced to an oracle: whether a flow's entry can be created this tick, and whether a resumed task finishes. Async/await, threads and wall-clock waits are not modelled.
- Flows.Delay: durations are exact reals rather than doubles, and the random number is a parameter. The sleep is an unbounded integer: a randomized value of 2^31 ms or more (about 24.8 days) does not fit the source's `int`, see `Flows.Truncate`.
- Flows.Truncate: rounds toward zero over all integers. The C# `(int)` cast of a double outside the `int` range is not that integer: on x64 before .NET 9 it gives `int.MinValue`, so `Math.Max` sleeps 1 ms, and from .NET 9 on it saturates at `int.MaxValue`. Neither is modelled.
- Flows.DoLinksCancellation: speaks of the child context while it runs. After `Do` the child's source is disposed, which in .NET unregisters it from the parent token, so a later cancellation of the parent does not reach it. The model's cancellation state has no time, so the disposed child is not described.
- Flows.Until: models only the decision taken at the call (return now, or wait with which timeout). The polling loop is time-based and is left out.
- The engine's root branch type is a parameter. The branch tree is a value: which types a branch declares, and which branches fail to resolve or throw.
- `LogCaptureAppender`: the lock, the log4net event fields (the timestamp becomes a tick count) and `RenderedMessage` formatting are left out.
- LogCapture.Entries: the source returns a copy of the list under the lock. Sequences are values, so the model needs no copy and the function has no contract.
- ImGui rendering in the settings window (`RenderImGui`, `MaxLength`, the pattern hint) and `WriteJson` serialization are left out, because they are drawing and output.
- Settings.ReadJson: a deserializer exception is not modelled; the element is given already parsed.
- Settings.Assign: list-valued settings compare by reference in the source, so a value read from JSON is always a new list and always fires the change event. The model compares contents.
- Display.FormatFieldName: upper case is ASCII `A`–`Z`. `char.IsUpper` also accepts other Unicode upper-case letters.
- Patterns.Add: its ensures that the default and the change count stay as they were describe the corrected list with a default of its own. In the source the default is the same list object and grows too (see Findings; `Patterns.AsWrittenAdd` models that).
- Patterns.Remove: the same as `Patterns.Add`: in the source the shared default loses the item too.
- Patterns.RemoveAt: the same as `Patterns.Add`: in the source the shared default loses the element too.
- Patterns.Clear: the same as `Patterns.Add`: in the source the shared default is emptied too.
- Patterns.LiteralMatchesItself: is about the whole-value part of the match only. The full match also accepts one final newline after the literal, which `Patterns.LiteralPatternMatches` states.
- Patterns.Edit: the list edits reassign the list to itself, so as written they fire no change event, and the model keeps that. A change event for list edits, which other settings values force by assigning a new list, is not modelled.
- Patterns.Matches: case-insensitive matching folds ASCII letters only. The regular-expression engine's culture-aware folding is not modelled.
- Patterns.Matches: characters are Unicode scalar values, while .NET strings and its regular-expression engine work on UTF-16 code units. A character outside the Basic Multilingual Plane is one character to `?` and `*` here but two to `.` in the source, so matches on such text can differ.
- AnyMatches: inherits both differences of `Patterns.Matches`: ASCII-only case folding, and Unicode scalar values where the source sees UTF-16 code units.
- Patterns.QuestionMatchesOne: "one character" means one Unicode scalar value. In the source, `?` on a character outside the Basic Multilingual Plane sees two UTF-16 code units and does not match.
- Ordering.NameLe: the `OrdinalIgnoreCase` comparison folds ASCII letters only, and compares Unicode scalar values rather than UTF-16 code units. The source also folds non-ASCII letters, so two names differing only in such letters compare differently here.
- Definitions.OrderByPriority: the name tie-break uses `Ordering.NameLe`, so it shares that comparison's ASCII-only folding.
- Build.Finish: builds the factories with the corrected step `Build.InstantiateSingletonFactories`, not the source's loop at Modules/Scope.Build.cs:121-134. That loop is modelled separately as `Build.InstantiateFactoriesAsWritten` (see Findings). As written, the source creates a second instance of a factory that already has one. It also throws a `NullReferenceException` for a supplied instance that is a factory, because such a definition has no constructor. The `Grows` and cached-instance promises hold for the corrected step only.
- Build.BuildScope: composes `Build.Finish`, so it uses the corrected factory step in the same way.
- Build.Create: composes `Build.BuildScope`. A supplied instance that implements the factory interface is kept as its singleton's instance, where the source's factory loop fails on it.
- Resolution.CreateSingleton: `IFactory.Create(scope, type)` is a call into code the model cannot see. It is modelled as returning one fresh object of the requested type, with no other effect on the scope and without failing. A real factory receives the scope and could resolve other types, change the scope or throw.
- Resolution.CreatePrototype: the factory path uses the same abstraction of `IFactory.Create` as `Resolution.CreateSingleton`.
- Distance.CalculateDistance: integers are unbounded. The source's `int` cannot overflow for the type depths in question, which `Distance.ClassStepsBound` bounds by the type table's size.

## Findings

| source | as written | input that shows it | evidently intended | confidence | as-written member | corrected member |
|---|---|---|---|---|---|---|
| Modules/Scope.Build.cs:121-134 | every singleton factory is built through its constructor and the result overwrites the cached instance, even when the factory was already created as another factory's dependency | factories F1 and F2 where F1's constructor takes F2 and F1 comes first: F2 is created for F1, then created again, so F1 holds a different F2 than the scope | one instance per singleton, created through the cache as `EnsureSingletonInstance` does | not executed | Build.AsWrittenTwoInstancesExample | Build.InstantiateSingletonFactories |
| Settings/Values/PatternListValue.cs:18-56 | the constructor passes one list object as both value and default, and `Add`, `Remove`, `RemoveAt` and `Clear` edit it in place, so the default changes with every edit and `ResetToDefault` (Settings/SettingsWindow.cs:89) restores nothing | `new PatternListValue()`, `Add("a*")`, `ResetToDefault()`: the list is still `["a*"]` | reset brings back the patterns given at construction | not executed | Patterns.AsWrittenResetExample | Patterns.EditsKeepDefault |
