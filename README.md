# diet4j module registry, modelled in Dafny

This project models the core of diet4j, a module framework for Java:

- **the resolution engine of `AbstractModuleRegistry`**
  - the candidate tie-break of `determineSingleResolutionCandidate`;
  - recursive `resolve(meta, recursive)`, with its three tables: modules by descriptor, forward run-time dependencies, and run-time uses;
  - the table getters;
  - the listener list and event delivery;
  - `toString`.
- **the `StatusMain` command-line tool**
  - its flag parser and the dispatch of `main`;
  - `showModule` by name and the recursive module-tree dump;
  - the `showModuleRegistry` listing.
- **`ScanningClasspathModuleRegistry`**
  - the one-shot `instantiate` singleton;
  - `createClassLoader`;
  - the URL loop of `findModuleMetas`: jar-path extraction, the protocol switch, and jars ordered before directories.
- **`ModuleActivationException`**: its constructors and `toString`.

Module layout:

- `wrappers.dfy`: `Option` and `Result`.
- `meta.dfy` (`Metadata`): requirements, descriptors, modules and failures, plus the collaborators the registry calls, passed in as an `Env`:
  - `determineResolutionCandidates`;
  - `createModule`;
  - a rank that states the descriptor graph has no cycle.
- `resolution.dfy` (`Resolution`):
  - `resolve` written as functions over the three tables (`Tables`);
  - the lemmas about what a resolution does;
  - the uses-table quirk described under Findings.
- `registry.dfy` (`Registry`):
  - the class `ModuleRegistry`. Its fields are the tables and the listener list. Its methods update them in place and are proved to compute the functions of `Resolution`;
  - the listener list operations;
  - the registry's `toString`.
- `status.dfy` (`Status`): `StatusMain`. Printed output is returned as the string that would have been printed.
- `scanning.dfy` (`Scanning`): `ScanningClasspathModuleRegistry`.
- `activation.dfy` (`Activation`): `ModuleActivationException`.
- `text.dfy` (`Text`): the `String` and `Collections` operations the code relies on:
  - `indexOf`;
  - decimal printing of an `int`;
  - `compareTo`;
  - `Collections.sort`.

`resolve` has no guard against re-entering a descriptor that is still being resolved. On a cyclic descriptor graph it recurses until the stack overflows. The model follows the code: every resolution lemma and method requires `Ranked(env)`, meaning every candidate of a requirement ranks strictly below the descriptor that requires it.

## Model

| member | source | states |
|---|---|---|
| Registry.ModuleRegistry.constructor | diet4j-core/src/main/java/org/diet4j/core/AbstractModuleRegistry.java:41-45 | A new registry has empty tables and no listener list (null), and satisfies the table invariant `Valid`. |
| Registry.ModuleRegistry.DetermineSingleResolutionCandidate | diet4j-core/src/main/java/org/diet4j/core/AbstractModuleRegistry.java:50-76 | No candidate gives NoModuleResolutionCandidateException. When all candidates share the first one's groupId, the first (most recent) is returned. When some groupId differs, ModuleResolutionCandidateNotUniqueException carries all the candidates. |
| Registry.ModuleRegistry.ResolveRecursively | diet4j-core/src/main/java/org/diet4j/core/AbstractModuleRegistry.java:81-89 | `resolve(meta)` is `resolve(meta, true)`: the same new tables and the same result. When the uses table was the inverse of the forward arrays and no module can fill two slots of one forward array, it still is. |
| Registry.ModuleRegistry.Resolve | diet4j-core/src/main/java/org/diet4j/core/AbstractModuleRegistry.java:94-180 | The in-place resolve computes exactly the tables and result of `Resolution.Resolve`, keeps the table invariant, and leaves the listeners alone. A returned module is afterwards what `getResolutionOf` gives for its descriptor. |
| Registry.ModuleRegistry.ResolveRequirements | diet4j-core/src/main/java/org/diet4j/core/AbstractModuleRegistry.java:110-138 | The requirement loop of a recursive resolve computes `Resolution.ResolveReqs`, with the tables it leaves behind. It keeps the table invariant. On success it returns one slot per requirement, aligned with the requirements. |
| Registry.ModuleRegistry.ResolveCandidates | diet4j-core/src/main/java/org/diet4j/core/AbstractModuleRegistry.java:113-132 | The candidate loop of one requirement computes `Resolution.TryCandidates`, with the tables it leaves behind. |
| Registry.ModuleRegistry.CreateModule | diet4j-core/src/main/java/org/diet4j/core/AbstractModuleRegistry.java:139-176 | Creating and registering the module computes `Resolution.Create`. A failing createModule leaves every table as it was. A success registers the new module and, when recursive, its forward array and the uses of its dependencies. The table invariant holds afterwards. |
| Registry.ModuleRegistry.RecordUses | diet4j-core/src/main/java/org/diet4j/core/AbstractModuleRegistry.java:148-172 | The uses update loop, including its inner "already there" search, computes the update as written, `Resolution.AddUses`, on the uses table and changes nothing else. A dependency that already lists the new module gets null. See Findings. |
| Registry.ModuleRegistry.GetResolutionOf | diet4j-core/src/main/java/org/diet4j/core/AbstractModuleRegistry.java:185-192 | A module is returned exactly when the descriptor is registered. In a valid registry it is a module created from that descriptor, with an identity already handed out. |
| Registry.ModuleRegistry.DetermineRuntimeDependencies | diet4j-core/src/main/java/org/diet4j/core/AbstractModuleRegistry.java:197-204 | In a valid registry, a forward array has one slot per requirement of the module. Each filled slot holds the registered module of one of that requirement's candidates. An empty (null) slot occurs only for an optional requirement. |
| Registry.ModuleRegistry.DetermineRuntimeUses | diet4j-core/src/main/java/org/diet4j/core/AbstractModuleRegistry.java:209-216 | A uses array exists only for a key of the uses table. In a valid registry it belongs to a registered module and lists registered modules only. |
| Registry.ModuleRegistry.AddModuleRegistryListener | diet4j-core/src/main/java/org/diet4j/core/AbstractModuleRegistry.java:254-262 | The listener is appended, duplicates included. The list is created when it was null. |
| Registry.ModuleRegistry.RemoveModuleRegistryListener | diet4j-core/src/main/java/org/diet4j/core/AbstractModuleRegistry.java:267-272 | The first equal listener is removed. Before any listener was added, the call fails with a NullPointerException (`NullList`) and the list stays null. |
| Registry.RemoveFirstAbsent | diet4j-core/src/main/java/org/diet4j/core/AbstractModuleRegistry.java:271 | Removing a listener that is not subscribed leaves the list unchanged. |
| Registry.RemoveFirstPresent | diet4j-core/src/main/java/org/diet4j/core/AbstractModuleRegistry.java:271 | Removing a subscribed listener deletes exactly its first occurrence and keeps the order of the rest. |
| Registry.RemoveFirstCount | diet4j-core/src/main/java/org/diet4j/core/AbstractModuleRegistry.java:271 | Removal takes exactly one copy of the listener out of the multiset of listeners. |
| Registry.ModuleRegistry.FireModuleAddedEvent | diet4j-core/src/main/java/org/diet4j/core/AbstractModuleRegistry.java:279-294 | With no listeners, nothing is delivered. Otherwise the listeners of a snapshot of the list are notified in order, up to and including the first that throws (`Delivered`). The call throws exactly when that last listener threw. The subscriptions and removals each listener makes during delivery change the list (`Notify`) but not who receives this event. |
| Registry.Delivered | diet4j-core/src/main/java/org/diet4j/core/AbstractModuleRegistry.java:290-293 | The delivered listeners are a prefix of the snapshot. No listener before the last one throws. The delivery stops short of the end only after a listener that throws. |
| Registry.DeliveredUnique | diet4j-core/src/main/java/org/diet4j/core/AbstractModuleRegistry.java:290-293 | Those three facts determine the delivered prefix: it ends exactly at the first listener that throws, or runs over the whole snapshot when none throws. |
| Registry.SelfRemovingListeners | diet4j-core/src/main/java/org/diet4j/core/AbstractModuleRegistry.java:282-293 | When listeners unsubscribe themselves as they are notified, each is still notified, because delivery iterates a copy. After the first k deliveries exactly the rest of the list remains. |
| Registry.DescriptionCount | diet4j-core/src/main/java/org/diet4j/core/AbstractModuleRegistry.java:302-305 | `toString` splits into the class name with "(", the decimal count of known names, and " known modules)". The text ends in " known modules)". |
| Text.DecimalRoundTrip | diet4j-core/src/main/java/org/diet4j/core/AbstractModuleRegistry.java:304 | The printed count is a non-empty string of digits, without a leading zero, that reads back as the count. |
| Resolution.ResolveFacts | diet4j-core/src/main/java/org/diet4j/core/AbstractModuleRegistry.java:95-180 | A null descriptor throws NullPointerException and changes nothing. A registered descriptor returns its cached module and changes nothing (idempotence). A success returns a registered module created from the descriptor. A failure leaves the descriptor unregistered. The tables stay well-formed (registered modules, aligned forward arrays, uses naming registered modules only). The instance and forward tables only grow: no registration and no forward array is lost. The uses table keeps every key, though an entry may become null (see Findings). |
| Resolution.ResolveMetaFacts | diet4j-core/src/main/java/org/diet4j/core/AbstractModuleRegistry.java:105-178 | As ResolveFacts, plus the following. A new module has a fresh identity. A recursive resolve records its forward array. Only descriptors ranked no higher than the one resolved are added. A failure keeps the dependencies it registered on the way, all ranked below the descriptor. A caught exception is well chained all the way down (`CaughtChain`). A ModuleNotFoundException comes only from createModule of the descriptor itself. A ModuleResolutionException names the descriptor and a non-optional requirement of it. It chains null exactly when that requirement has no candidate, and otherwise a failure of the requirement's last candidate that is again well chained. |
| Resolution.ResolveReqsFacts | diet4j-core/src/main/java/org/diet4j/core/AbstractModuleRegistry.java:110-138 | The requirement loop fills one slot per requirement, each with a registered module of one of that requirement's candidates, or empty (null) only for an optional requirement. On a failure, the modules found for the earlier requirements stay registered. A caught failure is a ModuleResolutionException for a non-optional requirement of the descriptor, well chained as in ResolveMetaFacts. |
| Resolution.TryCandidatesFacts | diet4j-core/src/main/java/org/diet4j/core/AbstractModuleRegistry.java:117-132 | The candidate loop keeps the tables well-formed. The instance and forward tables only grow; the uses table keeps every key, though an entry may become null (see Findings). The loop adds descriptors ranked below the requiring one only. A module found is registered and was created from one of the candidates still to be tried. An abort is never an exception the loop catches. |
| Resolution.FirstSuccessWins | diet4j-core/src/main/java/org/diet4j/core/AbstractModuleRegistry.java:118-133 | Candidates are tried in order. Every candidate tried before the last failed with a caught exception. The slot gets the last tried candidate's module exactly when that candidate succeeded. The requirement is exhausted exactly when every candidate was tried and failed with a caught exception. An exhausted non-optional requirement then chains the very failure the last tried candidate threw (or the incoming one when none was tried). An optional one keeps the incoming value. |
| Resolution.TryCandidatesChain | diet4j-core/src/main/java/org/diet4j/core/AbstractModuleRegistry.java:117-137 | An exhausted non-optional requirement chains null exactly when it has no candidate, and otherwise a failure of its last candidate that is itself well chained (`CaughtChain`). An exhausted optional requirement chains nothing. |
| Resolution.NonRecursiveResolve | diet4j-core/src/main/java/org/diet4j/core/AbstractModuleRegistry.java:107-146 | A non-recursive resolve of a new descriptor succeeds exactly when createModule returns an instance. It then registers only that module, with no forward array and no uses. On failure nothing changes. |
| Resolution.NullCreationFails | diet4j-core/src/main/java/org/diet4j/core/AbstractModuleRegistry.java:140-176 | When createModule returns null, the descriptor is not registered. A non-recursive resolve throws NullPointerException and changes nothing. The candidate loops do not catch that exception. |
| Resolution.AddUsesEffect | diet4j-core/src/main/java/org/diet4j/core/AbstractModuleRegistry.java:148-172 | When ret was not among d's users, the uses update depends on how many slots d fills. No slot leaves d's entry untouched. One slot appends ret. Any odd count leaves ret listed. An even, non-zero count stores null. |
| Resolution.AddUsesAfterPresent | diet4j-core/src/main/java/org/diet4j/core/AbstractModuleRegistry.java:156-171 | Once ret is among d's users, an even number of further slots holding d keeps it listed, and an odd number stores null. |
| Resolution.DuplicateDependencyLosesUse | diet4j-core/src/main/java/org/diet4j/core/AbstractModuleRegistry.java:148-171 | A concrete descriptor has two requirements that resolve to the same module, so that module appears twice in its forward array. Resolving it stores null as that module's uses, so the uses table is no longer the inverse of the forward arrays. The corrected update would list the descriptor's module. |
| Resolution.FailedResolveKeepsDependencies | diet4j-core/src/main/java/org/diet4j/core/AbstractModuleRegistry.java:113-136 | A concrete descriptor whose first requirement resolves and whose second has no candidate: the resolve fails with a ModuleResolutionException for the second, and the first dependency stays registered with its forward array. |
| Resolution.ResolveKeepsInverse | diet4j-core/src/main/java/org/diet4j/core/AbstractModuleRegistry.java:148-171 | When no descriptor is a candidate of two requirements of one descriptor, resolve keeps the uses table the inverse of the forward arrays: every module in a forward array lists the depending module among its uses. |
| Resolution.InverseCreate | diet4j-core/src/main/java/org/diet4j/core/AbstractModuleRegistry.java:140-171 | Under the same condition, registering one module appends it to the uses of each of its dependencies, which keeps the inverse relation. |
| Resolution.SlotsDistinct | diet4j-core/src/main/java/org/diet4j/core/AbstractModuleRegistry.java:113-134 | Under the same condition, no module fills two slots of one forward array. |
| Resolution.AddUsesIntendedInverse | diet4j-core/src/main/java/org/diet4j/core/AbstractModuleRegistry.java:312-326 | With the update the comment intends, uses is the inverse of the forward array: every non-null dependency lists the new module, earlier users are kept, and no other entry changes. |
| Status.FlagName | diet4j-status/src/main/java/org/diet4j/status/StatusMain.java:61-65 | The flag name is the argument with its "--" or "-" prefix removed. The prefix plus the name gives back the argument. |
| Status.ParseArguments | diet4j-status/src/main/java/org/diet4j/status/StatusMain.java:51-78 | The argument loop computes `ParseArgs`: the flags map, or None when main prints the synopsis. |
| Status.ParseStops | diet4j-status/src/main/java/org/diet4j/status/StatusMain.java:56-75 | Parsing stops with the synopsis exactly when some argument is not a flag and does not follow a flag. |
| Status.ParseKeys | diet4j-status/src/main/java/org/diet4j/status/StatusMain.java:56-78 | A parsed command line holds exactly the flags named in it. |
| Status.ParseValue | diet4j-status/src/main/java/org/diet4j/status/StatusMain.java:56-78 | A flag's value comes from its last occurrence: the next argument when that is not a flag, otherwise NOARG. |
| Status.MainCommand | diet4j-status/src/main/java/org/diet4j/status/StatusMain.java:48-111 | main parses the arguments, then dispatches on the flags (`Dispatch`). When it shows the synopsis, the printed text is the four synopsis lines, each followed by a line break. Otherwise main prints nothing itself; the listing and the module dump are printed by `ShowModuleRegistry` and `ShowModuleByName`. |
| Status.PrintSynopsis | diet4j-status/src/main/java/org/diet4j/status/StatusMain.java:292-298 | synopsis() prints its four lines in order, each followed by a line break. |
| Status.SynopsisShape | diet4j-status/src/main/java/org/diet4j/status/StatusMain.java:292-298 | The synopsis starts with the line "Synopsis:". It has one more line per long option that main dispatches on (--module, --showmoduleregistry, --help), in that order. Each such line starts with four spaces, "--" and the option. --help alone shows the synopsis, --showmoduleregistry alone shows the listing, and --module with a value shows that module. |
| Status.DispatchOrder | diet4j-status/src/main/java/org/diet4j/status/StatusMain.java:80-110 | -h/--help wins over everything, and -s/--showmoduleregistry wins over the module flags. Without any of these and without a module flag, main shows the synopsis. |
| Status.ModuleCommand | diet4j-status/src/main/java/org/diet4j/status/StatusMain.java:88-109 | The last -m (or, without any -m, the last --module) picks the module when a value follows it; otherwise main shows the synopsis. The recursive, long and verbose options count wherever they occur on the line. |
| Status.ChildBelow | diet4j-status/src/main/java/org/diet4j/status/StatusMain.java:254-260 | Every child in a forward array ranks below its parent, so the recursive dump ends. |
| Status.ShowModuleTree | diet4j-status/src/main/java/org/diet4j/status/StatusMain.java:222-287 | The recursive dump prints exactly `DumpModule`. That covers the indentation, the verbose jar and " optional" part, "-- repeated, see above", the children, the non-recursive verbose lines of requirements, and the unresolved lines. It ends with a NullPointerException when a module has requirements but no forward array. |
| Status.PrintChildren | diet4j-status/src/main/java/org/diet4j/status/StatusMain.java:255-260 | The children loop prints exactly `DumpChildren`: each slot with the requirement at the same index, threading the set of modules shown so far. |
| Status.PrintIndent | diet4j-status/src/main/java/org/diet4j/status/StatusMain.java:231-233 | Four spaces are printed per level of indentation. |
| Status.PrintRequirementLines | diet4j-status/src/main/java/org/diet4j/status/StatusMain.java:261-278 | The verbose requirement loop prints one line per requirement, marking it resolvable exactly when it has a candidate. |
| Status.RequirementLineParts | diet4j-status/src/main/java/org/diet4j/status/StatusMain.java:264-277 | A verbose requirement line starts with one more level of indentation, the requirement and " (". It holds "optional, " and a line break right after that exactly when the requirement is optional. It ends in "unresolvable)" exactly when the requirement has no candidate, and otherwise in "resolvable)". |
| Status.DumpSeen | diet4j-status/src/main/java/org/diet4j/status/StatusMain.java:244-252 | In long mode nothing is tracked. Otherwise the set of modules shown only grows, gains the module itself, and gains registered modules only. |
| Status.ChildrenSeen | diet4j-status/src/main/java/org/diet4j/status/StatusMain.java:258-260 | Across the children loop, the set of modules shown only grows and gains registered modules only. |
| Status.DumpRepeated | diet4j-status/src/main/java/org/diet4j/status/StatusMain.java:244-247 | A module already shown prints its heading with "-- repeated, see above" and is not expanded again. |
| Status.ShowModuleByName | diet4j-status/src/main/java/org/diet4j/status/StatusMain.java:175-209 | An unparsable name is logged. No candidate crashes with "Cannot find a module: " and the name. Several candidates crash with "More than one module found:" and the list of candidates. A single candidate is resolved as `Resolution.Resolve` does it: a caught failure is logged, any other escapes main, and a success is dumped from indent 0, tracking shown modules unless --long is given. |
| Status.ShowModuleRegistry | diet4j-status/src/main/java/org/diet4j/status/StatusMain.java:130-161 | The listing is the registry's text, then one line per known name, in sorted order, with the versions of its candidates ("<?>" for none) or the parse-error text. |
| Status.PrintNameLine | diet4j-status/src/main/java/org/diet4j/status/StatusMain.java:141-159 | One line of the listing: the name, then each candidate's version or "<?>", or the parse-error text. |
| Status.ListingSorted | diet4j-status/src/main/java/org/diet4j/status/StatusMain.java:136-141 | The names are listed as a sorted permutation of the name set, and the listing does not depend on the set's iteration order. |
| Text.IndexOf | diet4j-core/src/main/java/org/diet4j/core/ScanningClasspathModuleRegistry.java:109-113 | `indexOf` gives -1 exactly when the character is absent. Otherwise it gives the position of its first occurrence. |
| Text.SortSorted | diet4j-status/src/main/java/org/diet4j/status/StatusMain.java:138 | `Collections.sort` of the names gives an ascending permutation of them in `compareTo` order. |
| Text.SortIndependentOfOrder | diet4j-status/src/main/java/org/diet4j/status/StatusMain.java:136-138 | Sorting gives the same list whatever order the names come in. |
| Scanning.JarPathOfJarUrl | diet4j-core/src/main/java/org/diet4j/core/ScanningClasspathModuleRegistry.java:107-116 | A jar URL's file part of the form scheme:path!entry yields the path, whatever colons the path holds. |
| Scanning.JarPathUnchanged | diet4j-core/src/main/java/org/diet4j/core/ScanningClasspathModuleRegistry.java:109-116 | A file part with no ':' and no '!' after its first character is kept whole. |
| Scanning.JarPathShape | diet4j-core/src/main/java/org/diet4j/core/ScanningClasspathModuleRegistry.java:109-116 | The extracted path is no longer than the file part. It holds a '!' only when the text after the scheme starts with '!', and then that text is kept whole. |
| Scanning.ExtractJarPath | diet4j-core/src/main/java/org/diet4j/core/ScanningClasspathModuleRegistry.java:107-116 | The extraction statements compute `JarPath`. |
| Scanning.VisitUrl | diet4j-core/src/main/java/org/diet4j/core/ScanningClasspathModuleRegistry.java:105-128 | The protocol switch for one URL: a jar URL adds its jar path or fails when the jar cannot be opened; a file URL adds its file when it is a directory; other protocols change nothing. |
| Scanning.CollectFails | diet4j-core/src/main/java/org/diet4j/core/ScanningClasspathModuleRegistry.java:102-129 | The URL loop fails exactly when some jar URL names a jar that cannot be opened. |
| Scanning.CollectContents | diet4j-core/src/main/java/org/diet4j/core/ScanningClasspathModuleRegistry.java:102-129 | A successful URL loop collects the jar paths of the jar URLs and the file URLs that are directories, each in URL order. Other protocols are ignored. |
| Scanning.ScanOrder | diet4j-core/src/main/java/org/diet4j/core/ScanningClasspathModuleRegistry.java:131-135 | All jars are scanned before all directories, each group in the order found. |
| Scanning.FindModuleMetas | diet4j-core/src/main/java/org/diet4j/core/ScanningClasspathModuleRegistry.java:93-136 | Fails exactly when a jar cannot be opened. Otherwise it scans the jar paths of the jar URLs, then the directories of the file URLs. |
| Scanning.SingletonHolder.Instantiate | diet4j-core/src/main/java/org/diet4j/core/ScanningClasspathModuleRegistry.java:45-57 | With a singleton already present, the call throws IllegalStateException naming it and nothing changes. Otherwise it succeeds exactly when every jar opens, then stores and returns a registry built from the scanned sources. When scanning throws, no singleton is stored. |
| Scanning.CreateClassLoader | diet4j-core/src/main/java/org/diet4j/core/ScanningClasspathModuleRegistry.java:78-84 | Every module gets the parent class loader itself, so all modules share it. |
| Activation.WithCause | diet4j-core/src/main/java/org/diet4j/core/ModuleActivationException.java:37-42 | Keeps the descriptor and the cause, with no message argument. |
| Activation.WithMessage | diet4j-core/src/main/java/org/diet4j/core/ModuleActivationException.java:50-55 | Keeps the descriptor and the message, with a null cause. |
| Activation.WithMessageAndCause | diet4j-core/src/main/java/org/diet4j/core/ModuleActivationException.java:64-70 | Keeps the descriptor, the message and the cause. |
| Activation.ConstructorsAgree | diet4j-core/src/main/java/org/diet4j/core/ModuleActivationException.java:37-70 | The message constructor is the three-argument one with a null cause. Every constructor keeps the descriptor. |
| Activation.ToString | diet4j-core/src/main/java/org/diet4j/core/ModuleActivationException.java:77-93 | The text starts with "ModuleActivationException: could not activate Module ". |
| Activation.ToStringParts | diet4j-core/src/main/java/org/diet4j/core/ModuleActivationException.java:80-92 | The text splits into the prefix, the descriptor's text (or "null"), and ": " with the message exactly when the message is not null. Different messages print differently. |

## Left out

- I/O is modelled as return values:
  - Printing to `System.out` becomes the string that would be printed.
  - Every `println` ends its line with "\n". Java uses `System.lineSeparator()`, which is "\r\n" on Windows; the model fixes it to "\n".
  - `log.severe` becomes the `LoggedParseError` / `LoggedFailure` outcomes.
  - The uncaught `RuntimeException`s of `showModule` become `Crashed` outcomes.
- Concurrency is left out: `synchronized`, `RESOLVE_LOCK` and the listener-list lock. Every operation runs as if alone.
- Collaborators outside this core are parameters:
  - `determineResolutionCandidates` and `createModule` (with its four outcomes: instance, null, ModuleNotFoundException, unchecked exception) come from `Env`;
  - `ModuleRequirement.parse` and the `toString` of Module, ModuleMeta and ModuleRequirement come from `parse` and `Show`;
  - `getResources("META-INF/")` is the URL sequence, with `File.isDirectory` and `new JarFile` as predicates;
  - `nameSet()` is a sequence of distinct names, in the set's iteration order;
  - the class name of `getClass().getName()` is a string.
- `findRegistry` and its `RuntimeException` are left out: the registry is passed in directly.
- Reading module descriptors out of jars and directories (`addParsedModuleMetasFromJars`, `addParsedModuleMetasFromDirectories`) is left out. It is class-path I/O. The model stops at the sequence of sources in the order they are parsed.
- Class loading is left out: `AbstractModuleRegistry.createClassLoader` (`ModuleClassLoader` and `MalformedURLException`), and `DEFAULT_DO_NOT_LOAD_CLASS_PREFIXES`. Only `createClassLoader` of the scanning registry is modelled.
- Cyclic descriptor graphs are excluded by the `Ranked` precondition. On a cycle the source recurses without end.
- Null groupIds are excluded: the model's groupId is a plain string. The source's tie-break calls `groupId.equals` (AbstractModuleRegistry.java:67-69) and would throw NullPointerException on a candidate without a groupId.
- Resolution.ResolveMetaFacts: states the shape of a caught failure's chain (`CaughtChain`: whose failure, for which requirement, down to a ModuleNotFoundException). That the chained failure is the very exception the last candidate's resolve threw is proved per requirement, by Resolution.FirstSuccessWins.
- Resolution.ResolveReqsFacts: as for ResolveMetaFacts, the exact chained failure is proved per requirement by Resolution.FirstSuccessWins.
- Status.ShowModuleTree: the set of modules shown (`haveAlready`, a `HashSet` mutated in place) is threaded as a value. Nothing else holds that set, so no aliasing is lost.
- Text.Below: `String.compareTo` compares UTF-16 code units; the model compares Dafny `char`s. The two orders agree for characters of the Basic Multilingual Plane.
- Activation.ToString: the message is a parameter. `ModuleActivationException` hands it to `ModuleException`, which is not part of this model, and that class decides what `getMessage()` returns, including when no message argument was given.
- `ModuleActivationException` only carries data. Activation itself is not part of this model.
- Registry.ModuleRegistry.Resolve: module identity is an allocation counter. `createModule` may return any object; the model treats every call that succeeds as creating a new one.
- A listener's `newModuleAvailable` is a parameter: each call returns the listener-list changes the listener makes, in order, and whether it then throws. A listener that throws after some of its changes has made them all. What the exception carries is not modelled.
- The TomcatModuleLoader of the repository is not part of this model.

## Findings

| source | as written | input that shows it | evidently intended | confidence | as-written member | corrected member |
|---|---|---|---|---|---|---|
| diet4j-core/src/main/java/org/diet4j/core/AbstractModuleRegistry.java:148-171 | When the new module is already among a dependency's users, `newUses` stays null and null is stored as that dependency's uses array. The array is otherwise the inverse of the forward dependencies. | A descriptor with two requirements whose candidates resolve to the same module `b`: after resolving it, `determineRuntimeUses(b)` is null, although `b` appears twice in the forward array. | Keep the existing array when the new module is listed already, so that every dependency lists the new module. | high, not executed | Resolution.DuplicateDependencyLosesUse | Resolution.AddUsesIntendedInverse |

`Resolution.AddUses` is the update as written, and `Resolution.AddUsesEffect` states its effect on one dependency exactly. The resolution engine keeps the code's behaviour: `Resolution.Create` and `Registry.ModuleRegistry.RecordUses` both apply `AddUses`. So the inverse relation (`Resolution.InverseOk`) is not part of the table invariant `Resolution.WellFormed`. `Resolution.ResolveKeepsInverse` proves it for the descriptor graphs on which the quirk cannot arise: those where no module fills two slots of one forward array. `Resolution.AddUsesIntended` is the corrected update, and `Resolution.AddUsesIntendedInverse` proves the inverse relation for it with no such condition.
