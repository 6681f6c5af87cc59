# Verified model of Quent's schema checks, event pipeline and time binning

This Dafny project models the logic of Quent that carries its guarantees and proves
what that logic guarantees.

* **Schema walk.** One traversal presents every element of a schema to all visitors.
  `Trees`, `Walk` and `Cursors` define it, prove that it visits each element exactly
  once in document order, that a fused walk equals separate walks, and exactly which
  cursors occur; `WalkOrder` states the documented order on those cursors, and
  `TypeParts` what holds of all types in a schema.
* **FSM constraint.** `Fsms` builds the transition graph with its `Init` and `End`
  nodes and the six checks on it; `FsmRuns` relates them to runs; `FsmValidation` is
  the visitor; `FsmBuilder` the builder that derives cardinalities; `Handles` the
  once-event flags of a generated handle, driven along runs.
* **Tree references.** `RefTrees`, `RefTreeChecks`, `RefTreeValidation` and
  `RefTreeSchemas` hold the multigraph of entities, events and records, its searches
  and the visitor; acceptance means a rooted tree. `RefTreeArcs` reads the arcs and
  the parent types off the schema itself, `RefTreeCounts` the number of references, and
  `RefTreeRequirements` states acceptance in those terms.
* **Recursive and unresolved records.** `Records` and `Expansion`: cycle reporting,
  and full expansion of field types, which exists exactly when nothing is recursive.
* **Resources.** `Resources`, `ResourceSchemas` and `ResourceLifecycle`: the
  constraint, its meaning for the schema, and what it gives together with the FSM
  constraint; `ResourceRoles` and `ResourceErrors` read its errors off the schema;
  `ResourceBuilder` builds definitions and records that satisfy it.
* **Event pipeline.** `Pipeline` is a step relation over one observer's channel,
  forwarder, owners and drop, with an inductive invariant; `PipelineRuns` states what
  holds over all its executions and over a context whose pipelines share a runtime;
  `PipelineHistory` and `ContextHistory` tell every state from the calls that led to it;
  `Forwarding` has the forwarder's loops and the final drop as code over that shared
  state; `FsmHandles` is the generated FSM handle as an object.
* **Time.** `Spans`, `Bins` and `Collector`: 64-bit spans, binning with its overflow
  behaviour, and the stable time-ordered collector.
* **Generated namespaces.** `Namespaces` and `Umbrella`: the tree of namespaces, the
  relative paths between generated types and the conversions into umbrella events.

`Wrappers`, `Graphs` and `SchemaModel` are shared. Verify with `dafny verify dfyconfig.toml`.

Where a promise of the code does not hold for every input, the code is modelled as it
is and the exact condition is proved:

* a binning's bins all fit in 64 bits if and only if `num_bins * bin_duration` does
  (`Bins.EveryBinFitsIffExact`, with a span that is accepted and overflows in
  `Bins.SaturatedBinning`); the times of all non-empty queries are right if and only if
  that holds or bins end exactly at the largest timestamp (`Bins.TimesFitIff`), and those
  of one query, empty or not, under a guard a caller can check (`Bins.TimesConserveIff`);
* the timestamps with a bin are those of the span if and only if the total length of the
  bins fits; otherwise the largest timestamp has a bin although no span contains it
  (`Bins.LookupInSpanIff`);
* in an exact binning the index range is exactly the intersecting bins if and only if
  the query is non-empty or starts at neither end of the binned span
  (`Bins.IterIndicesExact`), and the yielded times conserve the query if and only if
  that holds or there is a single bin (`Bins.DurationsConserve`);
* spans of which one is empty are documented not to intersect, yet `intersects` holds of
  an empty span strictly within another; in all other cases it tells whether the spans
  share a timestamp (`Spans.IntersectsIffShared`);
* a handle's exit is its last event if and only if no transition is called after an exit
  (`FsmHandles.ExitIsLastIff` over the calls on a handle, and over executions of the
  pipeline `PipelineRuns.ExitLastIffNoLateTransition`, with `ExitedHandleArises` and
  `TransitionAfterExit` showing that it does happen);
* the tree-reference documentation asks that a record carries at most one reference
  across its nested fields (crates/ref-tree/src/lib.rs:62-65), while the code counts
  nested references only against the events that use the record. Acceptance gives the
  requirement for every record that an event reaches, and for all records if and only if
  the records no event reaches meet it (`RefTreeRequirements.RecordRequirementIff`); a
  schema that is accepted, by this constraint and by the checks every schema undergoes,
  and where one does not is in `UnreachedRecordMayCarryTwo`.

## Model

| member | source | states |
|---|---|---|
| Walk.WalkSchema | crates/schema/src/visitor.rs:38-51 | the visitor has been shown exactly the cursors of the element tree, in pre-order, and its output is its steps folded over them |
| Walk.WalkDataType | crates/schema/src/visitor.rs:200-216 | the cursor is restored and the visits added are the pre-order trail of the data type |
| Walk.WalkAnnotations | crates/schema/src/visitor.rs:152-160 | shows the annotations below the current element and restores the cursor |
| Walk.WalkField | crates/schema/src/visitor.rs:192-198 | shows the field, its annotations, then its type, and restores the cursor |
| Walk.WalkEvent | crates/schema/src/visitor.rs:172-180 | shows the event's whole subtree in order and restores the cursor |
| Walk.WalkEntity | crates/schema/src/visitor.rs:162-170 | shows the entity's whole subtree in order and restores the cursor |
| Walk.WalkRecord | crates/schema/src/visitor.rs:182-190 | shows the record's whole subtree in order and restores the cursor |
| Walk.CursorStack.Enter | crates/schema/src/visitor.rs:98-100 | pushes one element |
| Walk.CursorStack.Leave | crates/schema/src/visitor.rs:101-103 | pops the element entered last |
| Walk.VisitsEveryElementOnce | crates/schema/src/visitor.rs:25-37 | visits correspond one to one to the positions of the element tree, in document order, each showing the path from the schema to its element |
| WalkOrder.AnnotationsFollow | crates/schema/src/visitor.rs:25-35 | every visit to a schema, entity, event, record, field or entity reference is followed at once by a visit to its own annotations |
| WalkOrder.VisitOrder | crates/schema/src/visitor.rs:25-37 | two visits that part below a common element come in the order in which its children are declared, its annotations first |
| WalkOrder.ElementFirst | crates/schema/src/visitor.rs:28-29 | an element is shown before everything in it |
| WalkOrder.AnnotationsBeforeData | crates/schema/src/visitor.rs:34-35 | the annotations of an entity reference come before the data it carries |
| WalkOrder.EntitiesInOrder | crates/schema/src/visitor.rs:38-51 | entities come in the order of their declaration |
| WalkOrder.RecordsInOrder | crates/schema/src/visitor.rs:38-51 | records come in the order of their declaration |
| WalkOrder.EntitiesBeforeRecords | crates/schema/src/visitor.rs:38-51 | all entities come before all records |
| WalkOrder.EventsInOrder | crates/schema/src/visitor.rs:162-170 | the events of an entity come in the order of their declaration |
| WalkOrder.FieldsInOrder | crates/schema/src/visitor.rs:172-190 | the fields of an event or a record come in the order of their declaration |
| WalkOrder.VisitsDiffer | crates/schema/src/visitor.rs:27-27 | no cursor is shown twice |
| Walk.FoldSnoc | crates/schema/src/visitor.rs:8-18 | the state of a visitor is its start, and each visit acts on the state before it |
| Walk.FusedWalk | crates/schema/src/visitor.rs:228-240 | walking a pair of visitors of any two types yields the pair of the outputs of their separate walks; longer tuples are nested pairs |
| Walk.FusedOutputs | crates/schema/src/visitor.rs:228-252 | walking a tuple of any number of visitors yields at each place the output of that visitor's separate walk |
| Cursors.VisitedIffInSchema | crates/schema/src/visitor.rs:38-51 | a cursor is visited if and only if it leads to an element the schema declares |
| Cursors.CursorShape | crates/schema/src/visitor.rs:70-104 | every visited cursor starts at the schema, and each kind of element lies at its depth below its declared parents |
| Graphs.Bfs | crates/fsm/src/lib.rs:254-269 | breadth-first search yields exactly what the start reaches, the start included even when no arc mentions it |
| Graphs.SharesComponent | crates/fsm/src/lib.rs:310-322 | a vertex shares its strongly connected component if and only if another vertex reaches it and is reached by it |
| Fsms.StateMeans | crates/fsm/src/lib.rs:79-118 | states are the initial one and the ends of transitions, and final are those of them that no transition leaves |
| Fsms.ComponentOrLoopIffRecurs | crates/fsm/src/lib.rs:310-331 | a state returns to itself by transitions if and only if it has a self-loop or a component of more than one node in the graph with Init and End |
| Fsms.FindCyclic | crates/fsm/src/lib.rs:310-331 | collects exactly the states that some non-empty transition path leads back to |
| Fsms.CardinalityOf | crates/fsm/src/lib.rs:102-111 | None exactly for names that are no states, Multi exactly for recurring states |
| Fsms.InitReaches | crates/fsm/src/lib.rs:121-136 | Init reaches a state in the graph if and only if transitions lead there from the initial state |
| Fsms.ReachesEnd | crates/fsm/src/lib.rs:121-136 | a state reaches End if and only if transitions lead to some final state, also when no final state exists and End is absent |
| Fsms.CheckEntity | crates/fsm/src/lib.rs:225-307 | adds each violation of the six requirements exactly once, in the order of the checks, and nothing else, and nothing if and only if all six hold |
| Fsms.CheckNames | crates/fsm/src/lib.rs:235-249 | one error per state that is no event and per event that is no state |
| Fsms.CheckFromInit | crates/fsm/src/lib.rs:254-264 | one error per state no transition path leads to from the initial state |
| Fsms.CheckToFinal | crates/fsm/src/lib.rs:266-277 | one error per state from which no final state can be reached |
| Fsms.CheckCardinalities | crates/fsm/src/lib.rs:287-306 | one error per event of a state whose cardinality is not the one its cycles demand, with both cardinalities |
| Fsms.NoViolationIffRequirements | crates/fsm/src/lib.rs:163-173 | there is no violation if and only if the six documented requirements hold |
| Fsms.ViolationSays | crates/fsm/src/lib.rs:225-307 | what each violation says: the entity, the state or event, both cardinalities, and the fact about the topology it stands for |
| FsmRuns.OnceStateEnteredAtMostOnce | crates/fsm/src/lib.rs:98-101 | on every topology, a run enters a state that lies on no cycle at most once |
| FsmRuns.NeverTwiceIff | crates/fsm/src/lib.rs:98-101 | on every topology, no run enters a state twice if and only if it cannot be reached or lies on no cycle |
| FsmRuns.EveryRunCompletes | crates/fsm/src/lib.rs:163-173 | in an accepted topology every run extends to one that ends in a final state |
| FsmRuns.MultiStateUnbounded | crates/fsm/src/lib.rs:163-173 | in an accepted topology every Multi state is entered at least k times by some complete run, for every k |
| FsmRuns.OnceIffEnteredAtMostOnce | crates/fsm/src/lib.rs:163-173 | an accepted event is Once if and only if no run enters its state twice |
| FsmRuns.NonFinalIsLeft | crates/fsm/src/lib.rs:79-88 | a complete run leaves every non-final state it enters by a transition |
| Handles.Handle.EmitOnce | crates/instrumentation/src/handle.rs:90-103 | refuses exactly when the flag was set, otherwise emits; sets this flag and no other |
| Handles.Handle.Emit | crates/instrumentation/src/handle.rs:78-80 | passes the event on and touches no flag |
| Handles.AssignBits | crates/instrumentation-build/src/runtime/handle.rs:16-44 | every once event gets its own flag, and there is none to give exactly when there are more than 64 |
| Handles.Drive | crates/instrumentation/src/handle.rs:90-103 | over any sequence of calls, exactly the first emission of each once event passes, none is refused if and only if none is repeated, and the flags set are those of the events called |
| Handles.DriveThenAsk | crates/instrumentation/src/handle.rs:109-112 | after any sequence of calls a once event is reported as emitted if and only if it was called |
| Handles.DriveRun | crates/instrumentation/src/handle.rs:90-103 | on every topology whose states are events, if no once event lies on a reachable cycle, no once event is refused along any run and the handle emits the run |
| Handles.DriveAcceptedRun | crates/fsm/src/lib.rs:163-173 | in particular along every run of an accepted topology |
| FsmValidation.FsmConstraint.Visit | crates/fsm/src/lib.rs:182-210 | at an entity adds the violations of that entity, missing or malformed data included, each once; elsewhere nothing |
| FsmValidation.Validate | crates/fsm/src/lib.rs:179-219 | accepts a schema if and only if the constraint of every entity is absent or decodes to a topology whose requirements the entity meets; otherwise exactly the violations are reported, invalid data where none decodes |
| FsmBuilder.NoInitials | crates/fsm/src/builder.rs:112-122 | there is no initial name if and only if no state is marked initial |
| FsmBuilder.InitialsDeclared | crates/fsm/src/builder.rs:112-122 | a state marked initial is the one initial name if and only if no other state is marked |
| FsmBuilder.TransitionDeclared | crates/fsm/src/builder.rs:123-132 | the transitions are exactly the declared targets of declared states |
| FsmBuilder.TransitionsInOrder | crates/fsm/src/builder.rs:123-132 | transitions come in the order in which states and their targets are declared |
| FsmBuilder.FsmEntityBuilder.WithState | crates/fsm/src/builder.rs:75-78 | appends one state |
| FsmBuilder.FsmEntityBuilder.Build | crates/fsm/src/builder.rs:96-157 | each error exactly in its case, in the order of the checks, names the first repeated state or attribute and the first violation any topology check finds; success yields an entity that meets all six requirements, with one event per state and its attributes as fields in order, the annotations given, and the declared initial state and transitions |
| FsmBuilder.DerivedCardinalitiesMatch | crates/fsm/src/builder.rs:135-142 | derived cardinalities never violate the cardinality requirement |
| FsmBuilder.CheckAssembled | crates/fsm/src/builder.rs:135-156 | succeeds if and only if attributes and constraints are free of duplicates and the entity meets the requirements; otherwise a repeated attribute comes first, by the name that repeats first, then a constraint already attached, then the first violation |
| RefTrees.EventRefCount | crates/ref-tree/src/lib.rs:344-368 | counts the references of an event plus those of the distinct records it reaches, and ends on cyclic records |
| RefTrees.EntityUniqueParents | crates/ref-tree/src/lib.rs:371-385 | lists without duplicates exactly the entities reached through event and record nodes only |
| RefTreeChecks.RootedTreeShape | crates/ref-tree/src/lib.rs:57-73 | a rooted tree has one root, one parent type for every other entity, and one way to the root from each entity, which repeats none |
| RefTreeChecks.Classify | crates/ref-tree/src/lib.rs:260-288 | splits the entities into those without, with one and with several parent types, and lists the parent edges |
| RefTreeChecks.CheckTree | crates/ref-tree/src/lib.rs:254-326 | adds no error if and only if following parents leads from every entity to a single root; the errors are true, none is repeated, and they name every conflict, a missing or repeated root, and every entity not reached from the only root |
| RefTreeChecks.CheckEvents | crates/ref-tree/src/lib.rs:330-340 | reports exactly the event nodes that carry more than one reference, each once |
| RefTreeValidation.RefTreeConstraint.NodeOrInsert | crates/ref-tree/src/lib.rs:244-251 | yields the index of the node, added at the end if it is new, and changes no edge |
| RefTreeValidation.RefTreeConstraint.Visit | crates/ref-tree/src/lib.rs:125-205 | the indexed graph, the record set, the flag and the errors become what the cursor calls for |
| RefTreeValidation.RefTreeConstraint.Finish | crates/ref-tree/src/lib.rs:207-236 | passes if and only if no error was met and, once a reference is used, events carry at most one and the parents form a rooted tree; reports the errors met, then, if the tree is checked, exactly the crowded events and all that is wrong with the tree, nothing twice |
| RefTreeSchemas.NoErrorIffClean | crates/ref-tree/src/lib.rs:142-187 | a walk records no error if and only if every tree reference targets a declared entity and no record declares two; then the graph holds every arc |
| RefTreeSchemas.WalkHolds | crates/ref-tree/src/lib.rs:125-205 | after any visits the errors are exactly those of untargeted and repeated references, and the graph holds every arc but those of repeated ones |
| RefTreeSchemas.EventNodesAreEvents | crates/ref-tree/src/lib.rs:136-143 | the event nodes of the graph are exactly the events of the schema |
| RefTreeSchemas.Validate | crates/ref-tree/src/lib.rs:122-236 | accepts a schema if and only if its tree references are targeted, single per record and event, and form a rooted tree over its entities; with an untargeted reference exactly the errors of the walk are reported, otherwise those, then the crowded events and all that is wrong with the tree, also when a record repeats a reference |
| RefTreeArcs.ArcsAreDeclared | crates/ref-tree/src/lib.rs:125-205 | the graph has exactly the arcs from entities to their events and from events and records to what their fields refer to |
| RefTreeArcs.ParentsAreCarried | crates/ref-tree/src/lib.rs:371-385 | the parent types of an entity are exactly the targets of the tree references in its events' fields and in records nested in them at any depth |
| RefTreeCounts.RefsOfEventInSchema | crates/ref-tree/src/lib.rs:147-175 | a walk shows as many tree references of an event as its field types hold |
| RefTreeCounts.RefsOfRecordInSchema | crates/ref-tree/src/lib.rs:147-184 | and as many of a record declaration as its field types hold |
| RefTreeRequirements.RefCountIsEventRefs | crates/ref-tree/src/lib.rs:344-368 | the count for an event is the tree references in its field types plus those of the distinct records its fields reach |
| RefTreeRequirements.TargetedIffDeclared | crates/ref-tree/src/lib.rs:142-160 | all references visited are targeted if and only if every one in a field type of the schema, at any depth, is restricted to a declared entity |
| RefTreeRequirements.SoundIffDeclared | crates/ref-tree/src/lib.rs:57-73 | a schema is accepted if and only if, counted in its types, references are targeted, single per record declaration and, once used, single per event across nested records with a rooted tree of parents |
| RefTreeRequirements.ReachedRecordsCarryOne | crates/ref-tree/src/lib.rs:62-65 | in an accepted schema that uses tree references, a record that an event reaches carries at most one across its nested fields |
| RefTreeRequirements.RecordRequirementIff | crates/ref-tree/src/lib.rs:62-65 | in an accepted schema all records meet that requirement if and only if those no event reaches do |
| RefTreeRequirements.UnreachedRecordMayCarryTwo | crates/ref-tree/src/lib.rs:330-340 | a schema with a record that carries two across its nested fields is accepted and uses tree references; its entities have events, its record references resolve, no record is recursive and no path is declared twice |
| Records.RecursiveRecords.Visit | crates/constraints/src/recursive_record.rs:24-36 | adds an edge exactly for a record reference within a record declaration |
| Records.RecursiveRecords.Finish | crates/constraints/src/recursive_record.rs:38-62 | reports exactly the records on a cycle of the edges |
| Records.ArcsAreVisited | crates/constraints/src/recursive_record.rs:24-36 | the edges a walk shows are exactly the record references in field types, options, lists and reference data included |
| Records.FindRecursive | crates/constraints/src/recursive_record.rs:21-62 | reports exactly the records that refer back to themselves |
| Expansion.FindUnresolved | crates/constraints/src/unresolved_refs.rs:18-30 | reports exactly the visited references to undeclared records, and nothing if and only if every mentioned record is declared |
| Expansion.NoRecursionIffRanked | crates/constraints/src/recursive_record.rs:13-15 | no record is recursive if and only if records can be ranked so that every reference lowers the rank |
| Expansion.ExpandIsExpansion | crates/constraints/src/recursive_record.rs:13-15 | without recursion and unresolved references, inlining records terminates and replaces each by its fields |
| Expansion.ExpandsIffNoRecursion | crates/constraints/src/recursive_record.rs:13-15 | where references resolve, every field type of a record has a finite expansion if and only if no record is recursive |
| Resources.ResourceConstraint.Visit | crates/resource/src/lib.rs:171-280 | the maps, references and errors become what the cursor calls for |
| Resources.ResourceConstraint.Finish | crates/resource/src/lib.rs:282-454 | passes if and only if the walk met no error and nothing gathered is wrong, and otherwise reports exactly that, with errors of references as often as the source pushes them |
| Resources.CheckUsages | crates/resource/src/lib.rs:292-316 | exactly the usages of undeclared resources and of undeclared capacities |
| Resources.CheckRefs | crates/resource/src/lib.rs:318-394 | exactly the misplaced role references, each as often as it occurs, but a user that is no FSM once per resource; and exactly the resources whose bounds one of their own events shows |
| Resources.CheckBoundsRecord | crates/resource/src/lib.rs:398-436 | exactly the unknown resource, unexpected bounds, unbounded or uncovered capacities of one bounds record |
| Resources.CheckMissing | crates/resource/src/lib.rs:438-447 | exactly the resources with a bounded capacity and no bounds event |
| ResourceSchemas.WalkIsComplete | crates/resource/src/lib.rs:171-280 | after a walk the maps hold exactly the declared definitions, roles and final events, and the references exactly the visited ones |
| ResourceSchemas.RefErrorSpec | crates/resource/src/lib.rs:320-394 | a reference to a role record is free of errors if and only if it lies where that role may be |
| ResourceErrors.RefAtSpec | crates/resource/src/lib.rs:250-276 | what is recorded of a record reference: whether it is in a list, below a reference, in a list below every reference it is under, and on which entity and event |
| ResourceRoles.RolesPlacedIff | crates/resource/src/lib.rs:171-249 | a walk raises no error about roles if and only if entities hold definitions or nothing, records usages, bounds or nothing, and the schema, events, fields and entity references at any depth hold nothing |
| ResourceRoles.RoleErrorsRaised | crates/resource/src/lib.rs:171-249 | a walk raises an error for exactly the elements whose role is wrong: invalid data where none decodes, a misplaced role otherwise, at the element or at its annotations |
| ResourceErrors.ErrorsAreTheSchemas | crates/resource/src/lib.rs:282-454 | what a walk and the four checks report is exactly what is wrong with the schema, read off its elements |
| ResourceLifecycle.Validate | crates/resource/src/lib.rs:168-454 | accepts a schema if and only if its roles are placed right and its usages, bounds and references are sound; otherwise reports exactly the errors of the schema, each by its kind and place |
| ResourceLifecycle.UsageIsDirect | crates/resource/src/lib.rs:38-45 | in an accepted schema a usage record that event data leads to through any records is mentioned directly, below an entity reference, on a non-final event of an FSM entity |
| ResourceLifecycle.UsagesAreClosed | crates/resource/src/lib.rs:23-26 | in an accepted schema every complete run that enters a state whose event carries a usage, nested at any depth, leaves that state by a transition |
| ResourceLifecycle.OpenUsagesCanClose | crates/resource/src/lib.rs:23-26 | if the FSM constraint accepts too, every run that opened a usage extends to a complete run, which closes it |
| ResourceLifecycle.UsersHaveTopology | crates/resource/src/lib.rs:23-26 | if both accept, every user of a resource has a decoded topology that meets the six requirements |
| ResourceBuilder.Builder.Build | crates/resource/src/builder.rs:100-154 | reports the first repeated capacity, then equal record paths when bounds are needed; otherwise yields the definition with the capacities, a usage record with a `U64` field per capacity in order, and, if a capacity is bounded, a bounds record with one per bounded capacity in order |
| ResourceBuilder.Builder.constructor | crates/resource/src/builder.rs:34-50 | the default record paths are siblings of the resource and differ |
| ResourceBuilder.FlagsOfDistinct | crates/resource/src/lib.rs:176-186 | the flags of a definition hold exactly its capacities, and which of them are bounded |
| ResourceBuilder.PartsNameCapacities | crates/resource/src/builder.rs:124-147 | the usage names every capacity; bounds exist if and only if a capacity is bounded, and name exactly those |
| ResourceBuilder.BuiltRecordsAreSound | crates/resource/src/builder.rs:100-154 | in a schema holding the parts, the usage and bounds records claim exactly what the resource constraint allows |
| ResourceBuilder.BuiltRecordsRaiseNoError | crates/resource/src/lib.rs:292-436 | the constraint raises no unknown-resource, undeclared, unexpected, unbounded or uncovered error for built records |
| Pipeline.SpawnedInv | crates/instrumentation/src/observer.rs:148-158 | a freshly spawned pipeline satisfies the invariant |
| Pipeline.StepKeepsInv | crates/instrumentation/src/observer.rs:128-201 | every action of any thread keeps the invariant: each accepted event is in exactly one of exporter, buffer and channel, in order |
| PipelineRuns.ReachableInv | crates/instrumentation/src/observer.rs:128-201 | the invariant holds in every state of every execution |
| PipelineRuns.DropDelivers | crates/instrumentation/src/observer.rs:128-144 | once the final drop has returned, every event accepted before was handed over exactly once, in order, in batches within the limit, and the exporter shut down once |
| PipelineHistory.ObserverSendDelivered | crates/instrumentation/src/observer.rs:59-66 | what an observer sends is put on the channel, last, and after the final drop it has been handed over in its place |
| PipelineHistory.SenderSendDelivered | crates/instrumentation/src/observer.rs:115-125 | what a cloned sender sends is accepted and delivered likewise while the receiver is open; afterwards exactly that event is refused and one error is logged |
| PipelineHistory.EventsHistory | crates/instrumentation/src/observer.rs:59-66 | after any calls, what was sent is accepted in order until the receiver closes and refused afterwards, the events of a handle numbered by the calls on it |
| PipelineHistory.HandleHistory | crates/model-macros/src/fsm_macro.rs:484-524 | how far a handle is, how many events it has sent and whether it has exited follow from the calls made on it |
| PipelineHistory.CallersHistory | crates/instrumentation/src/observer.rs:128-201 | the observers and senders left and the phases of drop, channel and exporter follow from the steps taken |
| PipelineHistory.BatchesHistory | crates/instrumentation/src/observer.rs:159-180 | batches are handed over with the limits and sizes they were received by |
| PipelineHistory.DeliveredIsSaid | crates/instrumentation/src/observer.rs:128-144 | after the final drop exactly what was sent while the channel was open has been handed over |
| PipelineHistory.CallsPossible | crates/instrumentation/src/observer.rs:104-125 | an observer or sender can be used exactly while one is left |
| PipelineHistory.HandleCallsPossible | crates/model-macros/src/fsm_macro.rs:484-524 | a handle can be used exactly from its creation to its drop |
| PipelineHistory.DropBeginsWithLastOwner | crates/instrumentation/src/observer.rs:72-79 | the drop begins exactly when every observer and every handle has been dropped |
| PipelineHistory.ForwarderHasWork | crates/instrumentation/src/observer.rs:163-180 | while something accepted has not been handed over the forwarder has a step |
| PipelineHistory.DropCanReturn | crates/instrumentation/src/observer.rs:128-144 | whatever has happened, a drop that has begun can return without any further call |
| PipelineRuns.NeverAhead | crates/instrumentation/src/observer.rs:163-201 | what was handed over is always a prefix of what was accepted, and a shut-down exporter is not used again |
| PipelineRuns.MainLoopEndsByCancellation | crates/instrumentation/src/observer.rs:171-174 | the main loop never sees the channel closed and drained |
| PipelineRuns.OwnersAreNeverRefused | crates/instrumentation/src/observer.rs:59-66 | while an owner is left no send is refused; refused sends come from cloned senders and only the first is logged |
| PipelineRuns.HandleDelivered | crates/model-macros/src/fsm_macro.rs:496-524 | a handle's accepted events are numbered 0, 1, 2, ...; dropping adds exactly one exit, and after the final drop exactly those were delivered in that order |
| PipelineRuns.ExitLastIffNoLateTransition | crates/model-macros/src/fsm_macro.rs:496-524 | once a handle's drop has begun its exit is the last of its events, sent and delivered, if and only if no transition was called on it after it exited |
| PipelineRuns.ExitedHandleArises | crates/model-macros/src/fsm_macro.rs:501-506 | an execution that ends with a live handle that has exited |
| PipelineRuns.TransitionAfterExit | crates/model-macros/src/fsm_macro.rs:496-506 | on such a handle a transition is still accepted, numbered next, and the exit stays the only one |
| PipelineRuns.ForwarderNeverStuck | crates/instrumentation/src/observer.rs:181-201 | after cancellation the forwarder always has a step until it is done |
| PipelineRuns.DrainTerminates | crates/instrumentation/src/observer.rs:181-201 | once the channel is closed every forwarder step lowers a measure that no other thread raises |
| PipelineRuns.RuntimeOutlivesForwarders | crates/instrumentation/src/context.rs:40-53 | an owned runtime is shut down only after the context is gone and every forwarder delivered everything and was joined |
| ContextHistory.PipelineRunsAlone | crates/instrumentation/src/observer.rs:148-158 | each pipeline of a context runs by its own steps alone, so that what holds of every run of a pipeline holds of it |
| ContextHistory.RuntimeUpWhileHeld | crates/instrumentation/src/context.rs:40-53 | the runtime is shut down if and only if the context was dropped and every pipeline it spawned has let go |
| ContextHistory.SystemCallsPossible | crates/instrumentation/src/context.rs:40-53 | a context can spawn and be dropped until it is, and a pipeline lets go once its drop has returned |
| PipelineRuns.NoForwarderStranded | crates/instrumentation/src/context.rs:45-47 | a forwarder with work left always has its runtime |
| Forwarding.Shared.Forward | crates/instrumentation/src/observer.rs:159-201 | under every schedule of the other threads the loop follows the protocol; it finishes once cancelled, with everything handed over and one shutdown |
| Forwarding.Shared.DrainAndShutdown | crates/instrumentation/src/observer.rs:181-201 | closes, drains whatever is buffered and shuts down, whatever other threads do |
| Forwarding.Shared.DropFinalOwner | crates/instrumentation/src/observer.rs:128-144 | the final drop returns wherever the forwarder was, and by then all that was sent has been handed over within batch limits and the exporter shut down once |
| FsmHandles.FsmHandle.constructor | crates/model-macros/src/state_macro.rs:354-371 | entering sends number 0, and does to the protocol state what its step does |
| FsmHandles.FsmHandle.EmitTransition | crates/model-macros/src/fsm_macro.rs:508-517 | sends the next number and advances it by one |
| FsmHandles.FsmHandle.Transition | crates/model-macros/src/fsm_macro.rs:496-498 | sends a transition whether or not the handle has exited, as the protocol step does |
| FsmHandles.FsmHandle.Exit | crates/model-macros/src/fsm_macro.rs:501-506 | sends an exit the first time and nothing later, as the protocol step does |
| FsmHandles.FsmHandle.Drop | crates/model-macros/src/fsm_macro.rs:522-524 | leaves the handle exited, by an exit only if there was none, as the protocol's drop step does |
| FsmHandles.EmittedInOrder | crates/model-macros/src/fsm_macro.rs:496-524 | over any calls and the drop, numbers increase by one, each transition is sent and exactly one exit |
| FsmHandles.ExitIsLastIff | crates/model-macros/src/fsm_macro.rs:496-506 | the exit is the last event sent if and only if no transition is called after an exit |
| FsmHandles.UseAndDrop | crates/model-macros/src/fsm_macro.rs:484-524 | the whole life of a handle sends 0, 1, 2, ... with exactly one exit, which is not first, and last if and only if no transition is called after an exit |
| Spans.DurationCountsTimestamps | crates/time/src/span.rs:92-98 | a span's duration is the number of timestamps in it |
| Spans.IntersectsIffShared | crates/time/src/span.rs:56-64 | spans are said to intersect if and only if they share a timestamp, except exactly when one is empty and strictly within the other, where they are said to |
| Spans.Span.Intersection | crates/time/src/span.rs:68-77 | holds exactly the timestamps of both spans, and is absent when there is none |
| Bins.TryNew | crates/time/src/bin.rs:33-60 | fails exactly on empty spans; never by the span or the assertion; the grown span holds the requested one, starts with it unless it would pass the largest timestamp, and pads less than one unit per bin |
| Bins.BinsTile | crates/time/src/bin.rs:88-96 | when the total fits, bins join without gap or overlap, have equal length, and cover the span |
| Bins.EveryBinFitsIffExact | crates/time/src/bin.rs:88-96 | no bin overflows if and only if the total length fits in 64 bits |
| Bins.BinIsBetween | crates/time/src/bin.rs:88-96 | in every binning a bin overflows exactly if its end passes the largest timestamp, and is otherwise the span between its edges |
| Bins.SaturatedBinning | crates/time/src/bin.rs:33-60 | a span that is accepted although its last bin overflows |
| Bins.IndexOfSpec | crates/time/src/bin.rs:74-85 | in an exact binning a timestamp's index is the bin that contains it, and none exactly outside the span |
| Bins.IndexIffBetween | crates/time/src/bin.rs:74-85 | in every binning, accepted or not, a timestamp has the index of the bin whose edges enclose it, and none exactly outside all bins |
| Bins.LookupInSpanIff | crates/time/src/bin.rs:74-85 | in an accepted binning exactly the timestamps of the span have a bin if and only if the total length fits; the largest timestamp alone is ever out of place |
| Bins.IterIndices | crates/time/src/bin.rs:99-122 | the range never leaves the bins |
| Bins.IterIndicesExact | crates/time/src/bin.rs:99-122 | in an exact binning the range is exactly the bins that intersect the query if and only if the query is non-empty or at neither end |
| Bins.AcceptedIndicesExact | crates/time/src/bin.rs:99-122 | in every accepted binning, saturated or not, the range of a non-empty query is exactly the bins it overlaps |
| Bins.PairsFollowRange | crates/time/src/bin.rs:126-149 | there is one pair for each bin of the index range, in order |
| Bins.DurationsConserve | crates/time/src/bin.rs:126-149 | in an exact binning no arithmetic overflows, each time is the bin's own intersection and they sum to the whole intersection, if and only if the query is non-empty, at neither end, or there is one bin |
| Bins.SaturatedBinEnd | crates/time/src/bin.rs:74-85 | in a saturated binning every timestamp has a bin, the largest too although the span excludes it, and that bin's end fits exactly if it is one of the whole bins below the largest timestamp |
| Bins.TimesFitIff | crates/time/src/bin.rs:126-149 | for any accepted binning, the times of all non-empty queries are their bins' intersections and sum to the whole one, and equally never overflow, if and only if the total fits or bins end exactly at the largest timestamp |
| Bins.TimesConserveIff | crates/time/src/bin.rs:126-149 | for any accepted binning and any query, the times are the bins' intersections and sum to the whole one, and equally never overflow, if and only if the query passes its guard: with a total that fits, it is non-empty, at neither end, or there is one bin; otherwise it ends in a whole bin |
| Collector.PartitionPoint | crates/time/src/lib.rs:148-150 | binary search finds the first item stamped later |
| Collector.TimeOrderedCollector.Push | crates/time/src/lib.rs:140-153 | on both paths the items stay the stable sort of the arrivals |
| Collector.TimeOrderedCollector.Extend | crates/time/src/lib.rs:164-168 | pushes every item in order |
| Collector.StableSortUnique | crates/time/src/lib.rs:121-127 | arrival orders that agree within every timestamp give the same vector |
| Collector.StableSortIsPermutation | crates/time/src/lib.rs:121-127 | a stable sort keeps every item with its multiplicity |
| Collector.Collect | crates/time/src/lib.rs:140-168 | after any arrivals the vector is the only stable sort of them, and a permutation |
| Namespaces.InsertKeepsShape | crates/instrumentation-build/src/namespace.rs:81-100 | growing the tree keeps children one segment longer than their parent and siblings distinct |
| Namespaces.InsertAt | crates/instrumentation-build/src/namespace.rs:81-100 | an insertion changes the node at its path and no other |
| Namespaces.Root | crates/instrumentation-build/src/namespace.rs:15-28 | every record and entity sits once, in schema order, at the node of its namespace and nowhere else |
| Namespaces.EntitiesInSpec | crates/instrumentation-build/src/namespace.rs:22-26 | a namespace is given exactly the entities declared in it, as often as the schema declares them |
| Namespaces.EntitiesInOrder | crates/instrumentation-build/src/namespace.rs:22-26 | in the order of the schema |
| Namespaces.RecordsInSpec | crates/instrumentation-build/src/namespace.rs:17-21 | and exactly the records declared in it |
| Namespaces.RecordsInOrder | crates/instrumentation-build/src/namespace.rs:17-21 | in the order of the schema |
| Namespaces.CollectEntities | crates/instrumentation-build/src/namespace.rs:55-61 | lists the entities of a namespace, then those of its children in order |
| Namespaces.EntitiesLaidOut | crates/instrumentation-build/src/namespace.rs:55-61 | a namespace lists its own entities first, then those of each child in turn |
| Namespaces.HasEntitiesIff | crates/instrumentation-build/src/namespace.rs:51-53 | a namespace has entities if and only if that list is not empty |
| Umbrella.RelativeTypePath | crates/instrumentation-build/src/common.rs:121-141 | the path written from a namespace resolves back to the entity it was written for, going up exactly as far as the namespaces differ and down from there |
| Umbrella.RelativeTokensShortest | crates/instrumentation-build/src/common.rs:121-141 | no path that leads to the target is shorter |
| Umbrella.RootTypeResolves | crates/instrumentation-build/src/common.rs:144-148 | one step up per segment leads to the root |
| Umbrella.CollectDescendants | crates/instrumentation-build/src/namespace.rs:63-70 | lists, in pre-order, the namespaces below that hold entities |
| Umbrella.DescendantsLaidOut | crates/instrumentation-build/src/namespace.rs:63-70 | each child with entities comes first of what it lists, and children in turn |
| Umbrella.UmbrellaGenerated | crates/instrumentation-build/src/namespace.rs:63-70 | a namespace below the root is listed if and only if the schema declares an entity in or below it |
| Umbrella.DescendantsBelow | crates/instrumentation-build/src/namespace.rs:63-70 | each of them lies strictly below and holds entities |
| Umbrella.DescendantsDistinct | crates/instrumentation-build/src/namespace.rs:63-70 | none is listed twice |
| Umbrella.ConversionsOfChild | crates/instrumentation-build/src/model.rs:85-121 | one conversion for the child's umbrella, each entity and each namespace below it, each well typed and backed by one the child provides |
| Umbrella.GenerateUmbrella | crates/instrumentation-build/src/model.rs:72-121 | one conversion per type the umbrella provides, from that type, and each well typed |
| Umbrella.ProvidesEachOnce | crates/instrumentation-build/src/model.rs:72-121 | the types provided are, counted, the events of all entities in or below and the umbrellas of all namespaces with entities below |
| Umbrella.EveryUmbrellaConvertsOnce | crates/instrumentation-build/src/model.rs:72-121 | in the layout of a schema every generated umbrella converts exactly once from the event of each entity declared in or below its namespace and from the umbrella of each namespace below that leads to an entity, and from nothing else |

## Left out

- Handles.Handle.EmitOnce: the flag word is 64 booleans rather than a `u64` with shifted masks; the correspondence between the two is not proved.
- Namespaces.Root: the namespace tree is a value that insertion rebuilds, so growing it in place through a mutable reference, and aliasing, are not modelled.
- Umbrella.GenerateUmbrella: stated over schema paths; the emitted tokens, identifier casing and collisions of case-folded names are not modelled.
- Graphs.SharesComponent: the strongly connected components computed by petgraph are specified as mutual reachability and found by two searches.
- RefTreeValidation.RefTreeConstraint.Visit: node indices are kept for the index and the edges; the searches at the end run over the nodes themselves.
- Iteration order of hash sets and maps is arbitrary, so the order of errors is left open, as is the sorting of recursive records; error texts and rendered locations are replaced by kinds and cursors.
- JSON decoding of constraint data: a payload is absent, missing, malformed or a decoded value.
- Containers of a schema are assumed to hold each name once, as the schema builders (not part of this model) guarantee.
- The exporter is a sink that takes the whole buffer, whatever it returns; back ends, the collector service and batch contents beyond events are not modelled.
- Tokio: sends, receives and cancellation are atomic steps, and a forwarder task that panics, a runtime borrowed from elsewhere and the current-thread runtime are not modelled.
- No-op observers and contexts, which hold no channel and no runtime.
- The UUIDs of handles: a `HandleId` stands for one handle object, while two handles may be entered with the same UUID, whose events then share it and repeat sequence numbers.
- Wrap-around of a handle's 64-bit sequence number, and timestamps of events.
- The reference-target constraint beyond decoding, and the visitors of other constraints.
- Failing serialisation in the FSM and resource builders, whose payloads always encode.
- Float conversions, the system clock and the test clock.
- Macro parsing, other generated code, the YAML front end, archive handling and user interfaces.
