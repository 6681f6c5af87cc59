/** What acceptance by the tree-reference constraint means for a schema. */
module RefTreeSchemas {
  import opened Wrappers
  import opened SchemaModel
  import opened Walk
  import opened Cursors
  import opened RefTrees
  import opened RefTreeChecks
  import opened RefTreeValidation

  /** The state after `cursors` have been visited. */
  function After(cursors: seq<seq<Element>>): View {
    if cursors == [] then START else Next(After(cursors[..|cursors| - 1]), cursors[|cursors| - 1])
  }

  /** A tree reference of a record declaration, rather than of an event. */
  predicate IsRecordRef(c: seq<Element>) {
    IsTreeRef(c) && EventAt(c).None? && RecordAt(c).Some?
  }

  ghost predicate AllTargeted(cursors: seq<seq<Element>>) {
    forall c | c in cursors && IsTreeRef(c) :: IsTargeted(c)
  }

  /** No record declaration carries two tree references. */
  ghost predicate OnePerRecord(cursors: seq<seq<Element>>) {
    forall i, j | 0 <= i < j < |cursors| && IsRecordRef(cursors[i]) && IsRecordRef(cursors[j]) ::
      RecordAt(cursors[i]) != RecordAt(cursors[j])
  }

  ghost predicate Placed(c: seq<Element>) {
    IsTreeRef(c) && (EventAt(c).Some? || RecordAt(c).Some?)
  }

  /** Without an error the graph holds every arc of the schema, and every record
      seen is one that carries a reference. */
  ghost predicate Faithful(v: View, cursors: seq<seq<Element>>) {
    && v.arcs == ArcsOf(cursors)
    && (v.used <==> exists c :: c in cursors && Placed(c))
    && (forall r :: r in v.recordsSeen <==> exists c :: c in cursors && IsRecordRef(c) && RecordAt(c) == Some(r))
  }

  lemma {:induction false} NoErrorIffClean(cursors: seq<seq<Element>>)
    ensures After(cursors).errors == [] <==> AllTargeted(cursors) && OnePerRecord(cursors)
    ensures After(cursors).errors == [] ==> Faithful(After(cursors), cursors)
  {
    if cursors != [] {
      var before, c := cursors[..|cursors| - 1], cursors[|cursors| - 1];
      NoErrorIffClean(before);
      assert cursors == before + [c];
      if After(cursors).errors == [] || (AllTargeted(cursors) && OnePerRecord(cursors)) {
        assert AllTargeted(cursors) && OnePerRecord(cursors) ==> AllTargeted(before) && OnePerRecord(before);
        CleanStep(before, c);
      }
    }
  }

  /** A visit that raises no error. */
  predicate Fits(v: View, c: seq<Element>) {
    && (IsTreeRef(c) ==> IsTargeted(c))
    && (IsRecordRef(c) ==> RecordAt(c).value !in v.recordsSeen)
  }

  lemma NextWhenFits(v: View, c: seq<Element>)
    ensures Next(v, c).errors == v.errors <==> Fits(v, c)
    ensures v.errors <= Next(v, c).errors
    ensures Fits(v, c) ==>
              var w := Next(v, c);
              && w.arcs == v.arcs + ArcsAt(c)
              && w.used == (v.used || Placed(c))
              && w.recordsSeen == v.recordsSeen + if IsRecordRef(c) then {RecordAt(c).value} else {}
  {}

  lemma CleanStep(before: seq<seq<Element>>, c: seq<Element>)
    requires AllTargeted(before) && OnePerRecord(before) && Faithful(After(before), before)
    requires After(before).errors == []
    ensures Next(After(before), c).errors == [] <==> AllTargeted(before + [c]) && OnePerRecord(before + [c])
    ensures Next(After(before), c).errors == [] ==> Faithful(Next(After(before), c), before + [c])
  {
    var v := After(before);
    NextWhenFits(v, c);
    TargetedSnoc(before, c);
    RepeatedRecord(before, c);
    assert OnePerRecord(before + [c]) <==> (IsRecordRef(c) ==> RecordAt(c).value !in v.recordsSeen);
    if Fits(v, c) {
      FaithfulSnoc(v, Next(v, c), before, c);
    }
  }

  lemma TargetedSnoc(before: seq<seq<Element>>, c: seq<Element>)
    ensures AllTargeted(before + [c]) <==> AllTargeted(before) && (IsTreeRef(c) ==> IsTargeted(c))
  {
    assert forall d :: d in before + [c] <==> d in before || d == c;
  }

  lemma FaithfulSnoc(v: View, w: View, before: seq<seq<Element>>, c: seq<Element>)
    requires Faithful(v, before)
    requires w.arcs == v.arcs + ArcsAt(c) && w.used == (v.used || Placed(c))
    requires w.recordsSeen == v.recordsSeen + if IsRecordRef(c) then {RecordAt(c).value} else {}
    ensures Faithful(w, before + [c])
  {
    var all := before + [c];
    assert all[..|all| - 1] == before;
    assert forall d :: d in all <==> d in before || d == c;
    assert c in all;
  }

  lemma RepeatedRecord(before: seq<seq<Element>>, c: seq<Element>)
    requires OnePerRecord(before)
    ensures OnePerRecord(before + [c]) <==>
            !(IsRecordRef(c) && exists d :: d in before && IsRecordRef(d) && RecordAt(d) == RecordAt(c))
  {
    var all := before + [c];
    if IsRecordRef(c) && exists d :: d in before && IsRecordRef(d) && RecordAt(d) == RecordAt(c) {
      var d :| d in before && IsRecordRef(d) && RecordAt(d) == RecordAt(c);
      var i :| 0 <= i < |before| && before[i] == d;
      assert all[i] == d && all[|before|] == c;
    }
  }

  // ---- Nodes and entities ---------------------------------------------------

  ghost predicate IsEventOf(schema: Schema, n: Node) {
    n.EventNode? && exists e, ev :: e in schema.entities && ev in e.events && n == EventNode(e.path, ev.name)
  }

  lemma {:induction false} EntitiesAddNoEvents(nodes: seq<Node>, entities: seq<Entity>)
    ensures forall n :: n in WithEntities(nodes, entities) && n.EventNode? <==> n in nodes && n.EventNode?
  {
    if entities != [] {
      EntitiesAddNoEvents(nodes, entities[..|entities| - 1]);
    }
  }

  lemma ArcAddsNodes(v: View, from: Node, to: Node)
    ensures forall n :: n in WithArc(v, from, to).nodes <==> n in v.nodes || n == from || n == to
    ensures WithArc(v, from, to).entities == v.entities
  {}

  lemma DataTypesAddNoNewEvents(v: View, c: seq<Element>)
    requires c != [] && Current(c).DataTypeEl?
    ensures var w := Next(v, c);
            && w.entities == v.entities && (forall n | n in v.nodes :: n in w.nodes)
            && forall n | n in w.nodes && n.EventNode? :: n in v.nodes || EventAt(c) == Some(n)
  {
    if Next(v, c).nodes != v.nodes {
      var to := if IsTreeRef(c) then EntityNode(TargetOf(c).value) else RecordNode(Current(c).ty.path);
      var w := v.(nodes := WithNode(v.nodes, to));
      if EventAt(c).Some? {
        ArcAddsNodes(v, EventAt(c).value, to);
        ArcAddsNodes(w, EventAt(c).value, to);
      } else if RecordAt(c).Some? {
        ArcAddsNodes(v, RecordNode(RecordAt(c).value), to);
        ArcAddsNodes(w, RecordNode(RecordAt(c).value), to);
      }
    }
  }

  lemma NextNodes(schema: Schema, v: View, c: seq<Element>)
    requires Shaped(schema, c)
    ensures forall n | n in v.nodes && n.EventNode? :: n in Next(v, c).nodes
    ensures forall n | n in Next(v, c).nodes && n.EventNode? :: n in v.nodes || IsEventOf(schema, n)
    ensures Current(c).EventEl? ==> EventNode(c[1].entity.path, c[2].event.name) in Next(v, c).nodes
    ensures !Current(c).SchemaEl? ==> Next(v, c).entities == v.entities
  {
    match Current(c) {
      case SchemaEl(s) => EntitiesAddNoEvents(v.nodes, s.entities);
      case DataTypeEl(ty) => DataTypesAddNoNewEvents(v, c);
      case _ =>
    }
  }

  /** The graph's events are the schema's events, and its entities the schema's. */
  lemma {:induction false} GraphMatchesSchema(schema: Schema, k: nat)
    requires 0 < k <= |Visits(schema)|
    ensures var v := After(Visits(schema)[..k]);
            && v.entities == EntityPaths(schema.entities)
            && (forall n | n in v.nodes && n.EventNode? :: IsEventOf(schema, n))
            && (forall i | 0 <= i < k && Visits(schema)[i] != [] && Current(Visits(schema)[i]).EventEl? ::
                  var c := Visits(schema)[i];
                  Shaped(schema, c) && EventNode(c[1].entity.path, c[2].event.name) in v.nodes)
  {
    var visits := Visits(schema);
    var c := visits[k - 1];
    CursorShape(schema, c);
    SchemaVisitedFirst(schema);
    assert visits[..k][..k - 1] == visits[..k - 1] && visits[..k][k - 1] == c;
    NextNodes(schema, After(visits[..k - 1]), c);
    if k == 1 {
      assert visits[..0] == [];
      assert START.entities + EntityPaths(schema.entities) == EntityPaths(schema.entities);
    } else {
      GraphMatchesSchema(schema, k - 1);
    }
  }

  lemma EventNodesAreEvents(schema: Schema, n: Node)
    ensures n in After(Visits(schema)).nodes && n.EventNode? <==> IsEventOf(schema, n)
  {
    var visits := Visits(schema);
    SchemaVisitedFirst(schema);
    GraphMatchesSchema(schema, |visits|);
    assert visits[..|visits|] == visits;
    if e, ev :| e in schema.entities && ev in e.events && n == EventNode(e.path, ev.name) {
      EventHasCursor(schema, e, ev);
      var i :| 0 <= i < |visits| && visits[i] == [SchemaEl(schema), EntityEl(e), EventEl(ev)];
      assert Current(visits[i]).EventEl?;
    }
  }

  // ---- Acceptance -----------------------------------------------------------

  /** What the constraint demands: references have declared targets, no record and
      no event carries two of them, and once any is used, following them to parent
      entities leads from every entity to a single root. */
  ghost predicate TreeReferencesSound(schema: Schema) {
    var visits := Visits(schema);
    && AllTargeted(visits)
    && OnePerRecord(visits)
    && ((exists c :: c in visits && IsTreeRef(c)) ==>
          && (forall n | IsEventOf(schema, n) :: RefCount(ArcsOf(visits), n) <= 1)
          && IsRootedTree(ArcsOf(visits), EntityPaths(schema.entities)))
  }

  lemma TreeRefsArePlaced(schema: Schema)
    ensures (exists c :: c in Visits(schema) && IsTreeRef(c)) <==> exists c :: c in Visits(schema) && Placed(c)
  {
    if c :| c in Visits(schema) && IsTreeRef(c) {
      CursorShape(schema, c);
      assert Placed(c);
    }
  }

  /** What the constraint asks of its state at the end of a walk. */
  ghost predicate Accepts(v: View) {
    && v.errors == []
    && (v.used ==> (forall n | n in v.nodes && n.EventNode? :: RefCount(v.arcs, n) <= 1)
                   && IsRootedTree(v.arcs, v.entities))
  }

  lemma AcceptedIffSound(schema: Schema)
    requires WellFormed(schema)
    ensures Distinct(After(Visits(schema)).entities)
    ensures Accepts(After(Visits(schema))) <==> TreeReferencesSound(schema)
  {
    var visits := Visits(schema);
    SchemaVisitedFirst(schema);
    GraphMatchesSchema(schema, |visits|);
    assert visits[..|visits|] == visits;
    forall n ensures n in After(visits).nodes && n.EventNode? <==> IsEventOf(schema, n) {
      EventNodesAreEvents(schema, n);
    }
    NoErrorIffClean(visits);
    TreeRefsArePlaced(schema);
  }

  // ---- Errors of the walk ---------------------------------------------------

  /** A tree reference of a record declaration to a declared entity. */
  predicate IsTargetedRecordRef(c: seq<Element>) {
    IsRecordRef(c) && IsTargeted(c)
  }

  /** An earlier visit showed such a reference of the same record declaration. */
  ghost predicate RepeatsRecord(before: seq<seq<Element>>, c: seq<Element>) {
    && IsTargetedRecordRef(c)
    && exists d :: d in before && IsTargetedRecordRef(d) && RecordAt(d) == RecordAt(c)
  }

  /** Visit `k` raises the error: its reference names no target, or no declared one, or
      is the second of its record declaration. */
  ghost predicate RaisedAt(cursors: seq<seq<Element>>, k: nat, e: RefTreeError)
    requires k < |cursors|
  {
    var c := cursors[k];
    && IsTreeRef(c)
    && ((TargetOf(c).None? && e == NotTargetConstrained(c))
        || (TargetOf(c).Some? && !IsTargeted(c) && e == UnknownTarget(c, TargetOf(c).value))
        || (RepeatsRecord(cursors[..k], c) && e == MultipleRefsInRecord(c)))
  }

  ghost predicate IsWalkError(cursors: seq<seq<Element>>, e: RefTreeError) {
    exists k :: 0 <= k < |cursors| && RaisedAt(cursors, k, e)
  }

  /** The visits that place their arc: all but repeated references of a record. */
  ghost function Kept(cursors: seq<seq<Element>>): seq<seq<Element>> {
    if cursors == [] then []
    else
      var before, c := cursors[..|cursors| - 1], cursors[|cursors| - 1];
      if RepeatsRecord(before, c) then Kept(before) else Kept(before) + [c]
  }

  /** What the state holds after some visits, errors or not. */
  ghost predicate Holds(v: View, cursors: seq<seq<Element>>) {
    && (forall e :: e in v.errors <==> IsWalkError(cursors, e))
    && (forall r :: r in v.recordsSeen <==>
                    exists d :: d in cursors && IsTargetedRecordRef(d) && RecordAt(d) == Some(r))
    && (v.used <==> exists d :: d in cursors && Placed(d) && IsTargeted(d))
    && (AllTargeted(cursors) ==> v.arcs == ArcsOf(Kept(cursors)))
  }

  function ErrorsAt(c: seq<Element>, repeats: bool): seq<RefTreeError> {
    if !IsTreeRef(c) then []
    else if TargetOf(c).None? then [NotTargetConstrained(c)]
    else if !IsTargeted(c) then [UnknownTarget(c, TargetOf(c).value)]
    else if repeats then [MultipleRefsInRecord(c)]
    else []
  }

  lemma NextHolds(v: View, c: seq<Element>)
    ensures var w, repeats := Next(v, c), IsTargetedRecordRef(c) && RecordAt(c).value in v.recordsSeen;
            && w.errors == v.errors + ErrorsAt(c, repeats)
            && w.recordsSeen == v.recordsSeen + (if IsTargetedRecordRef(c) then {RecordAt(c).value} else {})
            && (w.used <==> v.used || (Placed(c) && IsTargeted(c) && !repeats))
            && (!repeats && (IsTreeRef(c) ==> IsTargeted(c)) ==> w.arcs == v.arcs + ArcsAt(c))
            && (repeats ==> w.arcs == v.arcs)
  {}

  lemma RaisedNext(before: seq<seq<Element>>, c: seq<Element>, e: RefTreeError)
    ensures IsWalkError(before + [c], e) <==> IsWalkError(before, e) || e in ErrorsAt(c, RepeatsRecord(before, c))
  {
    var all := before + [c];
    forall k | 0 <= k < |before| ensures RaisedAt(all, k, e) <==> RaisedAt(before, k, e) {
      assert all[..k] == before[..k];
    }
    assert all[..|before|] == before;
    assert RaisedAt(all, |before|, e) <==> e in ErrorsAt(c, RepeatsRecord(before, c));
  }

  lemma KeptNext(before: seq<seq<Element>>, c: seq<Element>)
    ensures ArcsOf(Kept(before + [c])) ==
            if RepeatsRecord(before, c) then ArcsOf(Kept(before)) else ArcsOf(Kept(before)) + ArcsAt(c)
  {
    assert (before + [c])[..|before|] == before;
    assert (Kept(before) + [c])[..|Kept(before)|] == Kept(before);
  }

  lemma SeenNext(v: View, before: seq<seq<Element>>, c: seq<Element>, w: View)
    requires Holds(v, before) && w == Next(v, c)
    ensures forall r :: r in w.recordsSeen <==>
                        exists d :: d in before + [c] && IsTargetedRecordRef(d) && RecordAt(d) == Some(r)
    ensures w.used <==> exists d :: d in before + [c] && Placed(d) && IsTargeted(d)
  {
    NextHolds(v, c);
    assert forall d :: d in before + [c] <==> d in before || d == c;
    if IsTargetedRecordRef(c) && RecordAt(c).value in v.recordsSeen {
      var d :| d in before && IsTargetedRecordRef(d) && RecordAt(d) == RecordAt(c);
      assert Placed(d) && IsTargeted(d);
    }
    assert c in before + [c];
  }

  lemma HoldsNext(v: View, before: seq<seq<Element>>, c: seq<Element>)
    requires Holds(v, before)
    ensures Holds(Next(v, c), before + [c])
  {
    var w := Next(v, c);
    NextHolds(v, c);
    SeenNext(v, before, c, w);
    forall e ensures e in w.errors <==> IsWalkError(before + [c], e) {
      RaisedNext(before, c, e);
    }
    TargetedSnoc(before, c);
    KeptNext(before, c);
  }

  lemma {:induction false} WalkHolds(cursors: seq<seq<Element>>)
    ensures Holds(After(cursors), cursors)
  {
    if cursors != [] {
      var before, c := cursors[..|cursors| - 1], cursors[|cursors| - 1];
      WalkHolds(before);
      HoldsNext(After(before), before, c);
      assert cursors == before + [c];
    }
  }

  // ---- What is reported -----------------------------------------------------

  /** The crowded events of the schema, then all that is wrong with its tree of parent
      entities, nothing twice. */
  ghost predicate ReportsGraph(schema: Schema, arcs: Arcs, errors: seq<RefTreeError>) {
    exists events, tree ::
      && errors == events + tree && OnceEach(errors)
      && (forall e :: e in events <==> IsCrowdedEvent(schema, arcs, e))
      && ReportsTree(arcs, EntityPaths(schema.entities), tree)
  }

  ghost predicate IsCrowdedEvent(schema: Schema, arcs: Arcs, e: RefTreeError) {
    && e.MultiplePerEvent? && IsEventOf(schema, EventNode(e.entity, e.event))
    && RefCount(arcs, EventNode(e.entity, e.event)) > 1
  }

  /** With a reference that has no declared target only the errors of the walk are
      reported; otherwise, once a tree reference is used, those of its graph follow. */
  ghost predicate ReportsOn(schema: Schema, visits: seq<seq<Element>>, all: seq<RefTreeError>) {
    if !AllTargeted(visits) then
      all != [] && forall e :: e in all <==> IsWalkError(visits, e)
    else if exists c :: c in visits && IsTreeRef(c) then
      exists walk, graph :: all == walk + graph && ReportsBothParts(schema, visits, walk, graph)
    else all == []
  }

  ghost predicate ReportsBothParts(schema: Schema, visits: seq<seq<Element>>,
                                   walk: seq<RefTreeError>, graph: seq<RefTreeError>) {
    (forall e :: e in walk <==> IsWalkError(visits, e)) && ReportsGraph(schema, ArcsOf(Kept(visits)), graph)
  }

  /** An error of the walk leaves the tree unchecked exactly if its reference has no
      declared target. */
  lemma UntargetedIff(cursors: seq<seq<Element>>)
    ensures (exists e :: IsWalkError(cursors, e) && (e.NotTargetConstrained? || e.UnknownTarget?)) <==>
            !AllTargeted(cursors)
  {
    if c :| c in cursors && IsTreeRef(c) && !IsTargeted(c) {
      var k :| 0 <= k < |cursors| && cursors[k] == c;
      var e := if TargetOf(c).None? then NotTargetConstrained(c) else UnknownTarget(c, TargetOf(c).value);
      assert RaisedAt(cursors, k, e);
    }
    if e :| IsWalkError(cursors, e) && (e.NotTargetConstrained? || e.UnknownTarget?) {
      var k :| 0 <= k < |cursors| && RaisedAt(cursors, k, e);
      assert cursors[k] in cursors;
    }
  }

  lemma TreeIsCheckedIff(schema: Schema)
    ensures var v := After(Visits(schema));
            TreeIsChecked(v.used, v.errors) <==>
            AllTargeted(Visits(schema)) && exists c :: c in Visits(schema) && IsTreeRef(c)
  {
    var visits, v := Visits(schema), After(Visits(schema));
    WalkHolds(visits);
    UntargetedIff(visits);
    TreeRefsArePlaced(schema);
  }

  lemma GraphReported(schema: Schema, v: View, rest: seq<RefTreeError>)
    requires v == After(Visits(schema)) && ReportsAll(v.arcs, v.nodes, v.entities, rest)
    ensures ReportsGraph(schema, v.arcs, rest)
  {
    var visits := Visits(schema);
    SchemaVisitedFirst(schema);
    GraphMatchesSchema(schema, |visits|);
    assert visits[..|visits|] == visits;
    var events, tree :| && rest == events + tree && OnceEach(rest)
                        && (forall e :: e in events <==> IsCrowded(v.arcs, v.nodes, e))
                        && ReportsTree(v.arcs, v.entities, tree);
    forall e ensures e in events <==> IsCrowdedEvent(schema, v.arcs, e) {
      if e.MultiplePerEvent? { EventNodesAreEvents(schema, EventNode(e.entity, e.event)); }
    }
  }

  lemma ReportsSchema(schema: Schema, v: View, all: seq<RefTreeError>)
    requires v == After(Visits(schema)) && v.errors <= all
    requires if TreeIsChecked(v.used, v.errors) then ReportsAll(v.arcs, v.nodes, v.entities, all[|v.errors|..])
             else all == v.errors
    ensures ReportsOn(schema, Visits(schema), all)
  {
    TreeIsCheckedIff(schema);
    WalkHolds(Visits(schema));
    if TreeIsChecked(v.used, v.errors) {
      GraphReported(schema, v, all[|v.errors|..]);
    }
    ReportsVisits(schema, Visits(schema), v, all);
  }

  lemma ReportsVisits(schema: Schema, visits: seq<seq<Element>>, v: View, all: seq<RefTreeError>)
    requires (forall e :: e in v.errors <==> IsWalkError(visits, e)) && v.errors <= all
    requires AllTargeted(visits) ==> v.arcs == ArcsOf(Kept(visits))
    requires TreeIsChecked(v.used, v.errors) <==> AllTargeted(visits) && exists c :: c in visits && IsTreeRef(c)
    requires if TreeIsChecked(v.used, v.errors) then ReportsGraph(schema, v.arcs, all[|v.errors|..])
             else all == v.errors
    ensures ReportsOn(schema, visits, all)
  {
    if TreeIsChecked(v.used, v.errors) {
      PartsReported(schema, visits, v.errors, all[|v.errors|..]);
      assert all == v.errors + all[|v.errors|..];
    } else {
      OnlyWalkReported(schema, visits, v.errors);
    }
  }

  lemma PartsReported(schema: Schema, visits: seq<seq<Element>>, walk: seq<RefTreeError>, graph: seq<RefTreeError>)
    requires AllTargeted(visits) && exists c :: c in visits && IsTreeRef(c)
    requires (forall e :: e in walk <==> IsWalkError(visits, e)) && ReportsGraph(schema, ArcsOf(Kept(visits)), graph)
    ensures ReportsOn(schema, visits, walk + graph)
  {
    assert ReportsBothParts(schema, visits, walk, graph);
  }

  lemma OnlyWalkReported(schema: Schema, visits: seq<seq<Element>>, walk: seq<RefTreeError>)
    requires !(AllTargeted(visits) && exists c :: c in visits && IsTreeRef(c))
    requires forall e :: e in walk <==> IsWalkError(visits, e)
    ensures ReportsOn(schema, visits, walk)
  {
    ErrorsNeedReferences(visits, walk);
  }

  /** Without a tree reference there is no error, and an untargeted one raises one. */
  lemma ErrorsNeedReferences(cursors: seq<seq<Element>>, errors: seq<RefTreeError>)
    requires forall e :: e in errors <==> IsWalkError(cursors, e)
    ensures errors != [] ==> exists c :: c in cursors && IsTreeRef(c)
    ensures !AllTargeted(cursors) ==> errors != []
  {
    UntargetedIff(cursors);
    if errors != [] {
      var e := errors[0];
      assert e in errors;
      var k :| 0 <= k < |cursors| && RaisedAt(cursors, k, e);
      assert cursors[k] in cursors;
    }
  }

  /** An accepted schema is one whose tree references are sound; for any other exactly
      what is wrong with it is reported. */
  method Validate(schema: Schema) returns (output: Outcome<RefTreeError>)
    requires WellFormed(schema)
    ensures output.Pass? <==> TreeReferencesSound(schema)
    ensures ReportsOn(schema, Visits(schema), Reported(output))
    ensures (exists c :: c in Visits(schema) && IsTreeRef(c) && !IsTargeted(c)) ==>
              forall e | e in Reported(output) ::
                e.NotTargetConstrained? || e.UnknownTarget? || e.MultipleRefsInRecord?
  {
    var constraint := new RefTreeConstraint();
    var visits := Visits(schema);
    for i := 0 to |visits|
      invariant constraint.Valid() && constraint.Abstract() == After(visits[..i])
    {
      CursorShape(schema, visits[i]);
      constraint.Visit(visits[i]);
      assert visits[..i + 1][..i] == visits[..i];
    }
    assert visits[..|visits|] == visits;
    AcceptedIffSound(schema);
    output := constraint.Finish();
    ghost var all :| Concludes(output, all) && constraint.errors <= all
                     && if TreeIsChecked(constraint.used, constraint.errors)
                        then ReportsAll(After(visits).arcs, constraint.nodes, constraint.entities,
                                        all[|constraint.errors|..])
                        else all == constraint.errors;
    ReportsSchema(schema, After(visits), all);
    OneErrorAlone(schema, visits, all);
    ReportedIsConcluded(output, all);
  }

  /** No error that is reported stands for several. */
  lemma OneErrorAlone(schema: Schema, visits: seq<seq<Element>>, all: seq<RefTreeError>)
    requires ReportsOn(schema, visits, all)
    ensures forall e | e in all :: !e.Multiple?
    ensures !AllTargeted(visits) ==>
              forall e | e in all :: e.NotTargetConstrained? || e.UnknownTarget? || e.MultipleRefsInRecord?
  {
    WalkErrorKinds(visits);
  }

  lemma WalkErrorKinds(visits: seq<seq<Element>>)
    ensures forall e | IsWalkError(visits, e) :: e.NotTargetConstrained? || e.UnknownTarget? || e.MultipleRefsInRecord?
  {
    forall e | IsWalkError(visits, e) ensures e.NotTargetConstrained? || e.UnknownTarget? || e.MultipleRefsInRecord? {
      var k :| 0 <= k < |visits| && RaisedAt(visits, k, e);
    }
  }
}
