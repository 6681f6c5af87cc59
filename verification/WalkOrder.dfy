/** The order in which a walk shows a schema, stated on the cursors it shows. */
module WalkOrder {
  import opened Wrappers
  import opened SchemaModel
  import opened Trees
  import opened Walk
  import opened Cursors

  // ---- The documented order -------------------------------------------------

  /** The annotations an element has of its own. */
  function AnnotationsOf(e: Element): Option<Annotations> {
    match e
    case SchemaEl(schema) => Some(schema.annotations)
    case EntityEl(entity) => Some(entity.annotations)
    case EventEl(event) => Some(event.annotations)
    case RecordEl(record) => Some(record.annotations)
    case FieldEl(field) => Some(field.annotations)
    case DataTypeEl(ty) => if ty.EntityRef? then Some(ty.annotations) else None
    case AnnotationsEl(_) => None
  }

  function FieldEls(fields: seq<Field>): seq<Element> {
    seq(|fields|, i requires 0 <= i < |fields| => FieldEl(fields[i]))
  }

  function EventEls(events: seq<Event>): seq<Element> {
    seq(|events|, i requires 0 <= i < |events| => EventEl(events[i]))
  }

  function EntityEls(entities: seq<Entity>): seq<Element> {
    seq(|entities|, i requires 0 <= i < |entities| => EntityEl(entities[i]))
  }

  function RecordEls(records: seq<Record>): seq<Element> {
    seq(|records|, i requires 0 <= i < |records| => RecordEl(records[i]))
  }

  /** What an element holds besides its annotations, as declared. */
  function Declared(e: Element): seq<Element> {
    match e
    case SchemaEl(schema) => EntityEls(schema.entities) + RecordEls(schema.records)
    case EntityEl(entity) => EventEls(entity.events)
    case EventEl(event) => FieldEls(event.fields)
    case RecordEl(record) => FieldEls(record.fields)
    case FieldEl(field) => [DataTypeEl(field.ty)]
    case DataTypeEl(ty) => Carried(ty)
    case AnnotationsEl(_) => []
  }

  function Carried(ty: DataType): seq<Element> {
    match ty
    case OptionType(inner) => [DataTypeEl(inner)]
    case ListType(inner) => [DataTypeEl(inner)]
    case EntityRef(data, _) => if data.Some? then [DataTypeEl(data.value)] else []
    case _ => []
  }

  /** An element's children: its annotations, then what it declares. */
  function Children(e: Element): seq<Element> {
    (if AnnotationsOf(e).Some? then [AnnotationsEl(AnnotationsOf(e).value)] else []) + Declared(e)
  }

  // ---- The tree follows it --------------------------------------------------

  ghost predicate Documented(t: Tree<Element>)
    decreases t
  {
    && |t.children| == |Children(t.value)|
    && forall k | 0 <= k < |t.children| :: t.children[k].value == Children(t.value)[k] && Documented(t.children[k])
  }

  /** No two children of a node are alike. */
  ghost predicate Separated(t: Tree<Element>)
    decreases t
  {
    && (forall k, l | 0 <= k < l < |t.children| :: t.children[k].value != t.children[l].value)
    && (forall k | 0 <= k < |t.children| :: Separated(t.children[k]))
  }

  /** The trees stand for the elements, and are as documented. */
  ghost predicate AreTrees(ts: seq<Tree<Element>>, es: seq<Element>) {
    |ts| == |es| && forall k | 0 <= k < |ts| :: ts[k].value == es[k] && Documented(ts[k])
  }

  lemma AnnotatedDocumented(e: Element, rest: seq<Tree<Element>>)
    requires AnnotationsOf(e).Some? && AreTrees(rest, Declared(e))
    ensures Documented(Node(e, [Leaf(AnnotationsEl(AnnotationsOf(e).value))] + rest))
  {
    var t := Node(e, [Leaf(AnnotationsEl(AnnotationsOf(e).value))] + rest);
    forall k | 0 <= k < |t.children| ensures t.children[k].value == Children(e)[k] && Documented(t.children[k]) {
      if k > 0 { assert t.children[k] == rest[k - 1]; }
    }
  }

  /** The trees stand for different elements, none of them annotations. */
  ghost predicate AreSeparated(ts: seq<Tree<Element>>) {
    && (forall k, l | 0 <= k < l < |ts| :: ts[k].value != ts[l].value)
    && (forall k | 0 <= k < |ts| :: !ts[k].value.AnnotationsEl? && Separated(ts[k]))
  }

  lemma AnnotatedSeparated(e: Element, a: Annotations, rest: seq<Tree<Element>>)
    requires AreSeparated(rest)
    ensures Separated(Node(e, [Leaf(AnnotationsEl(a))] + rest))
  {
    var t := Node(e, [Leaf(AnnotationsEl(a))] + rest);
    forall k | 0 <= k < |t.children| ensures Separated(t.children[k]) {
      if k > 0 { assert t.children[k] == rest[k - 1]; }
    }
    forall k, l | 0 <= k < l < |t.children| ensures t.children[k].value != t.children[l].value {
      assert t.children[l] == rest[l - 1];
      if k > 0 { assert t.children[k] == rest[k - 1]; }
    }
  }

  lemma {:induction false} TypeTree(ty: DataType)
    ensures Documented(DataTypeTree(ty)) && Separated(DataTypeTree(ty))
  {
    match ty {
      case OptionType(inner) => TypeTree(inner);
      case ListType(inner) => TypeTree(inner);
      case EntityRef(data, annotations) =>
        var rest := if data.Some? then [DataTypeTree(data.value)] else [];
        if data.Some? { TypeTree(data.value); }
        AnnotatedDocumented(DataTypeEl(ty), rest);
        AnnotatedSeparated(DataTypeEl(ty), annotations, rest);
        assert DataTypeTree(ty) == Node(DataTypeEl(ty), [Leaf(AnnotationsEl(annotations))] + rest);
      case _ =>
    }
  }

  lemma FieldOfTree(field: Field)
    ensures Documented(FieldTree(field)) && Separated(FieldTree(field))
  {
    TypeTree(field.ty);
    AnnotatedDocumented(FieldEl(field), [DataTypeTree(field.ty)]);
    AnnotatedSeparated(FieldEl(field), field.annotations, [DataTypeTree(field.ty)]);
    assert FieldTree(field).children == [Leaf(AnnotationsEl(field.annotations))] + [DataTypeTree(field.ty)];
  }

  lemma FieldsOfTree(fields: seq<Field>)
    ensures AreTrees(FieldTrees(fields), FieldEls(fields))
    ensures UniqueFields(fields) ==> AreSeparated(FieldTrees(fields))
  {
    forall k | 0 <= k < |fields| ensures Documented(FieldTrees(fields)[k]) && Separated(FieldTrees(fields)[k]) {
      FieldOfTree(fields[k]);
    }
  }

  lemma EventOfTree(event: Event)
    ensures Documented(EventTree(event)) && (UniqueFields(event.fields) ==> Separated(EventTree(event)))
  {
    FieldsOfTree(event.fields);
    AnnotatedDocumented(EventEl(event), FieldTrees(event.fields));
    if UniqueFields(event.fields) {
      AnnotatedSeparated(EventEl(event), event.annotations, FieldTrees(event.fields));
    }
  }

  lemma RecordOfTree(record: Record)
    ensures Documented(RecordTree(record)) && (UniqueFields(record.fields) ==> Separated(RecordTree(record)))
  {
    FieldsOfTree(record.fields);
    AnnotatedDocumented(RecordEl(record), FieldTrees(record.fields));
    if UniqueFields(record.fields) {
      AnnotatedSeparated(RecordEl(record), record.annotations, FieldTrees(record.fields));
    }
  }

  ghost predicate NamesUnique(entity: Entity) {
    UniqueEvents(entity.events) && forall ev | ev in entity.events :: UniqueFields(ev.fields)
  }

  lemma EntityOfTree(entity: Entity)
    ensures Documented(EntityTree(entity)) && (NamesUnique(entity) ==> Separated(EntityTree(entity)))
  {
    var trees := EventTrees(entity.events);
    forall k | 0 <= k < |entity.events|
      ensures Documented(trees[k]) && (UniqueFields(entity.events[k].fields) ==> Separated(trees[k]))
    {
      EventOfTree(entity.events[k]);
    }
    AnnotatedDocumented(EntityEl(entity), trees);
    if NamesUnique(entity) {
      assert forall k | 0 <= k < |entity.events| :: entity.events[k] in entity.events;
      AnnotatedSeparated(EntityEl(entity), entity.annotations, trees);
    }
  }

  lemma EntitiesOfTree(schema: Schema)
    ensures AreTrees(EntityTrees(schema.entities), EntityEls(schema.entities))
    ensures WellFormed(schema) ==> AreSeparated(EntityTrees(schema.entities))
  {
    forall k | 0 <= k < |schema.entities|
      ensures Documented(EntityTrees(schema.entities)[k])
      ensures WellFormed(schema) ==> Separated(EntityTrees(schema.entities)[k])
    {
      EntityOfTree(schema.entities[k]);
      assert schema.entities[k] in schema.entities;
    }
  }

  lemma RecordsOfTree(schema: Schema)
    ensures AreTrees(RecordTrees(schema.records), RecordEls(schema.records))
    ensures WellFormed(schema) ==> AreSeparated(RecordTrees(schema.records))
  {
    forall k | 0 <= k < |schema.records|
      ensures Documented(RecordTrees(schema.records)[k])
      ensures WellFormed(schema) ==> Separated(RecordTrees(schema.records)[k])
    {
      RecordOfTree(schema.records[k]);
      assert schema.records[k] in schema.records;
    }
  }

  lemma TreesJoin(ts: seq<Tree<Element>>, es: seq<Element>, us: seq<Tree<Element>>, fs: seq<Element>)
    requires AreTrees(ts, es) && AreTrees(us, fs)
    ensures AreTrees(ts + us, es + fs)
  {
    var all := ts + us;
    forall k | 0 <= k < |all| ensures all[k].value == (es + fs)[k] && Documented(all[k]) {
      if k >= |ts| { assert all[k] == us[k - |ts|] && (es + fs)[k] == fs[k - |ts|]; }
    }
  }

  lemma SeparatedJoin(ts: seq<Tree<Element>>, us: seq<Tree<Element>>)
    requires AreSeparated(ts) && AreSeparated(us)
    requires forall k, l | 0 <= k < |ts| && 0 <= l < |us| :: ts[k].value != us[l].value
    ensures AreSeparated(ts + us)
  {
    var all := ts + us;
    forall k | 0 <= k < |all| ensures !all[k].value.AnnotationsEl? && Separated(all[k]) {
      if k >= |ts| { assert all[k] == us[k - |ts|]; }
    }
    forall k, l | 0 <= k < l < |all| ensures all[k].value != all[l].value {
      assert k < |ts| ==> all[k] == ts[k];
      assert k >= |ts| ==> all[k] == us[k - |ts|];
      assert l >= |ts| ==> all[l] == us[l - |ts|];
    }
  }

  lemma SchemaOfTree(schema: Schema)
    ensures Documented(SchemaTree(schema)) && (WellFormed(schema) ==> Separated(SchemaTree(schema)))
  {
    var es, rs := EntityTrees(schema.entities), RecordTrees(schema.records);
    EntitiesOfTree(schema);
    RecordsOfTree(schema);
    TreesJoin(es, EntityEls(schema.entities), rs, RecordEls(schema.records));
    AnnotatedDocumented(SchemaEl(schema), es + rs);
    if WellFormed(schema) {
      SeparatedJoin(es, rs);
      AnnotatedSeparated(SchemaEl(schema), schema.annotations, es + rs);
    }
    var first := Leaf(AnnotationsEl(schema.annotations));
    assert [first] + es + rs == [first] + (es + rs);
  }

  // ---- What follows a visit -------------------------------------------------

  /** Visit `i` is followed by a visit to the first child. */
  ghost predicate FollowedByFirst(trail: seq<seq<Element>>, i: nat)
    requires i < |trail|
  {
    && trail[i] != []
    && (Children(Current(trail[i])) != [] ==>
          i + 1 < |trail| && trail[i + 1] == trail[i] + [Children(Current(trail[i]))[0]])
  }

  ghost predicate AllFollowed(trail: seq<seq<Element>>) {
    forall i | 0 <= i < |trail| :: FollowedByFirst(trail, i)
  }

  lemma FollowedJoin(a: seq<seq<Element>>, b: seq<seq<Element>>)
    requires AllFollowed(a) && AllFollowed(b)
    ensures AllFollowed(a + b)
  {
    forall i | 0 <= i < |a + b| ensures FollowedByFirst(a + b, i) {
      if i < |a| {
        assert FollowedByFirst(a, i) && (a + b)[i] == a[i] && (i + 1 < |a| ==> (a + b)[i + 1] == a[i + 1]);
      } else {
        assert FollowedByFirst(b, i - |a|) && (a + b)[i] == b[i - |a|];
        assert i + 1 < |a + b| ==> (a + b)[i + 1] == b[i + 1 - |a|];
      }
    }
  }

  lemma FollowedNode(c: seq<Element>, below: seq<seq<Element>>)
    requires c != [] && AllFollowed(below)
    requires Children(Current(c)) != [] ==> below != [] && below[0] == c + [Children(Current(c))[0]]
    ensures AllFollowed([c] + below)
  {
    var all := [c] + below;
    forall i | 0 <= i < |all| ensures FollowedByFirst(all, i) {
      if i > 0 { assert FollowedByFirst(below, i - 1); }
    }
  }

  lemma {:induction false} FirstChildNext(prefix: seq<Element>, t: Tree<Element>)
    requires Documented(t)
    ensures AllFollowed(Trail(prefix, t)) && Trail(prefix, t)[0] == prefix + [t.value]
    decreases t, 1
  {
    FirstChildNextIn(prefix + [t.value], t.children);
    FollowedNode(prefix + [t.value], Trails(prefix + [t.value], t.children));
  }

  lemma {:induction false} FirstChildNextIn(prefix: seq<Element>, ts: seq<Tree<Element>>)
    requires forall k | 0 <= k < |ts| :: Documented(ts[k])
    ensures AllFollowed(Trails(prefix, ts))
    ensures ts != [] ==> Trails(prefix, ts) != [] && Trails(prefix, ts)[0] == prefix + [ts[0].value]
    decreases ts, 0
  {
    if ts != [] {
      FirstChildNext(prefix, ts[0]);
      FirstChildNextIn(prefix, ts[1..]);
      FollowedJoin(Trail(prefix, ts[0]), Trails(prefix, ts[1..]));
    }
  }

  /** Every visit to a schema, entity, event, record, field or entity reference is
      followed at once by a visit to its own annotations. */
  lemma AnnotationsFollow(schema: Schema, i: nat)
    requires i < |Visits(schema)|
    ensures Visits(schema)[i] != []
    ensures var c := Visits(schema)[i];
            AnnotationsOf(Current(c)).Some? ==>
              && i + 1 < |Visits(schema)|
              && Visits(schema)[i + 1] == c + [AnnotationsEl(AnnotationsOf(Current(c)).value)]
  {
    SchemaOfTree(schema);
    FirstChildNext([], SchemaTree(schema));
    assert FollowedByFirst(Visits(schema), i);
  }

  // ---- Which visit comes first ----------------------------------------------

  lemma LabelsCount(t: Tree<Element>, p: Position)
    requires HasPosition(t, p)
    ensures |LabelsTo(t, p)| == |p| + 1
    decreases p
  {
    if p != [] { LabelsCount(t.children[p[0]], p[1..]); }
  }

  /** The labels to `p` and `q` agree before index `k` and differ there. */
  ghost predicate PartAt(c: seq<Element>, d: seq<Element>, k: nat) {
    0 < k < |c| && k < |d| && c[..k] == d[..k] && c[k] != d[k]
  }

  /** Where two cursors part, their order is that of the children they go on to. */
  ghost predicate OrderedAt(p: Position, q: Position, c: seq<Element>, d: seq<Element>, k: nat)
    requires PartAt(c, d, k)
  {
    && k <= |p| && k <= |q| && p[k - 1] != q[k - 1] && (Precedes(p, q) <==> p[k - 1] < q[k - 1])
    && GoesTo(c[k - 1], p[k - 1], c[k]) && GoesTo(c[k - 1], q[k - 1], d[k])
  }

  /** `x` is child `a` of the element, and no other child. */
  ghost predicate GoesTo(parent: Element, a: nat, x: Element) {
    && a < |Children(parent)| && Children(parent)[a] == x
    && forall b | 0 <= b < |Children(parent)| && b != a :: Children(parent)[b] != x
  }

  lemma GoesToChild(t: Tree<Element>, a: nat)
    requires Documented(t) && Separated(t) && a < |t.children|
    ensures GoesTo(t.value, a, t.children[a].value)
  {
    forall b | 0 <= b < |t.children| && b != a ensures Children(t.value)[b] != t.children[a].value {
      assert t.children[b].value == Children(t.value)[b];
    }
  }

  lemma {:induction false} PartHere(t: Tree<Element>, p: Position, q: Position)
    requires Documented(t) && Separated(t) && HasPosition(t, p) && HasPosition(t, q)
    requires PartAt(LabelsTo(t, p), LabelsTo(t, q), 1)
    ensures OrderedAt(p, q, LabelsTo(t, p), LabelsTo(t, q), 1)
  {
    LabelsCount(t, p);
    LabelsCount(t, q);
    assert LabelsTo(t, p)[1] == LabelsTo(t.children[p[0]], p[1..])[0];
    assert LabelsTo(t, q)[1] == LabelsTo(t.children[q[0]], q[1..])[0];
    GoesToChild(t, p[0]);
    GoesToChild(t, q[0]);
  }

  lemma {:induction false} PartBelow(p: Position, q: Position, c: seq<Element>, d: seq<Element>, k: nat)
    requires k > 1 && PartAt(c, d, k) && p != [] && q != [] && p[0] == q[0]
    requires PartAt(c[1..], d[1..], k - 1) && OrderedAt(p[1..], q[1..], c[1..], d[1..], k - 1)
    ensures OrderedAt(p, q, c, d, k)
  {
    assert c[k - 1] == c[1..][k - 2] && c[k] == c[1..][k - 1] && d[k] == d[1..][k - 1];
    assert p[k - 1] == p[1..][k - 2] && q[k - 1] == q[1..][k - 2];
  }

  lemma PartInRest(c: seq<Element>, d: seq<Element>, k: nat)
    requires k > 1 && PartAt(c, d, k)
    ensures c[1] == d[1] && PartAt(c[1..], d[1..], k - 1)
  {
    assert c[1] == c[..k][1] == d[..k][1] == d[1];
    assert c[1..][..k - 1] == c[..k][1..] && d[1..][..k - 1] == d[..k][1..];
  }

  lemma LabelsBelow(t: Tree<Element>, p: Position)
    requires HasPosition(t, p) && p != []
    ensures LabelsTo(t, p)[1..] == LabelsTo(t.children[p[0]], p[1..])
    ensures |LabelsTo(t, p)| > 1 && LabelsTo(t, p)[1] == t.children[p[0]].value
  {}

  lemma {:induction false} PartingOrders(t: Tree<Element>, p: Position, q: Position, k: nat)
    requires Documented(t) && Separated(t) && HasPosition(t, p) && HasPosition(t, q)
    requires PartAt(LabelsTo(t, p), LabelsTo(t, q), k)
    ensures OrderedAt(p, q, LabelsTo(t, p), LabelsTo(t, q), k)
    decreases k
  {
    var c, d := LabelsTo(t, p), LabelsTo(t, q);
    if k == 1 {
      PartHere(t, p, q);
    } else {
      LabelsCount(t, p);
      LabelsCount(t, q);
      PartInRest(c, d, k);
      LabelsBelow(t, p);
      LabelsBelow(t, q);
      assert p[0] == q[0];
      PartingOrders(t.children[p[0]], p[1..], q[1..], k - 1);
      PartBelow(p, q, c, d, k);
    }
  }

  /** `x` is declared before `y`, annotations before anything else. */
  ghost predicate ChildBefore(parent: Element, x: Element, y: Element) {
    exists a, b :: 0 <= a < b < |Children(parent)| && Children(parent)[a] == x && Children(parent)[b] == y
  }

  /** Visit `i` of a walk shows the cursor. */
  ghost predicate Shown(schema: Schema, i: nat, c: seq<Element>) {
    i < |Visits(schema)| && Visits(schema)[i] == c
  }

  /** A position of the element tree leads to the cursor, and positions are ordered as
      the visits are. */
  lemma ShownAt(schema: Schema, i: nat, c: seq<Element>, j: nat, d: seq<Element>) returns (p: Position, q: Position)
    requires Shown(schema, i, c) && Shown(schema, j, d)
    ensures HasPosition(SchemaTree(schema), p) && LabelsTo(SchemaTree(schema), p) == c
    ensures HasPosition(SchemaTree(schema), q) && LabelsTo(SchemaTree(schema), q) == d
    ensures (i < j ==> Precedes(p, q)) && (j < i ==> Precedes(q, p)) && (i == j ==> p == q)
  {
    VisitsEveryElementOnce(schema);
    p, q := Positions(SchemaTree(schema))[i], Positions(SchemaTree(schema))[j];
  }

  /** Two visits whose cursors part below a common element come in the order in which
      that element's children are declared, its own annotations first. */
  lemma VisitOrder(schema: Schema, i: nat, c: seq<Element>, j: nat, d: seq<Element>, k: nat)
    requires WellFormed(schema) && Shown(schema, i, c) && Shown(schema, j, d) && PartAt(c, d, k)
    ensures i < j <==> ChildBefore(c[k - 1], c[k], d[k])
  {
    var p, q := ShownAt(schema, i, c, j, d);
    SchemaOfTree(schema);
    PartingOrders(SchemaTree(schema), p, q, k);
    PartingOrders(SchemaTree(schema), q, p, k);
    OrderOfChildren(c[k - 1], p[k - 1], q[k - 1], c[k], d[k]);
  }

  lemma OrderOfChildren(parent: Element, a: nat, b: nat, x: Element, y: Element)
    requires GoesTo(parent, a, x) && GoesTo(parent, b, y)
    ensures ChildBefore(parent, x, y) <==> a < b
  {}

  // ---- Outright -------------------------------------------------------------

  lemma {:induction false} SameLabels(t: Tree<Element>, p: Position, q: Position)
    requires Separated(t) && HasPosition(t, p) && HasPosition(t, q) && LabelsTo(t, p) == LabelsTo(t, q)
    ensures p == q
    decreases p
  {
    LabelsCount(t, p);
    LabelsCount(t, q);
    if p != [] {
      LabelsBelow(t, p);
      LabelsBelow(t, q);
      assert p[0] == q[0];
      SameLabels(t.children[p[0]], p[1..], q[1..]);
      assert p == [p[0]] + p[1..] && q == [q[0]] + q[1..];
    }
  }

  /** No cursor is shown twice. */
  lemma VisitsDiffer(schema: Schema, i: nat, c: seq<Element>, j: nat, d: seq<Element>)
    requires WellFormed(schema) && Shown(schema, i, c) && Shown(schema, j, d) && i < j
    ensures c != d
  {
    var p, q := ShownAt(schema, i, c, j, d);
    SchemaOfTree(schema);
    PrecedesIrreflexive(p);
    if c == d {
      SameLabels(SchemaTree(schema), p, q);
    }
  }

  lemma {:induction false} Ancestor(t: Tree<Element>, q: Position, k: nat)
    requires HasPosition(t, q) && k < |q|
    ensures HasPosition(t, q[..k]) && Precedes(q[..k], q) && !Precedes(q, q[..k])
    ensures |LabelsTo(t, q)| > k && LabelsTo(t, q[..k]) == LabelsTo(t, q)[..k + 1]
    decreases k
  {
    LabelsCount(t, q);
    if k > 0 {
      Ancestor(t.children[q[0]], q[1..], k - 1);
      assert q[..k][1..] == q[1..][..k - 1];
    }
  }

  /** An element comes before everything in it. */
  lemma ElementFirst(schema: Schema, i: nat, c: seq<Element>, j: nat, d: seq<Element>)
    requires WellFormed(schema) && Shown(schema, i, c) && Shown(schema, j, d) && c < d
    ensures i < j
  {
    var p, q := ShownAt(schema, i, c, j, d);
    SchemaOfTree(schema);
    AncestorPrecedes(SchemaTree(schema), p, q);
    PrecedesIrreflexive(p);
  }

  lemma AncestorPrecedes(t: Tree<Element>, p: Position, q: Position)
    requires Separated(t) && HasPosition(t, p) && HasPosition(t, q) && LabelsTo(t, p) < LabelsTo(t, q)
    ensures Precedes(p, q) && !Precedes(q, p)
  {
    LabelsCount(t, p);
    LabelsCount(t, q);
    Ancestor(t, q, |p|);
    SameLabels(t, p, q[..|p|]);
  }

  /** The cursors part below a common element, `c` to a child declared earlier. */
  ghost predicate PartInOrder(c: seq<Element>, d: seq<Element>, k: nat) {
    PartAt(c, d, k) && ChildBefore(c[k - 1], c[k], d[k])
  }

  lemma EarlierShown(schema: Schema, i: nat, c: seq<Element>, j: nat, d: seq<Element>, k: nat)
    requires WellFormed(schema) && Shown(schema, i, c) && Shown(schema, j, d) && PartInOrder(c, d, k)
    ensures i < j
  {
    VisitOrder(schema, i, c, j, d, k);
  }

  lemma PartBehind(c: seq<Element>, d: seq<Element>, above: seq<Element>, a: nat, b: nat)
    requires above != [] && a < b < |Children(Current(above))|
    requires Children(Current(above))[a] != Children(Current(above))[b]
    requires above + [Children(Current(above))[a]] <= c && above + [Children(Current(above))[b]] <= d
    ensures PartInOrder(c, d, |above|)
  {
    var k := |above|;
    assert c[..k] == above && d[..k] == above;
    assert c[k] == Children(Current(above))[a] && d[k] == Children(Current(above))[b] && c[k - 1] == Current(above);
  }

  lemma EntityChild(schema: Schema, a: nat)
    requires a < |schema.entities|
    ensures var children := Children(SchemaEl(schema));
            a + 1 < |children| && children[a + 1] == EntityEl(schema.entities[a])
  {}

  lemma RecordChild(schema: Schema, a: nat)
    requires a < |schema.records|
    ensures var children, n := Children(SchemaEl(schema)), |schema.entities|;
            n + a + 1 < |children| && children[n + a + 1] == RecordEl(schema.records[a])
  {
    var es, rs := EntityEls(schema.entities), RecordEls(schema.records);
    assert (es + rs)[|es| + a] == rs[a];
  }

  lemma EntitiesPart(schema: Schema, c: seq<Element>, d: seq<Element>, a: nat, b: nat)
    requires a < b < |schema.entities| && schema.entities[a] != schema.entities[b]
    requires [SchemaEl(schema)] + [EntityEl(schema.entities[a])] <= c
    requires [SchemaEl(schema)] + [EntityEl(schema.entities[b])] <= d
    ensures PartInOrder(c, d, 1)
  {
    EntityChild(schema, a);
    EntityChild(schema, b);
    PartBehind(c, d, [SchemaEl(schema)], a + 1, b + 1);
  }

  /** Entities come in the order of their declaration. */
  lemma EntitiesInOrder(schema: Schema, i: nat, c: seq<Element>, j: nat, d: seq<Element>, a: nat, b: nat)
    requires WellFormed(schema) && Shown(schema, i, c) && Shown(schema, j, d) && a < b < |schema.entities|
    requires [SchemaEl(schema)] + [EntityEl(schema.entities[a])] <= c
    requires [SchemaEl(schema)] + [EntityEl(schema.entities[b])] <= d
    ensures i < j
  {
    EntitiesPart(schema, c, d, a, b);
    EarlierShown(schema, i, c, j, d, 1);
  }

  lemma RecordsPart(schema: Schema, c: seq<Element>, d: seq<Element>, a: nat, b: nat)
    requires a < b < |schema.records| && schema.records[a] != schema.records[b]
    requires [SchemaEl(schema)] + [RecordEl(schema.records[a])] <= c
    requires [SchemaEl(schema)] + [RecordEl(schema.records[b])] <= d
    ensures PartInOrder(c, d, 1)
  {
    RecordChild(schema, a);
    RecordChild(schema, b);
    PartBehind(c, d, [SchemaEl(schema)], |schema.entities| + a + 1, |schema.entities| + b + 1);
  }

  /** So do records, after all entities. */
  lemma RecordsInOrder(schema: Schema, i: nat, c: seq<Element>, j: nat, d: seq<Element>, a: nat, b: nat)
    requires WellFormed(schema) && Shown(schema, i, c) && Shown(schema, j, d) && a < b < |schema.records|
    requires [SchemaEl(schema)] + [RecordEl(schema.records[a])] <= c
    requires [SchemaEl(schema)] + [RecordEl(schema.records[b])] <= d
    ensures i < j
  {
    RecordsPart(schema, c, d, a, b);
    EarlierShown(schema, i, c, j, d, 1);
  }

  lemma EntityRecordPart(schema: Schema, c: seq<Element>, d: seq<Element>, a: nat, b: nat)
    requires a < |schema.entities| && [SchemaEl(schema)] + [EntityEl(schema.entities[a])] <= c
    requires b < |schema.records| && [SchemaEl(schema)] + [RecordEl(schema.records[b])] <= d
    ensures PartInOrder(c, d, 1)
  {
    EntityChild(schema, a);
    RecordChild(schema, b);
    PartBehind(c, d, [SchemaEl(schema)], a + 1, |schema.entities| + b + 1);
  }

  lemma EntitiesBeforeRecords(schema: Schema, i: nat, c: seq<Element>, j: nat, d: seq<Element>, a: nat, b: nat)
    requires WellFormed(schema) && Shown(schema, i, c) && Shown(schema, j, d)
    requires a < |schema.entities| && [SchemaEl(schema)] + [EntityEl(schema.entities[a])] <= c
    requires b < |schema.records| && [SchemaEl(schema)] + [RecordEl(schema.records[b])] <= d
    ensures i < j
  {
    EntityRecordPart(schema, c, d, a, b);
    EarlierShown(schema, i, c, j, d, 1);
  }

  lemma EventsPart(c: seq<Element>, d: seq<Element>, above: seq<Element>, entity: Entity, a: nat, b: nat)
    requires above != [] && Current(above) == EntityEl(entity)
    requires a < b < |entity.events| && entity.events[a] != entity.events[b]
    requires above + [EventEl(entity.events[a])] <= c && above + [EventEl(entity.events[b])] <= d
    ensures PartInOrder(c, d, |above|)
  {
    PartBehind(c, d, above, a + 1, b + 1);
  }

  /** Within an entity, its events come in the order of their declaration. */
  lemma EventsInOrder(schema: Schema, i: nat, c: seq<Element>, j: nat, d: seq<Element>, entity: Entity, a: nat, b: nat)
    requires WellFormed(schema) && Shown(schema, i, c) && Shown(schema, j, d)
    requires entity in schema.entities && a < b < |entity.events|
    requires [SchemaEl(schema), EntityEl(entity)] + [EventEl(entity.events[a])] <= c
    requires [SchemaEl(schema), EntityEl(entity)] + [EventEl(entity.events[b])] <= d
    ensures i < j
  {
    EventsPart(c, d, [SchemaEl(schema), EntityEl(entity)], entity, a, b);
    EarlierShown(schema, i, c, j, d, 2);
  }

  predicate HasFields(e: Element, fields: seq<Field>) {
    (e.EventEl? && e.event.fields == fields) || (e.RecordEl? && e.record.fields == fields)
  }

  lemma FieldChild(e: Element, fields: seq<Field>, a: nat)
    requires HasFields(e, fields) && a < |fields|
    ensures a + 1 < |Children(e)| && Children(e)[a + 1] == FieldEl(fields[a])
  {}

  lemma FieldsPart(c: seq<Element>, d: seq<Element>, owner: seq<Element>, fields: seq<Field>, a: nat, b: nat)
    requires a < b < |fields| && fields[a] != fields[b] && owner != [] && HasFields(Current(owner), fields)
    requires owner + [FieldEl(fields[a])] <= c && owner + [FieldEl(fields[b])] <= d
    ensures PartInOrder(c, d, |owner|)
  {
    FieldChild(Current(owner), fields, a);
    FieldChild(Current(owner), fields, b);
    PartBehind(c, d, owner, a + 1, b + 1);
  }

  /** Within an event or a record, its fields come in the order of their declaration. */
  lemma FieldsInOrder(schema: Schema, i: nat, c: seq<Element>, j: nat, d: seq<Element>,
                      owner: seq<Element>, fields: seq<Field>, a: nat, b: nat)
    requires WellFormed(schema) && Shown(schema, i, c) && Shown(schema, j, d) && a < b < |fields|
    requires owner != [] && UniqueFields(fields) && HasFields(Current(owner), fields)
    requires owner + [FieldEl(fields[a])] <= c && owner + [FieldEl(fields[b])] <= d
    ensures i < j
  {
    FieldsPart(c, d, owner, fields, a, b);
    EarlierShown(schema, i, c, j, d, |owner|);
  }

  lemma DataPart(c: seq<Element>, d: seq<Element>, above: seq<Element>, data: DataType, annotations: Annotations)
    requires above != [] && Current(above) == DataTypeEl(EntityRef(Some(data), annotations))
    requires above + [AnnotationsEl(annotations)] <= c && above + [DataTypeEl(data)] <= d
    ensures PartInOrder(c, d, |above|)
  {
    PartBehind(c, d, above, 0, 1);
  }

  /** The annotations of an entity reference come before the data it carries. */
  lemma AnnotationsBeforeData(schema: Schema, i: nat, c: seq<Element>, j: nat, d: seq<Element>,
                              reference: seq<Element>, data: DataType, annotations: Annotations)
    requires WellFormed(schema) && Shown(schema, i, c) && Shown(schema, j, d)
    requires reference != [] && Current(reference) == DataTypeEl(EntityRef(Some(data), annotations))
    requires reference + [AnnotationsEl(annotations)] <= c && reference + [DataTypeEl(data)] <= d
    ensures i < j
  {
    DataPart(c, d, reference, data, annotations);
    EarlierShown(schema, i, c, j, d, |reference|);
  }

  // ---- What a cursor goes through -------------------------------------------

  lemma {:induction false} DescendsToChild(t: Tree<Element>, d: seq<Element>)
    requires Documented(t) && Descends(t, d) && |d| > 1
    ensures d[|d| - 1] in Children(d[|d| - 2])
    decreases t
  {
    var k :| 0 <= k < |t.children| && Descends(t.children[k], d[1..]);
    var child, rest := t.children[k], d[1..];
    if |d| == 2 {
      assert d[1] == child.value == Children(t.value)[k] && d[0] == t.value;
    } else {
      DescendsToChild(child, rest);
      assert rest[|rest| - 1] == d[|d| - 1] && rest[|rest| - 2] == d[|d| - 2];
    }
  }

  /** Each element on a cursor is a child of the one before. */
  lemma VisitedChild(schema: Schema, c: seq<Element>)
    requires c in Visits(schema) && |c| > 1
    ensures c[..|c| - 1] in Visits(schema) && Current(c) in Children(Current(c[..|c| - 1]))
  {
    PrefixVisited(schema, c, |c| - 1);
    TrailHolds([], SchemaTree(schema), c);
    assert c[0..] == c;
    SchemaOfTree(schema);
    DescendsToChild(SchemaTree(schema), c);
  }

  lemma OwnAnnotations(e: Element, a: Annotations)
    requires AnnotationsEl(a) in Children(e)
    ensures AnnotationsOf(e) == Some(a)
  {}

  /** Annotations are shown right below the element they are of. */
  lemma AnnotationsShown(schema: Schema, c: seq<Element>)
    requires c in Visits(schema) && c != [] && Current(c).AnnotationsEl?
    ensures |c| > 1 && c[..|c| - 1] in Visits(schema)
    ensures AnnotationsOf(Current(c[..|c| - 1])) == Some(Current(c).annotations)
  {
    CursorShape(schema, c);
    VisitedChild(schema, c);
    OwnAnnotations(Current(c[..|c| - 1]), Current(c).annotations);
  }

  lemma AnnotationsAreShown(schema: Schema, c: seq<Element>)
    requires c in Visits(schema) && c != [] && AnnotationsOf(Current(c)).Some?
    ensures c + [AnnotationsEl(AnnotationsOf(Current(c)).value)] in Visits(schema)
  {
    var i :| 0 <= i < |Visits(schema)| && Visits(schema)[i] == c;
    AnnotationsFollow(schema, i);
  }

  /** Every field shown is one of an event or a record of the schema. */
  lemma FieldShown(schema: Schema, c: seq<Element>)
    requires c in Visits(schema) && c != [] && Current(c).FieldEl?
    ensures || (exists e, ev :: e in schema.entities && ev in e.events && Current(c).field in ev.fields)
            || (exists r :: r in schema.records && Current(c).field in r.fields)
  {
    CursorShape(schema, c);
    VisitedChild(schema, c);
    var above := c[..|c| - 1];
    CursorShape(schema, above);
    if Current(above).EventEl? {
      assert above[1].entity in schema.entities && Current(above).event in above[1].entity.events;
    }
  }
}
