/** The tree of namespaces that generated code is laid out in. */
module Namespaces {
  import opened Wrappers
  import opened SchemaModel

  datatype Namespace = Namespace(
    path: seq<Identifier>, records: seq<Record>, entities: seq<Entity>, children: seq<Namespace>)

  function Empty(path: seq<Identifier>): Namespace {
    Namespace(path, [], [], [])
  }

  function LastSegment(ns: Namespace): Identifier
    requires ns.path != []
  {
    ns.path[|ns.path| - 1]
  }

  // ---- Shape ----------------------------------------------------------------

  /** Every child extends its parent's path by one segment, siblings differ in it,
      and what a node holds is declared in its namespace. */
  ghost predicate WellShaped(ns: Namespace) {
    && (forall r | r in ns.records :: r.path.namespace == ns.path)
    && (forall e | e in ns.entities :: e.path.namespace == ns.path)
    && (forall c | c in ns.children :: |c.path| == |ns.path| + 1 && ns.path < c.path && WellShaped(c))
    && (forall i, j | 0 <= i < j < |ns.children| :: ns.children[i].path != ns.children[j].path)
  }

  /** The child for `segment`, or the number of children if there is none. */
  function Position(children: seq<Namespace>, segment: Identifier): (i: nat)
    ensures i <= |children|
    ensures i < |children| ==> children[i].path != [] && LastSegment(children[i]) == segment
    ensures forall k | 0 <= k < i :: !(children[k].path != [] && LastSegment(children[k]) == segment)
  {
    if children == [] || (children[0].path != [] && LastSegment(children[0]) == segment) then 0
    else
      var i := Position(children[1..], segment);
      assert forall k | 1 <= k < i + 1 :: children[k] == children[1..][k - 1];
      i + 1
  }

  // ---- Insertion ------------------------------------------------------------

  datatype Item = RecordItem(record: Record) | EntityItem(entity: Entity)

  function NamespaceOf(item: Item): seq<Identifier> {
    match item
    case RecordItem(r) => r.path.namespace
    case EntityItem(e) => e.path.namespace
  }

  function Put(ns: Namespace, item: Item): Namespace {
    match item
    case RecordItem(r) => ns.(records := ns.records + [r])
    case EntityItem(e) => ns.(entities := ns.entities + [e])
  }

  /** Puts `item` at the end of `path` below `ns`, growing the tree where needed. */
  function Insert(ns: Namespace, path: seq<Identifier>, item: Item): Namespace
    decreases |path|
  {
    if path == [] then Put(ns, item)
    else
      var i := Position(ns.children, path[0]);
      if i < |ns.children| then
        ns.(children := ns.children[i := Insert(ns.children[i], path[1..], item)])
      else
        ns.(children := ns.children + [Insert(Empty(ns.path + [path[0]]), path[1..], item)])
  }

  /** The node at the end of `path`, if the tree has grown that far. */
  function At(ns: Namespace, path: seq<Identifier>): Option<Namespace>
    decreases |path|
  {
    if path == [] then Some(ns)
    else
      var i := Position(ns.children, path[0]);
      if i < |ns.children| then At(ns.children[i], path[1..]) else None
  }

  lemma ReplacedKeepsShape(ns: Namespace, i: nat, child: Namespace)
    requires WellShaped(ns) && i < |ns.children| && WellShaped(child) && child.path == ns.children[i].path
    ensures WellShaped(ns.(children := ns.children[i := child]))
  {
    var grown := ns.children[i := child];
    assert ns.children[i] in ns.children;
    forall c | c in grown ensures |c.path| == |ns.path| + 1 && ns.path < c.path && WellShaped(c) {
      var k :| 0 <= k < |grown| && grown[k] == c;
      assert k != i ==> ns.children[k] in ns.children;
    }
  }

  lemma GrownKeepsShape(ns: Namespace, segment: Identifier, child: Namespace)
    requires WellShaped(ns) && WellShaped(child) && child.path == ns.path + [segment]
    requires Position(ns.children, segment) == |ns.children|
    ensures WellShaped(ns.(children := ns.children + [child]))
  {
    forall k | 0 <= k < |ns.children| ensures ns.children[k].path != child.path {
      assert ns.children[k] in ns.children;
    }
    GrownDistinct(ns.children, child);
  }

  lemma GrownDistinct(children: seq<Namespace>, child: Namespace)
    requires forall i, j | 0 <= i < j < |children| :: children[i].path != children[j].path
    requires forall k | 0 <= k < |children| :: children[k].path != child.path
    ensures var grown := children + [child];
            && (forall i, j | 0 <= i < j < |grown| :: grown[i].path != grown[j].path)
            && forall c :: c in grown <==> c in children || c == child
  {}

  lemma {:induction false} InsertKeepsShape(ns: Namespace, path: seq<Identifier>, item: Item)
    requires WellShaped(ns) && NamespaceOf(item) == ns.path + path
    ensures WellShaped(Insert(ns, path, item)) && Insert(ns, path, item).path == ns.path
    decreases |path|
  {
    if path != [] {
      var i := Position(ns.children, path[0]);
      if i < |ns.children| {
        var c := ns.children[i];
        assert c in ns.children;
        assert c.path == ns.path + [path[0]];
        assert c.path + path[1..] == ns.path + path;
        InsertKeepsShape(c, path[1..], item);
        ReplacedKeepsShape(ns, i, Insert(c, path[1..], item));
      } else {
        var c := Empty(ns.path + [path[0]]);
        assert c.path + path[1..] == ns.path + path;
        InsertKeepsShape(c, path[1..], item);
        GrownKeepsShape(ns, path[0], Insert(c, path[1..], item));
      }
    } else {
      assert ns.path + [] == ns.path;
    }
  }

  /** What the node at `path` holds, if anything does. */
  function EntitiesAt(ns: Namespace, path: seq<Identifier>): seq<Entity> {
    var node := At(ns, path);
    if node.Some? then node.value.entities else []
  }

  function RecordsAt(ns: Namespace, path: seq<Identifier>): seq<Record> {
    var node := At(ns, path);
    if node.Some? then node.value.records else []
  }

  /** The child for a segment, or the empty namespace that would be grown for it. */
  function ChildFor(ns: Namespace, segment: Identifier): Namespace {
    var i := Position(ns.children, segment);
    if i < |ns.children| then ns.children[i] else Empty(ns.path + [segment])
  }

  /** What lies below a node lies below its child for the first segment. */
  lemma HeldByChild(ns: Namespace, path: seq<Identifier>)
    requires path != []
    ensures EntitiesAt(ns, path) == EntitiesAt(ChildFor(ns, path[0]), path[1..])
    ensures RecordsAt(ns, path) == RecordsAt(ChildFor(ns, path[0]), path[1..])
  {
    EmptyHoldsNothing(ns.path + [path[0]], path[1..]);
  }

  lemma EmptyHoldsNothing(path: seq<Identifier>, other: seq<Identifier>)
    ensures EntitiesAt(Empty(path), other) == [] && RecordsAt(Empty(path), other) == []
  {}

  /** Inserting changes the child for the first segment and no other. */
  lemma InsertedChild(ns: Namespace, path: seq<Identifier>, item: Item, segment: Identifier)
    requires path != []
    ensures ChildFor(Insert(ns, path, item), segment) ==
            if segment == path[0] then Insert(ChildFor(ns, segment), path[1..], item) else ChildFor(ns, segment)
  {
    var p, child := Position(ns.children, path[0]), Insert(ChildFor(ns, path[0]), path[1..], item);
    InsertKeepsPath(ChildFor(ns, path[0]), path[1..], item);
    if p < |ns.children| {
      PositionReplaced(ns.children, p, child, segment);
    } else {
      PositionAppended(ns.children, child, segment);
    }
  }

  lemma PositionReplaced(children: seq<Namespace>, i: nat, child: Namespace, segment: Identifier)
    requires i < |children| && child.path == children[i].path
    ensures Position(children[i := child], segment) == Position(children, segment)
  {
    PositionUnique(children[i := child], segment, Position(children[i := child], segment), Position(children, segment));
  }

  lemma PositionAppended(children: seq<Namespace>, child: Namespace, segment: Identifier)
    requires child.path != []
    ensures var i := Position(children, segment);
            Position(children + [child], segment) ==
            if i < |children| || LastSegment(child) == segment then i else i + 1
  {
    var i := Position(children, segment);
    var j := if i < |children| || LastSegment(child) == segment then i else i + 1;
    PositionUnique(children + [child], segment, Position(children + [child], segment), j);
  }

  /** Inserting changes the node at the given path and no other. */
  lemma {:induction false} InsertAt(ns: Namespace, path: seq<Identifier>, item: Item, other: seq<Identifier>)
    ensures EntitiesAt(Insert(ns, path, item), other) ==
            if other == path && item.EntityItem? then EntitiesAt(ns, other) + [item.entity] else EntitiesAt(ns, other)
    ensures RecordsAt(Insert(ns, path, item), other) ==
            if other == path && item.RecordItem? then RecordsAt(ns, other) + [item.record] else RecordsAt(ns, other)
    decreases |path|
  {
    if path != [] && other != [] {
      HeldByChild(ns, other);
      HeldByChild(Insert(ns, path, item), other);
      InsertedChild(ns, path, item, other[0]);
      if other[0] == path[0] {
        InsertAt(ChildFor(ns, other[0]), path[1..], item, other[1..]);
        assert path == [path[0]] + path[1..] && other == [other[0]] + other[1..];
      }
    }
  }

  lemma {:induction false} InsertKeepsPath(ns: Namespace, path: seq<Identifier>, item: Item)
    ensures Insert(ns, path, item).path == ns.path
  {}

  /** The first match is where nothing before it matches and it does, or the end. */
  lemma PositionUnique(children: seq<Namespace>, segment: Identifier, i: nat, j: nat)
    requires i == Position(children, segment) && j <= |children|
    requires j < |children| ==> children[j].path != [] && LastSegment(children[j]) == segment
    requires forall k | 0 <= k < j :: !(children[k].path != [] && LastSegment(children[k]) == segment)
    ensures i == j
  {}

  // ---- The whole tree -------------------------------------------------------

  function InsertRecords(ns: Namespace, records: seq<Record>): Namespace {
    if records == [] then ns
    else
      var last := records[|records| - 1];
      Insert(InsertRecords(ns, records[..|records| - 1]), last.path.namespace, RecordItem(last))
  }

  function InsertEntities(ns: Namespace, entities: seq<Entity>): Namespace {
    if entities == [] then ns
    else
      var last := entities[|entities| - 1];
      Insert(InsertEntities(ns, entities[..|entities| - 1]), last.path.namespace, EntityItem(last))
  }

  function EntitiesIn(entities: seq<Entity>, path: seq<Identifier>): seq<Entity> {
    if entities == [] then []
    else
      var last, rest := entities[|entities| - 1], EntitiesIn(entities[..|entities| - 1], path);
      if last.path.namespace == path then rest + [last] else rest
  }

  function RecordsIn(records: seq<Record>, path: seq<Identifier>): seq<Record> {
    if records == [] then []
    else
      var last, rest := records[|records| - 1], RecordsIn(records[..|records| - 1], path);
      if last.path.namespace == path then rest + [last] else rest
  }

  /** The entities of a namespace are those of the schema declared in it, as often and
      in the order in which the schema declares them. */
  lemma {:induction false} EntitiesInSpec(entities: seq<Entity>, path: seq<Identifier>, e: Entity)
    ensures multiset(EntitiesIn(entities, path))[e] == if e.path.namespace == path then multiset(entities)[e] else 0
  {
    if entities != [] {
      var last, rest := entities[|entities| - 1], entities[..|entities| - 1];
      EntitiesInSpec(rest, path, e);
      assert entities == rest + [last];
    }
  }

  lemma {:induction false} EntitiesInOrder(entities: seq<Entity>, path: seq<Identifier>, i: nat, j: nat)
    returns (a: nat, b: nat)
    requires i < j < |EntitiesIn(entities, path)|
    ensures a < b < |entities|
    ensures entities[a] == EntitiesIn(entities, path)[i] && entities[b] == EntitiesIn(entities, path)[j]
  {
    var n := |entities| - 1;
    var rest := EntitiesIn(entities[..n], path);
    if j < |rest| {
      a, b := EntitiesInOrder(entities[..n], path, i, j);
    } else {
      EntitiesInSpec(entities[..n], path, rest[i]);
      assert rest[i] in multiset(rest) && rest[i] in multiset(entities[..n]);
      a :| 0 <= a < n && entities[..n][a] == rest[i];
      b := n;
    }
  }

  lemma {:induction false} RecordsInSpec(records: seq<Record>, path: seq<Identifier>, r: Record)
    ensures multiset(RecordsIn(records, path))[r] == if r.path.namespace == path then multiset(records)[r] else 0
  {
    if records != [] {
      var last, rest := records[|records| - 1], records[..|records| - 1];
      RecordsInSpec(rest, path, r);
      assert records == rest + [last];
    }
  }

  lemma {:induction false} RecordsInOrder(records: seq<Record>, path: seq<Identifier>, i: nat, j: nat)
    returns (a: nat, b: nat)
    requires i < j < |RecordsIn(records, path)|
    ensures a < b < |records|
    ensures records[a] == RecordsIn(records, path)[i] && records[b] == RecordsIn(records, path)[j]
  {
    var n := |records| - 1;
    var rest := RecordsIn(records[..n], path);
    if j < |rest| {
      a, b := RecordsInOrder(records[..n], path, i, j);
    } else {
      RecordsInSpec(records[..n], path, rest[i]);
      assert rest[i] in multiset(rest) && rest[i] in multiset(records[..n]);
      a :| 0 <= a < n && records[..n][a] == rest[i];
      b := n;
    }
  }

  lemma {:induction false} RecordsPlaced(records: seq<Record>, path: seq<Identifier>)
    ensures var ns := InsertRecords(Empty([]), records);
            && WellShaped(ns) && ns.path == []
            && RecordsAt(ns, path) == RecordsIn(records, path) && EntitiesAt(ns, path) == []
  {
    if records == [] {
      EmptyHoldsNothing([], path);
    } else {
      var rest, last := records[..|records| - 1], records[|records| - 1];
      RecordsPlaced(rest, path);
      var ns := InsertRecords(Empty([]), rest);
      assert [] + last.path.namespace == last.path.namespace;
      InsertKeepsShape(ns, last.path.namespace, RecordItem(last));
      InsertAt(ns, last.path.namespace, RecordItem(last), path);
    }
  }

  lemma {:induction false} EntitiesPlaced(ns: Namespace, entities: seq<Entity>, path: seq<Identifier>)
    requires WellShaped(ns) && ns.path == []
    ensures var grown := InsertEntities(ns, entities);
            && WellShaped(grown) && grown.path == []
            && RecordsAt(grown, path) == RecordsAt(ns, path)
            && EntitiesAt(grown, path) == EntitiesAt(ns, path) + EntitiesIn(entities, path)
  {
    if entities != [] {
      var rest, last := entities[..|entities| - 1], entities[|entities| - 1];
      EntitiesPlaced(ns, rest, path);
      var grown := InsertEntities(ns, rest);
      assert [] + last.path.namespace == last.path.namespace;
      InsertKeepsShape(grown, last.path.namespace, EntityItem(last));
      InsertAt(grown, last.path.namespace, EntityItem(last), path);
      if last.path.namespace == path {
        assert EntitiesAt(grown, path) + [last] == EntitiesAt(ns, path) + (EntitiesIn(rest, path) + [last]);
      }
    }
  }

  /** Lays out a schema: every record and entity sits at the node of its namespace,
      once and in schema order, and nowhere else. */
  method Root(schema: Schema) returns (root: Namespace)
    ensures WellShaped(root) && root.path == []
    ensures forall path :: RecordsAt(root, path) == RecordsIn(schema.records, path)
    ensures forall path :: EntitiesAt(root, path) == EntitiesIn(schema.entities, path)
    ensures multiset(AllEntities(root)) == multiset(schema.entities)
  {
    root := Empty([]);
    for i := 0 to |schema.records|
      invariant root == InsertRecords(Empty([]), schema.records[..i])
    {
      root := Insert(root, schema.records[i].path.namespace, RecordItem(schema.records[i]));
      assert schema.records[..i + 1][..i] == schema.records[..i];
    }
    assert schema.records[..|schema.records|] == schema.records;
    ghost var planted := root;
    for i := 0 to |schema.entities|
      invariant root == InsertEntities(planted, schema.entities[..i])
    {
      root := Insert(root, schema.entities[i].path.namespace, EntityItem(schema.entities[i]));
      assert schema.entities[..i + 1][..i] == schema.entities[..i];
    }
    assert schema.entities[..|schema.entities|] == schema.entities;
    RecordsPlaced(schema.records, []);
    EntitiesPlaced(planted, schema.entities, []);
    forall path
      ensures RecordsAt(root, path) == RecordsIn(schema.records, path)
      ensures EntitiesAt(root, path) == EntitiesIn(schema.entities, path)
    {
      RecordsPlaced(schema.records, path);
      EntitiesPlaced(planted, schema.entities, path);
    }
    forall e ensures multiset(AllEntities(root))[e] == multiset(schema.entities)[e] {
      RecordsAddNoEntities(schema.records, e);
      AllEntitiesInserted(planted, schema.entities, e);
      assert Occurrences(root, e) == multiset(schema.entities)[e];
    }
  }

  // ---- Collecting -----------------------------------------------------------

  /** The entities of a namespace and of everything below it. */
  function AllEntities(ns: Namespace): seq<Entity>
    decreases ns, 1
  {
    ns.entities + AllEntitiesOf(ns.children)
  }

  function AllEntitiesOf(children: seq<Namespace>): seq<Entity>
    decreases children, 0
  {
    if children == [] then [] else AllEntities(children[0]) + AllEntitiesOf(children[1..])
  }

  method CollectEntities(ns: Namespace) returns (entities: seq<Entity>)
    ensures entities == AllEntities(ns)
    decreases ns
  {
    entities := ns.entities;
    for i := 0 to |ns.children|
      invariant entities == ns.entities + AllEntitiesOf(ns.children[..i])
    {
      assert ns.children[..i + 1] == ns.children[..i] + [ns.children[i]];
      AllEntitiesSnoc(ns.children[..i], ns.children[i]);
      var more := CollectEntities(ns.children[i]);
      entities := entities + more;
    }
    assert ns.children[..|ns.children|] == ns.children;
  }

  lemma AllEntitiesSnoc(children: seq<Namespace>, c: Namespace)
    ensures AllEntitiesOf(children + [c]) == AllEntitiesOf(children) + AllEntities(c)
  {
    AllEntitiesConcat(children, [c]);
    assert AllEntitiesOf([c][1..]) == [];
    assert AllEntitiesOf([c]) == AllEntities(c);
  }

  /** A namespace's own entities come first, then those of each child in turn. */
  lemma EntitiesLaidOut(ns: Namespace, k: nat)
    requires k < |ns.children|
    ensures ns.entities <= AllEntities(ns)
    ensures AllEntities(ns) == ns.entities + AllEntitiesOf(ns.children[..k])
                               + AllEntities(ns.children[k]) + AllEntitiesOf(ns.children[k + 1..])
    ensures AllEntitiesOf([]) == [] && AllEntities(Namespace(ns.path, ns.records, ns.entities, [])) == ns.entities
  {
    var before, c, after := ns.children[..k], ns.children[k], ns.children[k + 1..];
    assert ns.children == before + [c] + after;
    AllEntitiesConcat(before + [c], after);
    AllEntitiesSnoc(before, c);
  }

  /** How often `e` occurs in and below a namespace. */
  ghost function Occurrences(ns: Namespace, e: Entity): nat {
    multiset(AllEntities(ns))[e]
  }

  ghost function OccurrencesOf(children: seq<Namespace>, e: Entity): nat {
    multiset(AllEntitiesOf(children))[e]
  }

  lemma OccurrencesSplit(ns: Namespace, e: Entity)
    ensures Occurrences(ns, e) == multiset(ns.entities)[e] + OccurrencesOf(ns.children, e)
  {}

  lemma OccurrencesOfOne(c: Namespace, e: Entity)
    ensures OccurrencesOf([c], e) == Occurrences(c, e)
  {
    assert AllEntitiesOf([c][1..]) == [];
    assert AllEntitiesOf([c]) == AllEntities(c);
  }

  lemma Associates<T>(a: seq<T>, b: seq<T>, c: seq<T>)
    ensures (a + b) + c == a + (b + c)
  {}

  lemma {:induction false} AllEntitiesConcat(a: seq<Namespace>, b: seq<Namespace>)
    ensures AllEntitiesOf(a + b) == AllEntitiesOf(a) + AllEntitiesOf(b)
  {
    if a == [] {
      assert a + b == b;
    } else {
      assert (a + b)[1..] == a[1..] + b;
      AllEntitiesConcat(a[1..], b);
      Associates(AllEntities(a[0]), AllEntitiesOf(a[1..]), AllEntitiesOf(b));
    }
  }

  lemma OccurrencesAppend(children: seq<Namespace>, c: Namespace, e: Entity)
    ensures OccurrencesOf(children + [c], e) == OccurrencesOf(children, e) + Occurrences(c, e)
  {
    AllEntitiesConcat(children, [c]);
    OccurrencesOfOne(c, e);
  }

  lemma OccurrencesAround(before: seq<Namespace>, c: Namespace, after: seq<Namespace>, e: Entity)
    ensures OccurrencesOf(before + [c] + after, e) ==
            OccurrencesOf(before, e) + Occurrences(c, e) + OccurrencesOf(after, e)
  {
    AllEntitiesConcat(before + [c], after);
    OccurrencesAppend(before, c, e);
  }

  lemma OccurrencesUpdate(children: seq<Namespace>, i: nat, c: Namespace, e: Entity)
    requires i < |children|
    ensures OccurrencesOf(children[i := c], e) + Occurrences(children[i], e) ==
            OccurrencesOf(children, e) + Occurrences(c, e)
  {
    OccurrencesAround(children[..i], children[i], children[i + 1..], e);
    OccurrencesAround(children[..i], c, children[i + 1..], e);
    assert children == children[..i] + [children[i]] + children[i + 1..];
    assert children[i := c] == children[..i] + [c] + children[i + 1..];
  }

  function Added(item: Item, e: Entity): nat {
    if item == EntityItem(e) then 1 else 0
  }

  lemma {:induction false} InsertAddsOne(ns: Namespace, path: seq<Identifier>, item: Item, e: Entity)
    ensures Occurrences(Insert(ns, path, item), e) == Occurrences(ns, e) + Added(item, e)
    decreases |path|
  {
    OccurrencesSplit(ns, e);
    OccurrencesSplit(Insert(ns, path, item), e);
    if path != [] {
      var i := Position(ns.children, path[0]);
      if i < |ns.children| {
        InsertAddsOne(ns.children[i], path[1..], item, e);
        OccurrencesUpdate(ns.children, i, Insert(ns.children[i], path[1..], item), e);
      } else {
        var c := Empty(ns.path + [path[0]]);
        InsertAddsOne(c, path[1..], item, e);
        OccurrencesAppend(ns.children, Insert(c, path[1..], item), e);
        OccurrencesSplit(c, e);
      }
    }
  }

  lemma {:induction false} RecordsAddNoEntities(records: seq<Record>, e: Entity)
    ensures Occurrences(InsertRecords(Empty([]), records), e) == 0
  {
    if records != [] {
      var rest, last := records[..|records| - 1], records[|records| - 1];
      RecordsAddNoEntities(rest, e);
      InsertAddsOne(InsertRecords(Empty([]), rest), last.path.namespace, RecordItem(last), e);
    }
  }

  lemma {:induction false} AllEntitiesInserted(ns: Namespace, entities: seq<Entity>, e: Entity)
    ensures Occurrences(InsertEntities(ns, entities), e) == Occurrences(ns, e) + multiset(entities)[e]
  {
    if entities != [] {
      var rest, last := entities[..|entities| - 1], entities[|entities| - 1];
      assert rest + [last] == entities;
      AllEntitiesInserted(ns, rest, e);
      LastInserted(ns, rest, last, e);
      CountedSnoc(rest, last, e);
    }
  }

  lemma LastInserted(ns: Namespace, entities: seq<Entity>, last: Entity, e: Entity)
    ensures Occurrences(InsertEntities(ns, entities + [last]), e) ==
            Occurrences(InsertEntities(ns, entities), e) + Added(EntityItem(last), e)
  {
    assert (entities + [last])[..|entities|] == entities;
    InsertAddsOne(InsertEntities(ns, entities), last.path.namespace, EntityItem(last), e);
  }

  lemma CountedSnoc(entities: seq<Entity>, last: Entity, e: Entity)
    ensures multiset(entities + [last])[e] == multiset(entities)[e] + Added(EntityItem(last), e)
  {}

  predicate HasEntities(ns: Namespace) {
    ns.entities != [] || exists c :: c in ns.children && HasEntities(c)
  }

  lemma {:induction false} HasEntitiesIff(ns: Namespace)
    ensures HasEntities(ns) <==> AllEntities(ns) != []
    decreases ns, 1
  {
    HasEntitiesOf(ns.children);
  }

  lemma {:induction false} HasEntitiesOf(children: seq<Namespace>)
    ensures (exists c :: c in children && HasEntities(c)) <==> AllEntitiesOf(children) != []
    decreases children, 0
  {
    if children != [] {
      HasEntitiesIff(children[0]);
      HasEntitiesOf(children[1..]);
      assert forall c :: c in children <==> c == children[0] || c in children[1..];
    }
  }
}
