/** The plain data of an application event model: entities with events, records,
    and the annotations the built-in constraints attach to them. */
module SchemaModel {
  import opened Wrappers

  type Identifier = string

  /** An absolute path; the final segment names the element. */
  datatype Path = Path(namespace: seq<Identifier>, name: Identifier)

  datatype Cardinality = Once | Multi

  datatype Transition = Transition(source: Identifier, target: Identifier)

  datatype Fsm = Fsm(initial: Identifier, transitions: seq<Transition>)

  datatype CapacityKind = Occupancy | Rate

  datatype Capacity = Capacity(kind: CapacityKind, bounded: bool)

  datatype Resource =
    | Definition(capacities: seq<(Identifier, Capacity)>)
    | Bounds(resource: Path)
    | Usage(resource: Path)

  /** A named constraint: not attached, attached without data, attached with data
      that does not decode, or attached with data that decodes to a value. */
  datatype Slot<+T> = Absent | NoData | Malformed | Payload(value: T)

  datatype Annotations = Annotations(
    refTree: bool,
    refTarget: Slot<Path>,
    fsm: Slot<Fsm>,
    resource: Slot<Resource>)

  const NO_ANNOTATIONS := Annotations(false, Absent, Absent, Absent)

  datatype ScalarKind =
    | Bool | Uuid | String | U8 | U16 | U32 | U64 | I8 | I16 | I32 | I64 | F32 | F64

  datatype DataType =
    | Scalar(kind: ScalarKind)
    | OptionType(inner: DataType)
    | ListType(inner: DataType)
    | RecordType(path: Path)
    | DynamicRecord
    | EntityRef(data: Option<DataType>, annotations: Annotations)

  datatype Field = Field(name: Identifier, ty: DataType, annotations: Annotations)

  datatype Event = Event(
    name: Identifier, cardinality: Cardinality, fields: seq<Field>, annotations: Annotations)

  datatype Entity = Entity(path: Path, events: seq<Event>, annotations: Annotations)

  datatype Record = Record(path: Path, fields: seq<Field>, annotations: Annotations)

  datatype Schema = Schema(
    name: Identifier, entities: seq<Entity>, records: seq<Record>, annotations: Annotations)

  /** A reference to any element of a schema. */
  datatype Element =
    | SchemaEl(schema: Schema)
    | AnnotationsEl(annotations: Annotations)
    | EntityEl(entity: Entity)
    | EventEl(event: Event)
    | FieldEl(field: Field)
    | RecordEl(record: Record)
    | DataTypeEl(ty: DataType)

  /** The element a cursor points at: the last on its path from the schema. */
  function Current(cursor: seq<Element>): Element
    requires cursor != []
  {
    cursor[|cursor| - 1]
  }

  // ---- Names ----------------------------------------------------------------

  ghost predicate UniqueEvents(events: seq<Event>) {
    forall i, j | 0 <= i < j < |events| :: events[i].name != events[j].name
  }

  ghost predicate UniqueFields(fields: seq<Field>) {
    forall i, j | 0 <= i < j < |fields| :: fields[i].name != fields[j].name
  }

  /** What the containers of a schema guarantee by construction: each is keyed by
      name, so no name repeats within it. */
  ghost predicate WellFormed(schema: Schema) {
    && (forall i, j | 0 <= i < j < |schema.entities| :: schema.entities[i].path != schema.entities[j].path)
    && (forall i, j | 0 <= i < j < |schema.records| :: schema.records[i].path != schema.records[j].path)
    && (forall e | e in schema.entities :: UniqueEvents(e.events))
    && (forall e, ev | e in schema.entities && ev in e.events :: UniqueFields(ev.fields))
    && (forall r | r in schema.records :: UniqueFields(r.fields))
  }

  predicate HasEntity(schema: Schema, path: Path) {
    exists e :: e in schema.entities && e.path == path
  }

  predicate HasRecord(schema: Schema, path: Path) {
    exists r :: r in schema.records && r.path == path
  }

  function EventNames(entity: Entity): set<Identifier> {
    set e | e in entity.events :: e.name
  }
}
