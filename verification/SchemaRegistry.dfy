/** The write and delete operations of the acting master (schema_registry.py): what each answers
    and which records it sends. */
module SchemaRegistry {
  import opened SchemaModels
  import opened Database
  import opened SchemaReader

  datatype Request =
    | Register(subject: Subject, schema: TypedSchema)
    | DeleteVersion(subject: Subject, version: int, permanent: bool)
    | DeleteSubject(subject: Subject, permanent: bool)
    | Configure(target: Option<Subject>, mode: Option<Mode>)

  datatype Error =
    | InvalidReferences
    | IncompatibleSchema
    | SubjectNotFound
    | SchemasNotFound
    | VersionNotFound
    | NoLiveVersion
    | VersionSoftDeleted
    | VersionNotSoftDeleted
    | SubjectSoftDeleted
    | SubjectNotSoftDeleted
    | ReferenceExists(referents: set<int>, version: int)
    | SendTimedOut

  datatype Reply = Registered(id: int) | Deleted(versions: seq<int>) | Done | Failed(error: Error)

  /** An operation under the lock: the new `global_schema_id`, its answer, and the records it puts on the topic. */
  datatype Plan = Plan(counter: int, reply: Reply, records: seq<Record>)

  /** Sending one record. A reader that refuses it does not raise the offset watcher for it, so the send times out; the
      record stays on the topic. Only schema records can be refused. */
  ghost function Sending(db: Db, counter: int, reply: Reply, r: Record): Plan {
    Plan(counter, if Accepted(db, r) then reply else Failed(SendTimedOut), [r])
  }

  /** References as the API hands them over: resolved to a version, and none for JSON schema. */
  predicate Settled(schema: TypedSchema) {
    && (forall i :: 0 <= i < |schema.references| ==> schema.references[i].version != LATEST)
    && (schema.schemaType.JsonSchema? ==> schema.references == [])
  }

  /** `_get_schema_id_from_storage`: the first id, in insertion order, that stores an equal schema. */
  function FindId(keys: seq<int>, entries: map<int, TypedSchema>, schema: TypedSchema): Option<int> {
    if keys == [] then None
    else if keys[0] in entries && entries[keys[0]] == schema then Some(keys[0])
    else FindId(keys[1..], entries, schema)
  }

  /** `get_schema_id`: the id, and the counter after the call. */
  function SchemaIdFor(st: State, schema: TypedSchema): (int, int) {
    match FindId(st.db.schemas.keys, st.db.schemas.entries, schema)
    case Some(id) => (id, st.counter)
    case None => (st.counter + 1, st.counter + 1)
  }

  function ModeFor(st: State, s: Subject): Mode {
    if s in st.db.subjects && st.db.subjects[s].compatibility.Some?
    then st.db.subjects[s].compatibility.value else st.mode
  }

  function Insert(x: int, s: seq<int>): seq<int> {
    if s == [] || x <= s[0] then [x] + s else [s[0]] + Insert(x, s[1..])
  }

  function Sorted(s: seq<int>): seq<int> {
    if s == [] then [] else Insert(s[0], Sorted(s[1..]))
  }

  /** The versions a new schema is checked against: all live ones for a transitive mode, else the latest. */
  function CheckedVersions(db: Db, mode: Mode, s: Subject): seq<int> {
    var live := Sorted(LiveVersions(db.Versions(s)));
    if live == [] || mode.IsTransitive() then live else [live[|live| - 1]]
  }

  /** `check_schema_compatibility`: the first obstacle among the versions checked. */
  ghost function Obstacle(canRead: CanRead, db: Db, mode: Mode, s: Subject, versions: seq<int>,
                          schema: TypedSchema): Option<Error> {
    if versions == [] then None
    else if !db.Stored(s, versions[0]) then Obstacle(canRead, db, mode, s, versions[1..], schema)
    else
      var first := db.At(s, versions[0]).schema;
      if !Resolvable(db, first.references) then Some(InvalidReferences)
      else if !Compatible(canRead, mode, first, schema) then Some(IncompatibleSchema)
      else Obstacle(canRead, db, mode, s, versions[1..], schema)
  }

  /** `write_new_schema_local` */
  ghost function PlanRegister(canRead: CanRead, st: State, s: Subject, schema: TypedSchema): Plan {
    var versions := st.db.Versions(s);
    if !Settled(schema) then Plan(st.counter, Failed(InvalidReferences), [])
    else if st.db.Lookup(s, schema).Some? then Plan(st.counter, Registered(st.db.Lookup(s, schema).value), [])
    else
      var version := if versions.keys == [] then 1 else Max(versions.keys) + 1;
      var mode := ModeFor(st, s);
      var obstacle := Obstacle(canRead, st.db, mode, s, CheckedVersions(st.db, mode, s), schema);
      if obstacle.Some? then Plan(st.counter, Failed(obstacle.value), [])
      else
        var (id, counter) := SchemaIdFor(st, schema);
        Sending(st.db, counter, Registered(id), SchemaRecord(s, version, id, schema, false))
  }

  /** `subject_version_delete_local` */
  ghost function PlanDeleteVersion(st: State, s: Subject, version: int, permanent: bool): Plan {
    var db, versions := st.db, st.db.Versions(s);
    var candidates := if !permanent && version == LATEST then LiveVersions(versions) else versions.keys;
    if s !in db.subjects then Plan(st.counter, Failed(SubjectNotFound), [])
    else if versions.keys == [] then Plan(st.counter, Failed(SchemasNotFound), [])
    else if candidates == [] then Plan(st.counter, Failed(NoLiveVersion), [])
    else
      var v := if version == LATEST then Max(candidates) else version;
      if !db.Stored(s, v) then Plan(st.counter, Failed(VersionNotFound), [])
      else
        var entry := db.At(s, v);
        if entry.deleted && !permanent then Plan(st.counter, Failed(VersionSoftDeleted), [])
        else if permanent && !entry.deleted then Plan(st.counter, Failed(VersionNotSoftDeleted), [])
        else if db.ReferencedBy(s, v) != {} then Plan(st.counter, Failed(ReferenceExists(db.ReferencedBy(s, v), v)), [])
        else
          Sending(db, st.counter, Deleted([v]),
                  if permanent then Tombstone(s, v) else SchemaRecord(s, v, entry.id, entry.schema, true))
  }

  /** The first version, in dict order, that something references. */
  function FirstReferenced(db: Db, s: Subject, keys: seq<int>): Option<int> {
    if keys == [] then None
    else if db.ReferencedBy(s, keys[0]) != {} then Some(keys[0])
    else FirstReferenced(db, s, keys[1..])
  }

  function Tombstones(s: Subject, keys: seq<int>): seq<Record> {
    seq(|keys|, i requires 0 <= i < |keys| => Tombstone(s, keys[i]))
  }

  /** `subject_delete_local` */
  function PlanDeleteSubject(st: State, s: Subject, permanent: bool): Plan {
    var db, versions := st.db, st.db.Versions(s);
    var live := LiveVersions(versions);
    if s !in db.subjects then Plan(st.counter, Failed(SubjectNotFound), [])
    else if versions.keys == [] then Plan(st.counter, Failed(SchemasNotFound), [])
    else if permanent && live != [] then Plan(st.counter, Failed(SubjectNotSoftDeleted), [])
    else if !permanent && live == [] then Plan(st.counter, Failed(SubjectSoftDeleted), [])
    else if permanent then
      match FirstReferenced(db, s, versions.keys)
      case Some(v) => Plan(st.counter, Failed(ReferenceExists(db.ReferencedBy(s, v), v)), [])
      case None => Plan(st.counter, Deleted(versions.keys), Tombstones(s, versions.keys))
    else
      var latest := live[|live| - 1];
      if db.ReferencedBy(s, latest) != {} then
        Plan(st.counter, Failed(ReferenceExists(db.ReferencedBy(s, latest), latest)), [])
      else Plan(st.counter, Deleted(live), [DeleteSubjectRecord(s, latest)])
  }

  ghost function PlanOf(canRead: CanRead, st: State, request: Request): Plan {
    match request
    case Register(s, schema) => PlanRegister(canRead, st, s, schema)
    case DeleteVersion(s, v, permanent) => PlanDeleteVersion(st, s, v, permanent)
    case DeleteSubject(s, permanent) => PlanDeleteSubject(st, s, permanent)
    case Configure(target, mode) => Plan(st.counter, Done, [ConfigRecord(target, mode)])
  }

  // ---------------------------------------------------------------- runs

  /** One registry: what it keeps in memory, and everything it has written to the topic. */
  datatype World = World(st: State, log: seq<Record>)

  /** One operation: it decides, sends its records, and its own reader handles each of them. */
  ghost function Exec(canRead: CanRead, w: World, request: Request): World {
    var plan := PlanOf(canRead, w.st, request);
    World(HandleAll(w.st.(counter := plan.counter), plan.records), w.log + plan.records)
  }

  /** A whole run from an empty topic, `mode` being the configured global compatibility. */
  ghost function Run(canRead: CanRead, mode: Mode, requests: seq<Request>): World {
    if requests == [] then World(State(EMPTY, 0, mode), [])
    else Exec(canRead, Run(canRead, mode, requests[..|requests| - 1]), requests[|requests| - 1])
  }
}
