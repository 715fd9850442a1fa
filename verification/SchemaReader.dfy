/** The records of the schemas topic and what the reader makes of each (schema_reader.py). */
module SchemaReader {
  import opened Dicts
  import opened SchemaModels
  import opened Database

  /** Key and value of a record. Every record the registry writes repeats subject and version of
      its key in its value, so they are written once; a SCHEMA record without value is a `Tombstone`. */
  datatype Record =
    | SchemaRecord(subject: Subject, version: int, id: int, schema: TypedSchema, deleted: bool)
    | Tombstone(subject: Subject, version: int)
    | DeleteSubjectRecord(subject: Subject, version: int)
    | ConfigRecord(target: Option<Subject>, mode: Option<Mode>)
    | Noop

  /** What one node keeps: the database, its `global_schema_id`, and the global compatibility mode. */
  datatype State = State(db: Db, counter: int, mode: Mode)

  // ---------------------------------------------------------------- reference resolution

  /** The schema a reference stands for, with the schemas that one needs in turn. */
  datatype Dependency = Dependency(ref: Reference, schema: TypedSchema, dependencies: seq<Dependency>)

  /** The live versions of a subject in dict order: `find_subject_schemas(include_deleted=False)`. */
  function LiveVersions(d: Dict<int, SchemaVersion>): seq<int> { LiveAmong(d.keys, d.entries) }

  function LiveAmong(keys: seq<int>, entries: map<int, SchemaVersion>): seq<int> {
    if keys == [] then []
    else LiveAmong(keys[..|keys| - 1], entries) +
         (var k := keys[|keys| - 1]; if k in entries && !entries[k].deleted then [k] else [])
  }

  function Max(s: seq<int>): int
    requires s != []
  {
    if |s| == 1 then s[0]
    else var m := Max(s[..|s| - 1]); if s[|s| - 1] > m then s[|s| - 1] else m
  }

  /** The reference itself, or the latest live version where it names the alias. */
  function Pinned(db: Db, ref: Reference): Reference {
    var live := LiveVersions(db.Versions(ref.subject));
    if ref.version == LATEST && live != [] then ref.(version := Max(live)) else ref
  }

  /** `_resolve_reference`, giving up below `depth` levels. The code has no such bound. */
  ghost function Resolve(db: Db, ref: Reference, depth: nat): Option<Dependency>
    decreases depth, 0, 0
  {
    var r := Pinned(db, ref);
    if depth == 0 || !db.Live(r.subject, r.version) then None
    else
      var schema := db.At(r.subject, r.version).schema;
      match ResolveAll(db, schema.references, depth - 1)
      case None => None
      case Some(deps) => Some(Dependency(r, schema, deps))
  }

  /** `resolve_references`: the dependencies by name, or nothing when some reference fails. */
  ghost function ResolveAll(db: Db, refs: seq<Reference>, depth: nat): Option<seq<Dependency>>
    decreases depth, 1, |refs|
  {
    if refs == [] then Some([])
    else
      match ResolveAll(db, refs[..|refs| - 1], depth)
      case None => None
      case Some(deps) =>
        match Resolve(db, refs[|refs| - 1], depth)
        case None => None
        case Some(d) => Some(PutByName(deps, d))
  }

  /** Dict assignment `dependencies[name] = d`. */
  function PutByName(deps: seq<Dependency>, d: Dependency): seq<Dependency> {
    if deps == [] then [d]
    else if deps[0].ref.name == d.ref.name then [d] + deps[1..]
    else [deps[0]] + PutByName(deps[1..], d)
  }

  ghost predicate Resolvable(db: Db, refs: seq<Reference>) {
    exists depth: nat :: ResolveAll(db, refs, depth).Some?
  }

  // ---------------------------------------------------------------- handling a record

  /** The reader raises InvalidSchema for a schema whose references it cannot resolve, and moves on. */
  ghost predicate Accepted(db: Db, r: Record) {
    r.SchemaRecord? && !r.schema.schemaType.JsonSchema? ==> Resolvable(db, r.schema.references)
  }

  /** The schema as the reader stores it: no references for JSON schema, pinned ones otherwise. */
  function Understood(db: Db, schema: TypedSchema): TypedSchema {
    if schema.schemaType.JsonSchema? then schema.(references := [])
    else schema.(references := seq(|schema.references|,
      i requires 0 <= i < |schema.references| => Pinned(db, schema.references[i])))
  }

  /** `_handle_msg_schema_hard_delete` */
  function HardDelete(db: Db, s: Subject, v: int): Db {
    if !db.Stored(s, v) then db
    else
      var popped := db.DeleteSubjectSchema(s, v);
      if popped.Versions(s).entries == map[] then popped.DropSubject(s) else popped
  }

  /** `_handle_msg_config`, as far as the database goes. */
  function Configure(db: Db, target: Option<Subject>, mode: Option<Mode>): Db {
    match target
    case None => db
    case Some(s) => db.InsertSubject(s).SetCompatibility(s, mode)
  }

  /** `handle_msg` on the database. A rejected record changes nothing. */
  ghost function Apply(db: Db, r: Record): Db {
    match r
    case SchemaRecord(s, v, id, schema, deleted) =>
      if Accepted(db, r) then db.InsertSchemaVersion(s, id, v, deleted, Understood(db, schema)) else db
    case Tombstone(s, v) => HardDelete(db, s, v)
    case DeleteSubjectRecord(s, v) => if s in db.subjects then db.DeleteSubject(s, v) else db
    case ConfigRecord(target, mode) => Configure(db, target, mode)
    case Noop => db
  }

  function GlobalMode(mode: Mode, r: Record): Mode {
    if r.ConfigRecord? && r.target.None? && r.mode.Some? then r.mode.value else mode
  }

  /** `handle_msg` on everything the reader keeps. */
  ghost function HandleMsg(st: State, r: Record): State {
    State(Apply(st.db, r),
          if r.SchemaRecord? && Accepted(st.db, r) && r.id > st.counter then r.id else st.counter,
          GlobalMode(st.mode, r))
  }

  ghost function HandleAll(st: State, rs: seq<Record>): State {
    if rs == [] then st else HandleMsg(HandleAll(st, rs[..|rs| - 1]), rs[|rs| - 1])
  }

  /** The database a reader holds after the records of `log`. */
  ghost function Replay(log: seq<Record>): Db {
    if log == [] then EMPTY else Apply(Replay(log[..|log| - 1]), log[|log| - 1])
  }

  lemma ReplaySnoc(log: seq<Record>, r: Record)
    ensures Replay(log + [r]) == Apply(Replay(log), r)
  {
    assert (log + [r])[..|log|] == log;
  }

  // ---------------------------------------------------------------- live versions and maxima

  lemma {:induction false} LiveAmongSpec(keys: seq<int>, entries: map<int, SchemaVersion>)
    ensures forall k :: k in LiveAmong(keys, entries) <==> k in keys && k in entries && !entries[k].deleted
    ensures Ascending(keys) ==> Ascending(LiveAmong(keys, entries))
  {
    if keys != [] {
      var init, k := keys[..|keys| - 1], keys[|keys| - 1];
      LiveAmongSpec(init, entries);
      assert keys == init + [k];
      if Ascending(keys) {
        assert Ascending(init);
        var a := LiveAmong(init, entries);
        forall i, j | 0 <= i < j < |LiveAmong(keys, entries)|
          ensures LiveAmong(keys, entries)[i] < LiveAmong(keys, entries)[j]
        {
          if j == |a| { assert a[i] in a && a[i] in init; }
        }
      }
    }
  }

  lemma LiveVersionsSpec(db: Db, s: Subject)
    requires db.Versions(s).Ok()
    ensures forall v :: v in LiveVersions(db.Versions(s)) <==> db.Live(s, v)
    ensures Ascending(db.Versions(s).keys) ==> Ascending(LiveVersions(db.Versions(s)))
  {
    LiveAmongSpec(db.Versions(s).keys, db.Versions(s).entries);
  }

  lemma {:induction false} MaxSpec(s: seq<int>)
    requires s != []
    ensures Max(s) in s
    ensures forall x :: x in s ==> x <= Max(s)
    ensures Ascending(s) ==> Max(s) == s[|s| - 1]
  {
    if |s| > 1 {
      MaxSpec(s[..|s| - 1]);
      assert s == s[..|s| - 1] + [s[|s| - 1]];
    }
  }
}
