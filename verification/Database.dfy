/** The content of the in-memory database (in_memory_database.py) as a value, and what each
    operation makes of it. The counter `global_schema_id` is kept beside it, in `SchemaReader.State`. */
module Database {
  import opened Dicts
  import opened SchemaModels

  datatype SubjectData = SubjectData(versions: Dict<int, SchemaVersion>, compatibility: Option<Mode>)

  type Index = map<Subject, map<Fingerprint, int>>
  type Referents = map<(Subject, int), set<int>>

  datatype Db = Db(
    subjects: map<Subject, SubjectData>,
    schemas: Dict<int, TypedSchema>,
    referencedBy: Referents,
    cache: map<Fingerprint, TypedSchema>,
    index: Index)
  {
    /** The version dict of a subject; empty for an unknown subject. */
    function Versions(s: Subject): Dict<int, SchemaVersion> {
      if s in subjects then subjects[s].versions else Empty()
    }

    predicate Stored(s: Subject, v: int) { v in Versions(s).entries }

    function At(s: Subject, v: int): SchemaVersion
      requires Stored(s, v)
    {
      Versions(s).entries[v]
    }

    predicate Live(s: Subject, v: int) { Stored(s, v) && !At(s, v).deleted }

    predicate SoftDeleted(s: Subject, v: int) { Stored(s, v) && At(s, v).deleted }

    predicate HasLive(s: Subject) { exists v :: v in Versions(s).entries && Live(s, v) }

    /** `get_referenced_by`, with no entry read as an empty set. */
    function ReferencedBy(s: Subject, v: int): set<int> {
      if (s, v) in referencedBy then referencedBy[(s, v)] else {}
    }

    /** `get_schema_id_if_exists` */
    function Lookup(s: Subject, schema: TypedSchema): Option<int> {
      if s in index && schema.Fp() in index[s] then Some(index[s][schema.Fp()]) else None
    }

    /** `_get_from_hash_cache`: the schema first stored under this fingerprint wins. */
    function Cached(schema: TypedSchema): TypedSchema {
      if schema.Fp() in cache then cache[schema.Fp()] else schema
    }

    function InsertSchemaVersion(s: Subject, id: int, v: int, deleted: bool, schema: TypedSchema): Db {
      var kept := Cached(schema);
      var data := if s in subjects then subjects[s] else SubjectData(Empty(), None);
      Db(subjects[s := data.(versions := data.versions.Put(v, SchemaVersion(v, deleted, id, kept)))],
         schemas.Put(id, kept),
         if deleted then referencedBy else AddReferent(referencedBy, schema.references, id),
         cache[schema.Fp() := kept],
         if deleted then Unindex(index, s, {schema.Fp()})
         else index[s := (if s in index then index[s] else map[])[schema.Fp() := id]])
    }

    function InsertSubject(s: Subject): Db {
      if s in subjects then this else this.(subjects := subjects[s := SubjectData(Empty(), None)])
    }

    function SetCompatibility(s: Subject, mode: Option<Mode>): Db {
      if s in subjects then this.(subjects := subjects[s := subjects[s].(compatibility := mode)]) else this
    }

    /** `delete_subject`: soft-deletes up to version `v`, and drops every stored version from the index. */
    function DeleteSubject(s: Subject, v: int): Db
      requires s in subjects
    {
      var was := subjects[s].versions;
      var marked := map w | w in was.entries :: if w <= v then was.entries[w].(deleted := true) else was.entries[w];
      this.(subjects := subjects[s := subjects[s].(versions := Dict(was.keys, marked))],
            index := Unindex(index, s, set w | w in was.entries :: was.entries[w].schema.Fp()))
    }

    function DeleteSubjectSchema(s: Subject, v: int): Db
      requires s in subjects
    {
      if !Stored(s, v) then this
      else
        this.(subjects := subjects[s := subjects[s].(versions := subjects[s].versions.Pop(v))],
              referencedBy := RemoveReferent(referencedBy, At(s, v).schema.references, At(s, v).id),
              index := Unindex(index, s, {At(s, v).schema.Fp()}))
    }

    /** `delete_subject_hard` of a subject that holds no version any more. */
    function DropSubject(s: Subject): Db {
      this.(subjects := subjects - {s}, index := index - {s})
    }
  }

  const EMPTY := Db(map[], Empty(), map[], map[], map[])

  function RefKey(r: Reference): (Subject, int) { (r.subject, r.version) }

  function RefKeys(refs: seq<Reference>): set<(Subject, int)> { set r | r in refs :: RefKey(r) }

  function AddReferent(rb: Referents, refs: seq<Reference>, id: int): Referents {
    map k | k in rb.Keys + RefKeys(refs) ::
      (if k in rb then rb[k] else {}) + (if k in RefKeys(refs) then {id} else {})
  }

  function RemoveReferent(rb: Referents, refs: seq<Reference>, id: int): Referents {
    map k | k in rb :: if k in RefKeys(refs) then rb[k] - {id} else rb[k]
  }

  /** Drops fingerprints of a subject, and the subject's own entry with its last fingerprint. */
  function Unindex(index: Index, s: Subject, fps: set<Fingerprint>): Index {
    if s !in index then index
    else if index[s] - fps == map[] then index - {s}
    else index[s := index[s] - fps]
  }
}
