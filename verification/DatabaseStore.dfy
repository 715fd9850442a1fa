/** The database object: dictionaries changed entry by entry, each method against the value in `Database`. */
module DatabaseStore {
  import opened Dicts
  import opened SchemaModels
  import opened Database
  import opened SchemaReader
  import opened SchemaRegistry

  // ---------------------------------------------------------------- one entry at a time

  lemma RefKeysSnoc(refs: seq<Reference>)
    requires refs != []
    ensures RefKeys(refs) == RefKeys(refs[..|refs| - 1]) + {RefKey(refs[|refs| - 1])}
  {
    var init, last := refs[..|refs| - 1], refs[|refs| - 1];
    assert refs == init + [last];
    forall k | k in RefKeys(refs) ensures k in RefKeys(init) || k == RefKey(last) {
      var r :| r in refs && k == RefKey(r);
      assert r in init || r == last;
    }
    assert forall r :: r in init ==> r in refs;
  }

  lemma AddReferentSnoc(rb: Referents, refs: seq<Reference>, id: int)
    requires refs != []
    ensures var last := RefKey(refs[|refs| - 1]);
            var before := AddReferent(rb, refs[..|refs| - 1], id);
            AddReferent(rb, refs, id) == before[last := (if last in before then before[last] else {}) + {id}]
  {
    RefKeysSnoc(refs);
    var last := RefKey(refs[|refs| - 1]);
    var before, after := AddReferent(rb, refs[..|refs| - 1], id), AddReferent(rb, refs, id);
    var updated := before[last := (if last in before then before[last] else {}) + {id}];
    assert after.Keys == updated.Keys;
    assert forall k :: k in after ==> after[k] == updated[k];
  }

  lemma AddNothing(rb: Referents, id: int)
    ensures AddReferent(rb, [], id) == rb
  {
    var after := AddReferent(rb, [], id);
    assert after.Keys == rb.Keys;
    assert forall k :: k in rb ==> after[k] == rb[k] + {} == rb[k];
  }

  lemma RemoveReferentSnoc(rb: Referents, refs: seq<Reference>, id: int)
    requires refs != []
    ensures var last := RefKey(refs[|refs| - 1]);
            var before := RemoveReferent(rb, refs[..|refs| - 1], id);
            RemoveReferent(rb, refs, id) == if last in before then before[last := before[last] - {id}] else before
  {
    RefKeysSnoc(refs);
    var last := RefKey(refs[|refs| - 1]);
    var before, after := RemoveReferent(rb, refs[..|refs| - 1], id), RemoveReferent(rb, refs, id);
    var updated := if last in before then before[last := before[last] - {id}] else before;
    assert after.Keys == updated.Keys;
    assert forall k :: k in after ==> after[k] == updated[k];
  }

  /** No subject keeps an empty fingerprint table. */
  ghost predicate Filled(index: Index) { forall s :: s in index ==> index[s] != map[] }

  ghost predicate VersionsOk(subjects: map<Subject, SubjectData>) {
    forall s :: s in subjects ==> subjects[s].versions.Ok()
  }

  function WithVersion(subjects: map<Subject, SubjectData>, s: Subject,
                       entry: SchemaVersion): map<Subject, SubjectData> {
    var data := if s in subjects then subjects[s] else SubjectData(Empty(), None);
    subjects[s := data.(versions := data.versions.Put(entry.version, entry))]
  }

  function Reindexed(index: Index, s: Subject, id: int, deleted: bool, schema: TypedSchema): Index {
    if deleted then Unindex(index, s, {schema.Fp()})
    else index[s := (if s in index then index[s] else map[])[schema.Fp() := id]]
  }

  lemma InsertedParts(db: Db, after: Db, s: Subject, id: int, v: int, deleted: bool, schema: TypedSchema)
    requires db.Cached(schema).Fp() == schema.Fp()
    requires after.subjects == WithVersion(db.subjects, s, SchemaVersion(v, deleted, id, db.Cached(schema)))
    requires after.schemas == db.schemas.Put(id, db.Cached(schema)) &&
             after.cache == db.cache[schema.Fp() := db.Cached(schema)]
    requires after.referencedBy == if deleted then db.referencedBy
             else AddReferent(db.referencedBy, schema.references, id)
    requires after.index == Reindexed(db.index, s, id, deleted, db.Cached(schema))
    ensures after == db.InsertSchemaVersion(s, id, v, deleted, schema)
  {
  }

  lemma WithVersionOk(subjects: map<Subject, SubjectData>, s: Subject, entry: SchemaVersion)
    requires VersionsOk(subjects)
    ensures VersionsOk(WithVersion(subjects, s, entry))
  {
    var data := if s in subjects then subjects[s] else SubjectData(Empty(), None);
    data.versions.PutOk(entry.version, entry);
  }

  lemma UnindexTwice(index: Index, s: Subject, a: set<Fingerprint>, b: set<Fingerprint>)
    requires Filled(index)
    ensures Filled(Unindex(index, s, a)) && Unindex(Unindex(index, s, a), s, b) == Unindex(index, s, a + b)
  {
    if s in index {
      assert index[s] - (a + b) == (index[s] - a) - b;
      if index[s] - a == map[] { assert index[s] - (a + b) == map[]; }
    }
  }

  lemma UnindexNothing(index: Index, s: Subject)
    requires Filled(index)
    ensures Unindex(index, s, {}) == index
  {
    if s in index { assert index[s] - {} == index[s]; }
  }

  /** The versions of a subject once those among `keys` up to `v` are marked. */
  function Marked(entries: map<int, SchemaVersion>, keys: seq<int>, v: int): map<int, SchemaVersion> {
    map w | w in entries :: if w in keys && w <= v then entries[w].(deleted := true) else entries[w]
  }

  function Prints(entries: map<int, SchemaVersion>, keys: seq<int>): set<Fingerprint> {
    set w | w in keys && w in entries :: entries[w].schema.Fp()
  }

  lemma PrintsSnoc(entries: map<int, SchemaVersion>, keys: seq<int>)
    requires keys != [] && keys[|keys| - 1] in entries
    ensures Prints(entries, keys) == Prints(entries, keys[..|keys| - 1]) + {entries[keys[|keys| - 1]].schema.Fp()}
  {
    var init, last := keys[..|keys| - 1], keys[|keys| - 1];
    assert keys == init + [last];
    forall fp | fp in Prints(entries, keys) ensures fp in Prints(entries, init) || fp == entries[last].schema.Fp() {
      var w :| w in keys && w in entries && fp == entries[w].schema.Fp();
      assert w in init || w == last;
    }
    assert forall w :: w in init ==> w in keys;
    assert last in keys;
  }

  lemma PrintsAll(d: Dict<int, SchemaVersion>)
    requires d.Ok()
    ensures Prints(d.entries, d.keys) == set w | w in d.entries :: d.entries[w].schema.Fp()
  {
    var all := set w | w in d.entries :: d.entries[w].schema.Fp();
    forall fp | fp in all ensures fp in Prints(d.entries, d.keys) {
      var w :| w in d.entries && fp == d.entries[w].schema.Fp();
      assert w in d.keys;
    }
  }

  lemma MarkedSnoc(d: Dict<int, SchemaVersion>, i: nat, v: int)
    requires d.Ok() && i < |d.keys|
    ensures var k, marked := d.keys[i], Marked(d.entries, d.keys[..i], v);
            && k in marked && marked[k] == d.entries[k]
            && Marked(d.entries, d.keys[..i + 1], v) == if k <= v then marked[k := d.entries[k].(deleted := true)]
               else marked
  {
    assert d.keys[..i + 1] == d.keys[..i] + [d.keys[i]];
    assert d.keys[i] !in d.keys[..i];
  }

  lemma MarkedAll(d: Dict<int, SchemaVersion>, v: int)
    requires d.Ok()
    ensures Marked(d.entries, d.keys, v) == map w | w in d.entries :: if w <= v then d.entries[w].(deleted := true)
            else d.entries[w]
  {
  }

  /** `delete_subject` once it has dealt with the first `n` versions. */
  function PartDeleted(db: Db, s: Subject, n: nat, v: int): Db
    requires s in db.subjects && n <= |db.subjects[s].versions.keys|
  {
    var was := db.subjects[s].versions;
    db.(subjects := db.subjects[s := db.subjects[s].(versions := Dict(was.keys,
      Marked(was.entries, was.keys[..n], v)))],
        index := Unindex(db.index, s, Prints(was.entries, was.keys[..n])))
  }

  /** One step of `delete_subject`. */
  function DeletedOne(db: Db, s: Subject, k: int, v: int): Db
    requires s in db.subjects && k in db.subjects[s].versions.entries
  {
    var was := db.subjects[s].versions;
    var marked := if was.entries[k].version <= v then was.entries[k := was.entries[k].(deleted := true)]
      else was.entries;
    db.(subjects := db.subjects[s := db.subjects[s].(versions := Dict(was.keys, marked))],
        index := Unindex(db.index, s, {was.entries[k].schema.Fp()}))
  }

  lemma PartDeletedNone(db: Db, s: Subject, v: int)
    requires s in db.subjects && Filled(db.index)
    ensures PartDeleted(db, s, 0, v) == db
  {
    var was := db.subjects[s].versions;
    assert was.keys[..0] == [] && Prints(was.entries, []) == {} && Marked(was.entries, [], v) == was.entries;
    UnindexNothing(db.index, s);
    assert db.subjects[s].(versions := Dict(was.keys, was.entries)) == db.subjects[s];
  }

  lemma IndexStep(index: Index, s: Subject, was: Dict<int, SchemaVersion>, n: nat)
    requires Filled(index) && n < |was.keys| && was.keys[n] in was.entries
    ensures Unindex(Unindex(index, s, Prints(was.entries, was.keys[..n])), s, {was.entries[was.keys[n]].schema.Fp()})
         == Unindex(index, s, Prints(was.entries, was.keys[..n + 1]))
  {
    assert was.keys[..n + 1][..n] == was.keys[..n];
    PrintsSnoc(was.entries, was.keys[..n + 1]);
    UnindexTwice(index, s, Prints(was.entries, was.keys[..n]), {was.entries[was.keys[n]].schema.Fp()});
  }

  lemma PartDeletedStep(db: Db, s: Subject, n: nat, v: int)
    requires s in db.subjects && Filled(db.index) && db.subjects[s].versions.Ok() && n < |db.subjects[s].versions.keys|
    requires var k := db.subjects[s].versions.keys[n];
             k in db.subjects[s].versions.entries && db.subjects[s].versions.entries[k].version == k
    ensures db.subjects[s].versions.keys[n] in PartDeleted(db, s, n, v).subjects[s].versions.entries
    ensures DeletedOne(PartDeleted(db, s, n, v), s, db.subjects[s].versions.keys[n], v) == PartDeleted(db, s, n + 1, v)
  {
    var was, part := db.subjects[s].versions, PartDeleted(db, s, n, v);
    var k := was.keys[n];
    MarkedSnoc(was, n, v);
    IndexStep(db.index, s, was, n);
    assert part.subjects[s].versions == Dict(was.keys, Marked(was.entries, was.keys[..n], v));
    assert part.subjects[s].versions.entries[k] == was.entries[k];
    assert DeletedOne(part, s, k, v).subjects[s].versions == Dict(was.keys, Marked(was.entries, was.keys[..n + 1], v));
    assert DeletedOne(part, s, k, v).subjects == PartDeleted(db, s, n + 1, v).subjects;
  }

  lemma PartDeletedAll(db: Db, s: Subject, v: int)
    requires s in db.subjects && db.subjects[s].versions.Ok()
    ensures PartDeleted(db, s, |db.subjects[s].versions.keys|, v) == db.DeleteSubject(s, v)
  {
    var was := db.subjects[s].versions;
    assert was.keys[..|was.keys|] == was.keys;
    PrintsAll(was);
    MarkedAll(was, v);
  }

  /** What the versions listed still contribute to the referenced-by sets, taken away. */
  function WithoutReferents(rb: Referents, keys: seq<int>, entries: map<int, SchemaVersion>): Referents {
    if keys == [] then rb
    else
      var rest, k := WithoutReferents(rb, keys[..|keys| - 1], entries), keys[|keys| - 1];
      if k in entries then RemoveReferent(rest, entries[k].schema.references, entries[k].id) else rest
  }

  class InMemoryDatabase {
    var globalSchemaId: int
    var subjects: map<Subject, SubjectData>
    var schemas: Dict<int, TypedSchema>
    var referencedBy: Referents
    var hashToSchema: map<Fingerprint, TypedSchema>
    var hashToSchemaIdOnSubject: Index

    function Content(): Db
      reads this
    {
      Db(subjects, schemas, referencedBy, hashToSchema, hashToSchemaIdOnSubject)
    }

    ghost predicate Valid()
      reads this
    {
      schemas.Ok() && Filled(hashToSchemaIdOnSubject) && VersionsOk(subjects)
    }

    constructor ()
      ensures Valid() && Content() == EMPTY && globalSchemaId == 0
    {
      globalSchemaId, subjects, schemas, referencedBy, hashToSchema, hashToSchemaIdOnSubject := 0, map[], Empty(),
        map[], map[], map[];
    }

    /** Scans the schemas in insertion order. */
    method GetSchemaIdFromStorage(schema: TypedSchema) returns (id: Option<int>)
      requires Valid()
      ensures id == FindId(schemas.keys, schemas.entries, schema)
      ensures id.Some? ==> id.value in schemas.entries && schemas.entries[id.value] == schema
      ensures id.None? ==> forall k :: k in schemas.entries ==> schemas.entries[k] != schema
    {
      for i := 0 to |schemas.keys|
        invariant FindId(schemas.keys, schemas.entries, schema) == FindId(schemas.keys[i..], schemas.entries, schema)
        invariant forall j :: 0 <= j < i ==> schemas.entries[schemas.keys[j]] != schema
      {
        if schemas.entries[schemas.keys[i]] == schema { return Some(schemas.keys[i]); }
      }
      return None;
    }

    method GetSchemaId(schema: TypedSchema) returns (id: int)
      requires Valid()
      modifies this`globalSchemaId
      ensures Valid()
      ensures match FindId(schemas.keys, schemas.entries, schema)
              case Some(known) => id == known && globalSchemaId == old(globalSchemaId)
              case None => id == globalSchemaId == old(globalSchemaId) + 1
    {
      var known := GetSchemaIdFromStorage(schema);
      if known.Some? { return known.value; }
      globalSchemaId := globalSchemaId + 1;
      return globalSchemaId;
    }

    method GetSchemaIdIfExists(s: Subject, schema: TypedSchema) returns (id: Option<int>)
      ensures id == Content().Lookup(s, schema)
    {
      if s in hashToSchemaIdOnSubject && hashToSchemaIdOnSubject[s] != map[] {
        return if schema.Fp() in hashToSchemaIdOnSubject[s] then Some(hashToSchemaIdOnSubject[s][schema.Fp()])
          else None;
      }
      return None;
    }

    method DeleteFromSchemaIdOnSubject(s: Subject, schema: TypedSchema)
      requires Filled(hashToSchemaIdOnSubject)
      modifies this`hashToSchemaIdOnSubject
      ensures Filled(hashToSchemaIdOnSubject)
      ensures hashToSchemaIdOnSubject == Unindex(old(hashToSchemaIdOnSubject), s, {schema.Fp()})
    {
      if s in hashToSchemaIdOnSubject {
        hashToSchemaIdOnSubject := hashToSchemaIdOnSubject[s := hashToSchemaIdOnSubject[s] - {schema.Fp()}];
        if hashToSchemaIdOnSubject[s] == map[] { hashToSchemaIdOnSubject := hashToSchemaIdOnSubject - {s}; }
      }
    }

    method InsertReferencedBy(refs: seq<Reference>, id: int)
      modifies this`referencedBy
      ensures referencedBy == AddReferent(old(referencedBy), refs, id)
    {
      AddNothing(referencedBy, id);
      for i := 0 to |refs|
        invariant referencedBy == AddReferent(old(referencedBy), refs[..i], id)
      {
        var key := RefKey(refs[i]);
        assert refs[..i + 1][..i] == refs[..i];
        AddReferentSnoc(old(referencedBy), refs[..i + 1], id);
        if key in referencedBy && referencedBy[key] != {} {
          referencedBy := referencedBy[key := referencedBy[key] + {id}];
        } else {
          assert (if key in referencedBy then referencedBy[key] else {}) + {id} == {id};
          referencedBy := referencedBy[key := {id}];
        }
      }
      assert refs[..|refs|] == refs;
    }

    method RemoveReferencedBy(id: int, refs: seq<Reference>)
      modifies this`referencedBy
      ensures referencedBy == RemoveReferent(old(referencedBy), refs, id)
    {
      assert RemoveReferent(referencedBy, [], id) == referencedBy;
      for i := 0 to |refs|
        invariant referencedBy == RemoveReferent(old(referencedBy), refs[..i], id)
      {
        var key := RefKey(refs[i]);
        assert refs[..i + 1][..i] == refs[..i];
        RemoveReferentSnoc(old(referencedBy), refs[..i + 1], id);
        if key in referencedBy && id in referencedBy[key] {
          referencedBy := referencedBy[key := referencedBy[key] - {id}];
        } else if key in referencedBy {
          assert referencedBy[key] - {id} == referencedBy[key];
        }
      }
      assert refs[..|refs|] == refs;
    }

    method InsertSubject(s: Subject)
      requires Valid()
      modifies this`subjects
      ensures Valid() && Content() == old(Content()).InsertSubject(s)
    {
      if s !in subjects { subjects := subjects[s := SubjectData(Empty(), None)]; }
    }

    method SetSubjectCompatibility(s: Subject, mode: Option<Mode>)
      requires Valid()
      modifies this`subjects
      ensures Valid() && Content() == old(Content()).SetCompatibility(s, mode)
    {
      if s in subjects { subjects := subjects[s := subjects[s].(compatibility := mode)]; }
    }

    method SetSchemaIdOnSubject(s: Subject, schema: TypedSchema, id: int)
      requires Filled(hashToSchemaIdOnSubject)
      modifies this`hashToSchemaIdOnSubject
      ensures Filled(hashToSchemaIdOnSubject)
      ensures hashToSchemaIdOnSubject == old(hashToSchemaIdOnSubject)[s :=
                (if s in old(hashToSchemaIdOnSubject) then old(hashToSchemaIdOnSubject)[s]
                  else map[])[schema.Fp() := id]]
    {
      var table := if s in hashToSchemaIdOnSubject then hashToSchemaIdOnSubject[s] else map[];
      var grown := table[schema.Fp() := id];
      assert schema.Fp() in grown;
      hashToSchemaIdOnSubject := hashToSchemaIdOnSubject[s := grown];
    }

    method StoreVersion(s: Subject, id: int, entry: SchemaVersion)
      requires schemas.Ok() && VersionsOk(subjects)
      modifies this`schemas, this`subjects
      ensures schemas.Ok() && VersionsOk(subjects)
      ensures schemas == old(schemas).Put(id, entry.schema) && subjects == WithVersion(old(subjects), s, entry)
    {
      WithVersionOk(subjects, s, entry);
      schemas.PutOk(id, entry.schema);
      schemas := schemas.Put(id, entry.schema);
      var data := if s in subjects then subjects[s] else SubjectData(Empty(), None);
      subjects := subjects[s := data.(versions := data.versions.Put(entry.version, entry))];
    }

    /** The fingerprint entry and the referents of a version that was just stored. */
    method IndexVersion(s: Subject, id: int, deleted: bool, kept: TypedSchema, references: seq<Reference>)
      requires Filled(hashToSchemaIdOnSubject)
      modifies this`hashToSchemaIdOnSubject, this`referencedBy
      ensures Filled(hashToSchemaIdOnSubject)
      ensures referencedBy == if deleted then old(referencedBy) else AddReferent(old(referencedBy), references, id)
      ensures hashToSchemaIdOnSubject == Reindexed(old(hashToSchemaIdOnSubject), s, id, deleted, kept)
    {
      if !deleted {
        SetSchemaIdOnSubject(s, kept, id);
        InsertReferencedBy(references, id);
      } else {
        DeleteFromSchemaIdOnSubject(s, kept);
      }
    }

    method InsertSchemaVersion(s: Subject, id: int, v: int, deleted: bool, schema: TypedSchema)
      requires Valid()
      requires schema.Fp() in hashToSchema ==> hashToSchema[schema.Fp()].Fp() == schema.Fp()
      modifies this
      ensures Valid() && Content() == old(Content()).InsertSchemaVersion(s, id, v, deleted, schema)
      ensures globalSchemaId == if old(globalSchemaId) < id then id else old(globalSchemaId)
    {
      ghost var before := Content();
      if globalSchemaId < id { globalSchemaId := id; }
      var kept := if schema.Fp() in hashToSchema then hashToSchema[schema.Fp()] else schema;
      hashToSchema := hashToSchema[schema.Fp() := kept];
      StoreVersion(s, id, SchemaVersion(v, deleted, id, kept));
      IndexVersion(s, id, deleted, kept, schema.references);
      InsertedParts(before, Content(), s, id, v, deleted, schema);
    }

    /** Marks the version when it is not above `v`, and drops its fingerprint entry. */
    method DeleteVersionOf(s: Subject, k: int, v: int)
      requires Valid() && s in subjects && k in subjects[s].versions.entries
      modifies this`subjects, this`hashToSchemaIdOnSubject
      ensures Valid() && Content() == DeletedOne(old(Content()), s, k, v)
    {
      var data := subjects[s];
      var entry := data.versions.entries[k];
      if entry.version <= v {
        subjects := subjects[s := data.(versions := Dict(data.versions.keys,
          data.versions.entries[k := entry.(deleted := true)]))];
      }
      DeleteFromSchemaIdOnSubject(s, entry.schema);
    }

    /** Marks every version up to `v`; every stored version loses its fingerprint entry. */
    method DeleteSubject(s: Subject, v: int)
      requires Valid() && s in subjects
      requires forall w :: w in subjects[s].versions.entries ==> subjects[s].versions.entries[w].version == w
      modifies this`subjects, this`hashToSchemaIdOnSubject
      ensures Valid() && Content() == old(Content()).DeleteSubject(s, v)
    {
      ghost var db := Content();
      var keys := subjects[s].versions.keys;
      PartDeletedNone(db, s, v);
      for i := 0 to |keys|
        invariant Valid() && Content() == PartDeleted(db, s, i, v)
      {
        PartDeletedStep(db, s, i, v);
        DeleteVersionOf(s, keys[i], v);
      }
      PartDeletedAll(db, s, v);
    }

    method DeleteSubjectSchema(s: Subject, v: int)
      requires Valid() && s in subjects
      modifies this
      ensures Valid() && Content() == old(Content()).DeleteSubjectSchema(s, v) && globalSchemaId == old(globalSchemaId)
    {
      if v in subjects[s].versions.entries {
        var data := subjects[s];
        var entry := data.versions.entries[v];
        data.versions.PopOk(v);
        subjects := subjects[s := data.(versions := data.versions.Pop(v))];
        RemoveReferencedBy(entry.id, entry.schema.references);
        DeleteFromSchemaIdOnSubject(s, entry.schema);
      }
    }

    /** Removes the subject and what its versions contribute to the referenced-by sets. */
    method DeleteSubjectHard(s: Subject)
      requires Valid() && s in subjects
      modifies this
      ensures Valid() && globalSchemaId == old(globalSchemaId)
      ensures Content() == old(Content()).DropSubject(s).(referencedBy :=
                WithoutReferents(old(referencedBy), old(subjects[s].versions.keys), old(subjects[s].versions.entries)))
    {
      var keys, entries := subjects[s].versions.keys, subjects[s].versions.entries;
      for i := 0 to |keys|
        invariant Valid() &&
                  Content() == old(Content()).(referencedBy := WithoutReferents(old(referencedBy), keys[..i], entries))
        invariant globalSchemaId == old(globalSchemaId)
      {
        assert keys[..i + 1][..i] == keys[..i];
        RemoveReferencedBy(entries[keys[i]].id, entries[keys[i]].schema.references);
      }
      assert keys[..|keys|] == keys;
      subjects := subjects - {s};
      hashToSchemaIdOnSubject := hashToSchemaIdOnSubject - {s};
    }

    /** The live versions in dict order, `find_subject_schemas(include_deleted=False)`. */
    method FindLiveVersions(s: Subject) returns (live: seq<int>)
      requires Valid()
      ensures live == LiveVersions(Content().Versions(s))
      ensures forall v :: v in live <==> Content().Live(s, v)
    {
      live := [];
      if s !in subjects { return; }
      var versions := subjects[s].versions;
      for i := 0 to |versions.keys|
        invariant live == LiveAmong(versions.keys[..i], versions.entries)
      {
        assert versions.keys[..i + 1][..i] == versions.keys[..i];
        if !versions.entries[versions.keys[i]].deleted { live := live + [versions.keys[i]]; }
      }
      assert versions.keys[..|versions.keys|] == versions.keys;
      LiveVersionsSpec(Content(), s);
    }

    /** One above the greatest version, soft-deleted ones included. */
    method GetNextVersion(s: Subject) returns (version: int)
      requires s in subjects && subjects[s].versions.keys != []
      ensures version == Max(subjects[s].versions.keys) + 1
      ensures forall v :: v in subjects[s].versions.keys ==> v < version
    {
      var keys := subjects[s].versions.keys;
      var greatest := keys[0];
      for i := 1 to |keys|
        invariant greatest == Max(keys[..i])
      {
        assert keys[..i + 1][..i] == keys[..i];
        if keys[i] > greatest { greatest := keys[i]; }
      }
      assert keys[..|keys|] == keys;
      MaxSpec(keys);
      return greatest + 1;
    }

    method GetReferencedBy(s: Subject, v: int) returns (referents: set<int>)
      ensures referents == Content().ReferencedBy(s, v)
    {
      return if (s, v) in referencedBy then referencedBy[(s, v)] else {};
    }
  }
}
