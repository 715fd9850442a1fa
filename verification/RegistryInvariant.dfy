/** What every record written by the registry keeps of the database. */
module RegistryInvariant {
  import opened Dicts
  import opened SchemaModels
  import opened Database
  import opened SchemaReader
  import opened SchemaRegistry

  // ---------------------------------------------------------------- the invariant

  ghost predicate DictsOk(db: Db) {
    && db.schemas.Ok()
    && (forall s :: s in db.subjects ==> db.subjects[s].versions.Ok())
  }

  /** Versions are positive, stored under their own number, and in ascending dict order. */
  ghost predicate Ordered(db: Db) {
    && (forall s :: s in db.subjects ==> Ascending(db.subjects[s].versions.keys))
    && (forall s, v :: db.Stored(s, v) ==> v >= 1 && db.At(s, v).version == v)
  }

  /** One schema object per fingerprint, shared by the id table and the versions. */
  ghost predicate Interned(db: Db) {
    && (forall fp :: fp in db.cache ==> db.cache[fp].Fp() == fp && Settled(db.cache[fp]))
    && (forall id :: id in db.schemas.entries ==>
          db.schemas.entries[id].Fp() in db.cache && db.cache[db.schemas.entries[id].Fp()] == db.schemas.entries[id])
    && (forall s, v :: db.Stored(s, v) ==>
          db.At(s, v).id in db.schemas.entries && db.schemas.entries[db.At(s, v).id] == db.At(s, v).schema)
  }

  ghost predicate Indexes(db: Db, s: Subject, v: int, fp: Fingerprint, id: int) {
    db.Live(s, v) && db.At(s, v).id == id && db.At(s, v).schema.Fp() == fp
  }

  /** Every fingerprint entry of a subject is backed by a live version. */
  ghost predicate IndexSound(db: Db) {
    forall s, fp :: s in db.index && fp in db.index[s] ==>
      exists v :: Indexes(db, s, v, fp, db.index[s][fp])
  }

  ghost predicate Refers(db: Db, s: Subject, v: int, id: int, key: (Subject, int)) {
    db.Stored(s, v) && db.At(s, v).id == id && key in RefKeys(db.At(s, v).schema.references)
  }

  /** Every referent recorded for a version is a stored version that references it. */
  ghost predicate ReferentsSound(db: Db) {
    forall key, id :: key in db.referencedBy && id in db.referencedBy[key] ==>
      exists s, v :: Refers(db, s, v, id, key)
  }

  ghost predicate Inv(db: Db) {
    DictsOk(db) && Ordered(db) && Interned(db) && IndexSound(db) && ReferentsSound(db)
  }

  // ---------------------------------------------------------------- the records a registry writes

  /** A live record opens a version above all stored ones; a soft delete repeats a live version;
      a tombstone is for a soft-deleted one; a subject delete names the last live version; and none
      of the deletes is for a version with a known referent. */
  ghost predicate Legit(db: Db, r: Record) {
    match r
    case SchemaRecord(s, v, id, schema, deleted) =>
      && Settled(schema)
      && if deleted then db.Live(s, v) && db.At(s, v).id == id && db.At(s, v).schema == schema
              && db.ReferencedBy(s, v) == {}
         else && v >= 1
              && (forall w :: db.Stored(s, w) ==> w < v)
              && (id in db.schemas.entries ==> db.schemas.entries[id].Fp() == schema.Fp())
    case Tombstone(s, v) => db.SoftDeleted(s, v) && db.ReferencedBy(s, v) == {}
    case DeleteSubjectRecord(s, v) =>
      db.Live(s, v) && (forall w :: db.Live(s, w) ==> w <= v) && db.ReferencedBy(s, v) == {}
    case ConfigRecord(_, _) => true
    case Noop => true
  }

  ghost predicate LegitAt(log: seq<Record>, i: nat)
    requires i < |log|
  {
    Legit(Replay(log[..i]), log[i])
  }

  /** Each record is one that a registry holding exactly the records before it may write. */
  ghost predicate RegistryWritten(log: seq<Record>) {
    forall i: nat :: i < |log| ==> LegitAt(log, i)
  }

  /** Some record of the log carries exactly this schema. */
  ghost predicate Written(log: seq<Record>, schema: TypedSchema) {
    exists i :: 0 <= i < |log| && log[i].SchemaRecord? && log[i].schema == schema
  }

  lemma WrittenPrefix(log: seq<Record>, n: nat)
    requires RegistryWritten(log) && n <= |log|
    ensures RegistryWritten(log[..n])
  {
    forall i: nat | i < n ensures LegitAt(log[..n], i) {
      assert LegitAt(log, i);
      assert log[..n][..i] == log[..i];
    }
  }

  // ---------------------------------------------------------------- what each record changes

  lemma UnderstoodSettled(db: Db, schema: TypedSchema)
    requires Settled(schema)
    ensures Understood(db, schema) == schema
  {
    if !schema.schemaType.JsonSchema? {
      assert Understood(db, schema).references == schema.references;
    }
  }

  lemma InsertFrame(db: Db, s: Subject, id: int, v: int, deleted: bool, schema: TypedSchema)
    ensures var db' := db.InsertSchemaVersion(s, id, v, deleted, schema);
            && db'.Stored(s, v) && db'.At(s, v) == SchemaVersion(v, deleted, id, db.Cached(schema))
            && (forall t, w :: (t, w) != (s, v) ==>
                  && (db'.Stored(t, w) <==> db.Stored(t, w))
                  && (db.Stored(t, w) ==> db'.At(t, w) == db.At(t, w)))
  {
  }

  lemma DeleteSubjectFrame(db: Db, s: Subject, v: int)
    requires s in db.subjects
    ensures var db' := db.DeleteSubject(s, v);
            && (forall t, w :: db'.Stored(t, w) <==> db.Stored(t, w))
            && (forall t, w :: db.Stored(t, w) ==>
                  db'.At(t, w) == if t == s && w <= v then db.At(t, w).(deleted := true) else db.At(t, w))
  {
  }

  lemma HardDeleteFrame(db: Db, s: Subject, v: int)
    ensures var db' := HardDelete(db, s, v);
            && (forall t, w :: db'.Stored(t, w) <==> db.Stored(t, w) && (t, w) != (s, v))
            && (forall t, w :: db'.Stored(t, w) ==> db'.At(t, w) == db.At(t, w))
            && (forall t, w :: db'.ReferencedBy(t, w) <= db.ReferencedBy(t, w))
  {
    if db.Stored(s, v) {
      var popped := db.DeleteSubjectSchema(s, v);
      assert popped.Versions(s).entries == db.Versions(s).entries - {v};
    }
  }

  lemma ConfigureFrame(db: Db, target: Option<Subject>, mode: Option<Mode>)
    ensures var db' := SchemaReader.Configure(db, target, mode);
            && (forall t :: db'.Versions(t) == db.Versions(t))
            && db' == db.(subjects := db'.subjects)
            && (forall t :: t in db.subjects ==> t in db'.subjects)
  {
  }

  // ---------------------------------------------------------------- each record keeps the invariant

  lemma InsertKeepsShape(db: Db, s: Subject, id: int, v: int, deleted: bool, schema: TypedSchema)
    requires DictsOk(db) && Ordered(db) && v >= 1
    requires db.Stored(s, v) || forall w :: db.Stored(s, w) ==> w < v
    ensures var db' := db.InsertSchemaVersion(s, id, v, deleted, schema); DictsOk(db') && Ordered(db')
  {
    var db' := db.InsertSchemaVersion(s, id, v, deleted, schema);
    InsertFrame(db, s, id, v, deleted, schema);
    db.schemas.PutOk(id, db.Cached(schema));
    var was := db.Versions(s);
    was.PutOk(v, SchemaVersion(v, deleted, id, db.Cached(schema)));
    assert db'.Versions(s) == was.Put(v, SchemaVersion(v, deleted, id, db.Cached(schema)));
    if !db.Stored(s, v) {
      forall i | 0 <= i < |was.keys| ensures was.keys[i] < v {
        assert was.keys[i] in was.keys;
        assert db.Stored(s, was.keys[i]);
      }
    }
  }

  lemma InsertKeepsInterned(db: Db, s: Subject, id: int, v: int, deleted: bool, schema: TypedSchema)
    requires Interned(db) && Settled(schema)
    requires id in db.schemas.entries ==> db.schemas.entries[id].Fp() == schema.Fp()
    ensures Interned(db.InsertSchemaVersion(s, id, v, deleted, schema))
  {
    var db' := db.InsertSchemaVersion(s, id, v, deleted, schema);
    InsertFrame(db, s, id, v, deleted, schema);
    forall i | i in db'.schemas.entries
      ensures db'.schemas.entries[i].Fp() in db'.cache &&
              db'.cache[db'.schemas.entries[i].Fp()] == db'.schemas.entries[i]
    {
    }
    forall t, w | db'.Stored(t, w)
      ensures db'.At(t, w).id in db'.schemas.entries && db'.schemas.entries[db'.At(t, w).id] == db'.At(t, w).schema
    {
      if (t, w) != (s, v) { assert db.Stored(t, w); }
    }
  }

  lemma InsertKeepsIndex(db: Db, s: Subject, id: int, v: int, deleted: bool, schema: TypedSchema)
    requires IndexSound(db) && db.Cached(schema).Fp() == schema.Fp()
    requires db.Stored(s, v) ==> db.At(s, v).schema.Fp() == schema.Fp()
    ensures IndexSound(db.InsertSchemaVersion(s, id, v, deleted, schema))
  {
    var db' := db.InsertSchemaVersion(s, id, v, deleted, schema);
    InsertFrame(db, s, id, v, deleted, schema);
    forall t, fp | t in db'.index && fp in db'.index[t]
      ensures exists w :: Indexes(db', t, w, fp, db'.index[t][fp])
    {
      if t == s && fp == schema.Fp() {
        assert Indexes(db', s, v, fp, id);
      } else {
        var w :| Indexes(db, t, w, fp, db.index[t][fp]);
        assert Indexes(db', t, w, fp, db.index[t][fp]);
      }
    }
  }

  lemma InsertKeepsReferents(db: Db, s: Subject, id: int, v: int, deleted: bool, schema: TypedSchema)
    requires ReferentsSound(db) && db.Cached(schema).Fp() == schema.Fp()
    requires db.Stored(s, v) ==> db.At(s, v).schema.Fp() == schema.Fp() && db.At(s, v).id == id
    ensures ReferentsSound(db.InsertSchemaVersion(s, id, v, deleted, schema))
  {
    var db' := db.InsertSchemaVersion(s, id, v, deleted, schema);
    InsertFrame(db, s, id, v, deleted, schema);
    forall key, i | key in db'.referencedBy && i in db'.referencedBy[key]
      ensures exists t, w :: Refers(db', t, w, i, key)
    {
      if key in db.referencedBy && i in db.referencedBy[key] {
        var t, w :| Refers(db, t, w, i, key);
        assert Refers(db', t, w, i, key);
      } else {
        assert Refers(db', s, v, id, key);
      }
    }
  }

  lemma DeleteSubjectKeepsIndex(db: Db, s: Subject, v: int)
    requires IndexSound(db) && s in db.subjects
    ensures IndexSound(db.DeleteSubject(s, v))
  {
    var db' := db.DeleteSubject(s, v);
    DeleteSubjectFrame(db, s, v);
    var fps := set w | w in db.subjects[s].versions.entries :: db.subjects[s].versions.entries[w].schema.Fp();
    if s in db.index {
      forall fp | fp in db.index[s] ensures fp in fps {
        var w :| Indexes(db, s, w, fp, db.index[s][fp]);
        assert db.subjects[s].versions.entries[w].schema.Fp() in fps;
      }
      assert db.index[s] - fps == map[];
    }
    assert db'.index == db.index - {s};
    forall t, fp | t in db'.index && fp in db'.index[t]
      ensures exists w :: Indexes(db', t, w, fp, db'.index[t][fp])
    {
      var w :| Indexes(db, t, w, fp, db.index[t][fp]);
      assert Indexes(db', t, w, fp, db'.index[t][fp]);
    }
  }

  lemma DeleteSubjectKeepsReferents(db: Db, s: Subject, v: int)
    requires ReferentsSound(db) && s in db.subjects
    ensures ReferentsSound(db.DeleteSubject(s, v))
  {
    var db' := db.DeleteSubject(s, v);
    DeleteSubjectFrame(db, s, v);
    forall key, i | key in db'.referencedBy && i in db'.referencedBy[key]
      ensures exists t, w :: Refers(db', t, w, i, key)
    {
      var t, w :| Refers(db, t, w, i, key);
      assert Refers(db', t, w, i, key);
    }
  }

  lemma DeleteSubjectKeepsInv(db: Db, s: Subject, v: int)
    requires Inv(db) && s in db.subjects
    ensures Inv(db.DeleteSubject(s, v))
  {
    var db' := db.DeleteSubject(s, v);
    DeleteSubjectFrame(db, s, v);
    assert db'.Versions(s).keys == db.Versions(s).keys;
    DeleteSubjectKeepsIndex(db, s, v);
    DeleteSubjectKeepsReferents(db, s, v);
  }

  lemma HardDeleteKeepsShape(db: Db, s: Subject, v: int)
    requires DictsOk(db) && Ordered(db) && db.Stored(s, v)
    ensures DictsOk(HardDelete(db, s, v)) && Ordered(HardDelete(db, s, v))
  {
    HardDeleteFrame(db, s, v);
    db.Versions(s).PopOk(v);
    WithoutAscending(db.Versions(s).keys, v);
  }

  lemma HardDeleteKeepsIndex(db: Db, s: Subject, v: int)
    requires IndexSound(db) && db.SoftDeleted(s, v)
    ensures IndexSound(HardDelete(db, s, v))
  {
    var db' := HardDelete(db, s, v);
    HardDeleteFrame(db, s, v);
    forall t, fp | t in db'.index && fp in db'.index[t]
      ensures exists w :: Indexes(db', t, w, fp, db'.index[t][fp])
    {
      var w :| Indexes(db, t, w, fp, db.index[t][fp]);
      assert Indexes(db', t, w, fp, db'.index[t][fp]);
    }
  }

  lemma HardDeleteKeepsReferents(db: Db, s: Subject, v: int)
    requires ReferentsSound(db) && db.Stored(s, v)
    ensures ReferentsSound(HardDelete(db, s, v))
  {
    var db' := HardDelete(db, s, v);
    HardDeleteFrame(db, s, v);
    forall key, i | key in db'.referencedBy && i in db'.referencedBy[key]
      ensures exists t, w :: Refers(db', t, w, i, key)
    {
      assert db'.referencedBy == RemoveReferent(db.referencedBy, db.At(s, v).schema.references, db.At(s, v).id);
      var t, w :| Refers(db, t, w, i, key);
      assert Refers(db', t, w, i, key);
    }
  }

  lemma HardDeleteKeepsInv(db: Db, s: Subject, v: int)
    requires Inv(db) && db.SoftDeleted(s, v)
    ensures Inv(HardDelete(db, s, v))
  {
    HardDeleteFrame(db, s, v);
    HardDeleteKeepsShape(db, s, v);
    HardDeleteKeepsIndex(db, s, v);
    HardDeleteKeepsReferents(db, s, v);
    assert Interned(HardDelete(db, s, v));
  }

  /** The invariant speaks of versions and tables, not of which subjects exist. */
  lemma SameVersionsIndex(db: Db, d: Db)
    requires (forall t :: d.Versions(t) == db.Versions(t)) && d == db.(subjects := d.subjects) && IndexSound(db)
    ensures IndexSound(d)
  {
    forall t, fp | t in d.index && fp in d.index[t]
      ensures exists w :: Indexes(d, t, w, fp, d.index[t][fp])
    {
      var w :| Indexes(db, t, w, fp, db.index[t][fp]);
      assert d.Versions(t) == db.Versions(t);
      assert Indexes(d, t, w, fp, d.index[t][fp]);
    }
  }

  lemma SameVersionsReferents(db: Db, d: Db)
    requires (forall t :: d.Versions(t) == db.Versions(t)) && d == db.(subjects := d.subjects) && ReferentsSound(db)
    ensures ReferentsSound(d)
  {
    forall key, i | key in d.referencedBy && i in d.referencedBy[key]
      ensures exists t, w :: Refers(d, t, w, i, key)
    {
      var t, w :| Refers(db, t, w, i, key);
      assert d.Versions(t) == db.Versions(t);
      assert Refers(d, t, w, i, key);
    }
  }

  lemma SameVersionsShape(db: Db, d: Db)
    requires (forall t :: d.Versions(t) == db.Versions(t)) && d == db.(subjects := d.subjects)
    requires DictsOk(db) && Ordered(db) && Interned(db)
    ensures DictsOk(d) && Ordered(d) && Interned(d)
  {
    forall t | t in d.subjects ensures d.subjects[t].versions == db.Versions(t) {
      assert d.Versions(t) == db.Versions(t);
    }
    forall t, w | d.Stored(t, w) ensures db.Stored(t, w) && d.At(t, w) == db.At(t, w) {
      assert d.Versions(t) == db.Versions(t);
    }
  }

  lemma ConfigureKeepsInv(db: Db, target: Option<Subject>, mode: Option<Mode>)
    requires Inv(db)
    ensures Inv(SchemaReader.Configure(db, target, mode))
  {
    var d := SchemaReader.Configure(db, target, mode);
    ConfigureFrame(db, target, mode);
    SameVersionsShape(db, d);
    SameVersionsIndex(db, d);
    SameVersionsReferents(db, d);
  }

  /** Every record a registry writes keeps the invariant. */
  lemma ApplyKeepsInv(db: Db, r: Record)
    requires Inv(db) && Legit(db, r)
    ensures Inv(Apply(db, r))
  {
    match r
    case SchemaRecord(s, v, id, schema, deleted) =>
      UnderstoodSettled(db, schema);
      if Accepted(db, r) {
        if deleted { assert db.Stored(s, v); }
        InsertKeepsShape(db, s, id, v, deleted, schema);
        InsertKeepsInterned(db, s, id, v, deleted, schema);
        InsertKeepsIndex(db, s, id, v, deleted, schema);
        InsertKeepsReferents(db, s, id, v, deleted, schema);
      }
    case Tombstone(s, v) => HardDeleteKeepsInv(db, s, v);
    case DeleteSubjectRecord(s, v) => if s in db.subjects { DeleteSubjectKeepsInv(db, s, v); }
    case ConfigRecord(target, mode) => ConfigureKeepsInv(db, target, mode);
    case Noop =>
  }

  /** The invariant holds of every database a registry-written log leads to. */
  lemma {:induction false} ReplayInv(log: seq<Record>)
    requires RegistryWritten(log)
    ensures Inv(Replay(log))
  {
    if log != [] {
      var init := log[..|log| - 1];
      WrittenPrefix(log, |log| - 1);
      ReplayInv(init);
      assert LegitAt(log, |log| - 1);
      ApplyKeepsInv(Replay(init), log[|log| - 1]);
    }
  }
}
