/** The promises of the registry, over every run and every registry-written log. */
module RegistryTheorems {
  import opened Dicts
  import opened SchemaModels
  import opened Database
  import opened SchemaReader
  import opened SchemaRegistry
  import opened RegistryInvariant
  import opened RegistryRuns

  // ---------------------------------------------------------------- life of a version

  datatype Phase = Absent | IsLive | IsSoftDeleted

  function PhaseOf(db: Db, s: Subject, v: int): Phase {
    if !db.Stored(s, v) then Absent else if db.At(s, v).deleted then IsSoftDeleted else IsLive
  }

  predicate Moves(a: Phase, b: Phase) {
    a == b || (a.Absent? && b.IsLive?) || (a.IsLive? && b.IsSoftDeleted?) || (a.IsSoftDeleted? && b.Absent?)
  }

  lemma ApplyMoves(db: Db, r: Record, s: Subject, v: int)
    requires Inv(db) && Legit(db, r)
    ensures Moves(PhaseOf(db, s, v), PhaseOf(Apply(db, r), s, v))
    ensures db.Stored(s, v) && Apply(db, r).Stored(s, v) ==>
              Apply(db, r).At(s, v).id == db.At(s, v).id && Apply(db, r).At(s, v).schema == db.At(s, v).schema
  {
    match r
    case SchemaRecord(t, w, id, schema, deleted) =>
      UnderstoodSettled(db, schema);
      if Accepted(db, r) { InsertFrame(db, t, id, w, deleted, schema); }
    case Tombstone(t, w) => HardDeleteFrame(db, t, w);
    case DeleteSubjectRecord(t, w) => if t in db.subjects { DeleteSubjectFrame(db, t, w); }
    case ConfigRecord(target, mode) =>
      ConfigureFrame(db, target, mode);
      assert Apply(db, r).Versions(s) == db.Versions(s);
    case Noop =>
  }

  /** What one record may do to a version: move it on from absent to live to soft-deleted to absent; keep its id and
      schema while it is stored; and, as a tombstone, be for a soft-deleted version only. */
  ghost predicate LawfulStep(before: Db, r: Record, after: Db, s: Subject, v: int) {
    && Moves(PhaseOf(before, s, v), PhaseOf(after, s, v))
    && (before.Stored(s, v) && after.Stored(s, v) ==>
          after.At(s, v).id == before.At(s, v).id && after.At(s, v).schema == before.At(s, v).schema)
    && (r == Tombstone(s, v) ==> PhaseOf(before, s, v).IsSoftDeleted?)
  }

  lemma LawfulLog(log: seq<Record>, i: nat, s: Subject, v: int)
    requires RegistryWritten(log) && i < |log|
    ensures LawfulStep(Replay(log[..i]), log[i], Replay(log[..i + 1]), s, v)
  {
    WrittenPrefix(log, i);
    ReplayInv(log[..i]);
    assert LegitAt(log, i);
    assert log[..i + 1] == log[..i] + [log[i]];
    ReplaySnoc(log[..i], log[i]);
    ApplyMoves(Replay(log[..i]), log[i], s, v);
  }

  /** Along every run each (subject, version) only ever goes absent, live, soft-deleted, absent; while it
      is stored its id and schema never change; and a tombstone is only written for a soft-deleted version. */
  lemma Lifecycle(canRead: CanRead, mode: Mode, requests: seq<Request>, i: nat, s: Subject, v: int)
    requires i < |Run(canRead, mode, requests).log|
    ensures var log := Run(canRead, mode, requests).log;
            LawfulStep(Replay(log[..i]), log[i], Replay(log[..i + 1]), s, v)
  {
    RunOk(canRead, mode, requests);
    LawfulLog(Run(canRead, mode, requests).log, i, s, v);
  }

  // ---------------------------------------------------------------- deletes

  lemma ExecSingle(canRead: CanRead, w: World, request: Request, r: Record)
    requires PlanOf(canRead, w.st, request).records == [r]
    ensures Exec(canRead, w, request).st.db == Apply(w.st.db, r)
  {
    assert [r][..0] == [];
    assert HandleAll(w.st.(counter := PlanOf(canRead, w.st, request).counter), [r][..0]).db == w.st.db;
  }

  /** `answer` lists exactly the versions live before, ascending; afterwards none is live, everything
      stored is still stored, and the other subjects are as they were. */
  ghost predicate SoftDeletedExactly(before: Db, after: Db, s: Subject, answer: seq<int>) {
    && Ascending(answer)
    && (forall v :: v in answer <==> before.Live(s, v))
    && (forall v :: !after.Live(s, v))
    && (forall t, v :: after.Stored(t, v) <==> before.Stored(t, v))
    && (forall t, v :: before.Stored(t, v) && t != s ==> after.At(t, v) == before.At(t, v))
  }

  lemma DeleteSubjectUpToLast(db: Db, s: Subject)
    requires Inv(db) && s in db.subjects && LiveVersions(db.Versions(s)) != []
    ensures var live := LiveVersions(db.Versions(s));
            SoftDeletedExactly(db, db.DeleteSubject(s, live[|live| - 1]), s, live)
  {
    LiveVersionsSpec(db, s);
    var live := LiveVersions(db.Versions(s));
    var latest := live[|live| - 1];
    var db' := db.DeleteSubject(s, latest);
    DeleteSubjectFrame(db, s, latest);
    forall v ensures !db'.Live(s, v) {
      if db.Live(s, v) { assert v in live; }
    }
    assert Ascending(live);
    assert forall v :: v in live <==> db.Live(s, v);
    assert forall t, v :: db'.Stored(t, v) <==> db.Stored(t, v);
  }

  lemma SoftSubjectDeleteStep(canRead: CanRead, w: World, s: Subject)
    requires Inv(w.st.db)
    requires PlanDeleteSubject(w.st, s, false).reply.Deleted?
    ensures SoftDeletedExactly(w.st.db, Exec(canRead, w, DeleteSubject(s, false)).st.db, s,
                               PlanDeleteSubject(w.st, s, false).reply.versions)
  {
    var live := LiveVersions(w.st.db.Versions(s));
    DeleteSubjectUpToLast(w.st.db, s);
    ExecSingle(canRead, w, DeleteSubject(s, false), DeleteSubjectRecord(s, live[|live| - 1]));
  }

  /** A soft subject delete answers with exactly the versions that were live, in ascending order, and
      leaves none of them live; nothing else changes. */
  lemma SoftSubjectDelete(canRead: CanRead, mode: Mode, requests: seq<Request>, s: Subject)
    requires PlanDeleteSubject(Run(canRead, mode, requests).st, s, false).reply.Deleted?
    ensures var w := Run(canRead, mode, requests);
            SoftDeletedExactly(w.st.db, Exec(canRead, w, DeleteSubject(s, false)).st.db, s,
                               PlanDeleteSubject(w.st, s, false).reply.versions)
  {
    RunOk(canRead, mode, requests);
    SoftSubjectDeleteStep(canRead, Run(canRead, mode, requests), s);
  }

  /** `answer` lists exactly the versions stored before, ascending, all of them soft-deleted; afterwards the subject
      holds none, and the other subjects are as they were. */
  ghost predicate DeletedForGood(before: Db, after: Db, s: Subject, answer: seq<int>) {
    && Ascending(answer)
    && (forall v :: v in answer <==> before.Stored(s, v))
    && (forall v :: before.Stored(s, v) ==> before.SoftDeleted(s, v))
    && (forall t, v :: after.Stored(t, v) <==> before.Stored(t, v) && t != s)
    && (forall t, v :: after.Stored(t, v) ==> after.At(t, v) == before.At(t, v))
  }

  lemma PermanentSubjectDeleteStep(st: State, s: Subject)
    requires Inv(st.db) && PlanDeleteSubject(st, s, true).reply.Deleted?
    ensures var plan := PlanDeleteSubject(st, s, true);
            plan.counter == st.counter && DeletedForGood(st.db, ApplyAll(st.db, plan.records), s, plan.reply.versions)
  {
    var db := st.db;
    LiveVersionsSpec(db, s);
    forall v | db.Stored(s, v) ensures db.SoftDeleted(s, v) {
      assert !db.Live(s, v);
    }
    TombstonesApplied(db, s, db.Versions(s).keys);
  }

  /** A permanent subject delete answers with exactly the stored versions and removes the subject;
      every other subject keeps its versions. */
  lemma PermanentSubjectDelete(canRead: CanRead, mode: Mode, requests: seq<Request>, s: Subject)
    requires PlanDeleteSubject(Run(canRead, mode, requests).st, s, true).reply.Deleted?
    ensures var before := Run(canRead, mode, requests);
            var after := Exec(canRead, before, DeleteSubject(s, true));
            DeletedForGood(before.st.db, after.st.db, s, PlanDeleteSubject(before.st, s, true).reply.versions)
  {
    RunOk(canRead, mode, requests);
    var before := Run(canRead, mode, requests);
    PermanentSubjectDeleteStep(before.st, s);
    ExecDb(canRead, before, DeleteSubject(s, true));
  }

  // ---------------------------------------------------------------- the fingerprint index

  /** A live version with this id and the text and references of this schema. */
  ghost predicate HoldsSchema(db: Db, s: Subject, v: int, schema: TypedSchema, id: int) {
    && db.Live(s, v) && db.At(s, v).id == id
    && db.At(s, v).schema.text == schema.text && db.At(s, v).schema.references == schema.references
  }

  /** The fast lookup refines a scan: an id it returns belongs to a live version of the subject
      with the same text and references. */
  lemma LookupRefinesScan(canRead: CanRead, mode: Mode, requests: seq<Request>, s: Subject, schema: TypedSchema)
    requires Run(canRead, mode, requests).st.db.Lookup(s, schema).Some?
    ensures var db := Run(canRead, mode, requests).st.db;
            exists v :: HoldsSchema(db, s, v, schema, db.Lookup(s, schema).value)
  {
    RunOk(canRead, mode, requests);
    var db := Run(canRead, mode, requests).st.db;
    var v :| Indexes(db, s, v, schema.Fp(), db.Lookup(s, schema).value);
    assert HoldsSchema(db, s, v, schema, db.Lookup(s, schema).value);
  }

  lemma RegisteredIsLiveStep(canRead: CanRead, w: World, s: Subject, schema: TypedSchema)
    requires Inv(w.st.db)
    requires PlanRegister(canRead, w.st, s, schema).reply.Registered?
    ensures exists v :: Indexes(Exec(canRead, w, Register(s, schema)).st.db, s, v, schema.Fp(),
                                PlanRegister(canRead, w.st, s, schema).reply.id)
  {
    var db, plan := w.st.db, PlanRegister(canRead, w.st, s, schema);
    if plan.records == [] {
      assert Exec(canRead, w, Register(s, schema)).st.db == db;
      assert exists v :: Indexes(db, s, v, schema.Fp(), db.index[s][schema.Fp()]);
    } else {
      var r := plan.records[0];
      assert Accepted(db, r);
      ExecSingle(canRead, w, Register(s, schema), r);
      UnderstoodSettled(db, schema);
      InsertFrame(db, s, r.id, r.version, false, schema);
      assert Indexes(Apply(db, r), s, r.version, schema.Fp(), r.id);
    }
  }

  /** Once a registration answered with an id, the subject has a live version with that id, that text and those
      references. */
  lemma RegisteredIsLive(canRead: CanRead, mode: Mode, requests: seq<Request>, s: Subject, schema: TypedSchema)
    requires PlanRegister(canRead, Run(canRead, mode, requests).st, s, schema).reply.Registered?
    ensures var w := Run(canRead, mode, requests);
            exists v :: HoldsSchema(Exec(canRead, w, Register(s, schema)).st.db, s, v, schema,
                                    PlanRegister(canRead, w.st, s, schema).reply.id)
  {
    RunOk(canRead, mode, requests);
    var w := Run(canRead, mode, requests);
    RegisteredIsLiveStep(canRead, w, s, schema);
    var after, id := Exec(canRead, w, Register(s, schema)).st.db, PlanRegister(canRead, w.st, s, schema).reply.id;
    var v :| Indexes(after, s, v, schema.Fp(), id);
    assert HoldsSchema(after, s, v, schema, id);
  }

  ghost predicate Indexed(db: Db, s: Subject, fp: Fingerprint) { s in db.index && fp in db.index[s] }

  /** The index knows every live version of the subject. */
  ghost predicate IndexComplete(db: Db, s: Subject) {
    forall v :: db.Live(s, v) ==> Indexed(db, s, db.At(s, v).schema.Fp())
  }

  /** The delete takes away a version whose text and references another live version shares. */
  ghost predicate DropsTwin(db: Db, r: Record, s: Subject) {
    && (r.Tombstone? || (r.SchemaRecord? && r.deleted && Accepted(db, r)))
    && r.subject == s && db.Stored(s, r.version)
    && exists w :: w != r.version && db.Live(s, w) && db.At(s, w).schema.Fp() == db.At(s, r.version).schema.Fp()
  }

  lemma UnindexSpec(index: Index, s: Subject, fps: set<Fingerprint>, t: Subject, fp: Fingerprint)
    ensures var rest := Unindex(index, s, fps);
            t in rest && fp in rest[t] <==> t in index && fp in index[t] && !(t == s && fp in fps)
  {
    if s in index { assert fp in index[s] && fp !in fps ==> fp in index[s] - fps; }
  }

  lemma InsertDropsTwin(db: Db, r: Record, s: Subject, d: Db)
    requires Legit(db, r) && r.SchemaRecord? && DropsTwin(db, r, s) && db.Cached(r.schema).Fp() == r.schema.Fp()
    requires d == db.InsertSchemaVersion(r.subject, r.id, r.version, r.deleted, r.schema)
    ensures !IndexComplete(d, s)
  {
    var v, fp := r.version, r.schema.Fp();
    InsertFrame(db, r.subject, r.id, v, r.deleted, r.schema);
    var w :| w != v && db.Live(s, w) && db.At(s, w).schema.Fp() == db.At(s, v).schema.Fp();
    UnindexSpec(db.index, s, {fp}, s, fp);
    assert d.Live(s, w) && !Indexed(d, s, d.At(s, w).schema.Fp());
  }

  lemma InsertKeepsComplete(db: Db, r: Record, s: Subject, d: Db)
    requires Legit(db, r) && r.SchemaRecord? && Accepted(db, r) && !DropsTwin(db, r, s) && IndexComplete(db, s) &&
             db.Cached(r.schema).Fp() == r.schema.Fp()
    requires d == db.InsertSchemaVersion(r.subject, r.id, r.version, r.deleted, r.schema)
    ensures IndexComplete(d, s)
  {
    var v, fp := r.version, r.schema.Fp();
    InsertFrame(db, r.subject, r.id, v, r.deleted, r.schema);
    forall w | d.Live(s, w) ensures Indexed(d, s, d.At(s, w).schema.Fp()) {
      var other := d.At(s, w).schema.Fp();
      if (r.subject, v) != (s, w) {
        assert db.Live(s, w) && Indexed(db, s, other);
        UnindexSpec(db.index, r.subject, {fp}, s, other);
      }
    }
  }

  lemma IndexCompleteAfterInsert(db: Db, r: Record, s: Subject)
    requires Inv(db) && Legit(db, r) && IndexComplete(db, s) && r.SchemaRecord? && Accepted(db, r)
    ensures IndexComplete(Apply(db, r), s) <==> !DropsTwin(db, r, s)
  {
    var d := db.InsertSchemaVersion(r.subject, r.id, r.version, r.deleted, r.schema);
    UnderstoodSettled(db, r.schema);
    assert Apply(db, r) == d && db.Cached(r.schema).Fp() == r.schema.Fp();
    if DropsTwin(db, r, s) { InsertDropsTwin(db, r, s, d); } else { InsertKeepsComplete(db, r, s, d); }
  }

  lemma IndexCompleteAfterHardDelete(db: Db, t: Subject, v: int, s: Subject)
    requires Inv(db) && db.SoftDeleted(t, v) && IndexComplete(db, s)
    ensures IndexComplete(HardDelete(db, t, v), s) <==> !DropsTwin(db, Tombstone(t, v), s)
  {
    var db', fp := HardDelete(db, t, v), db.At(t, v).schema.Fp();
    HardDeleteFrame(db, t, v);
    if DropsTwin(db, Tombstone(t, v), s) {
      var w :| w != v && db.Live(s, w) && db.At(s, w).schema.Fp() == db.At(s, v).schema.Fp();
      UnindexSpec(db.index, s, {fp}, s, fp);
      assert db'.Live(s, w) && !Indexed(db', s, db'.At(s, w).schema.Fp());
    } else {
      forall w | db'.Live(s, w) ensures Indexed(db', s, db'.At(s, w).schema.Fp()) {
        var other := db'.At(s, w).schema.Fp();
        assert db.Live(s, w) && Indexed(db, s, other);
        UnindexSpec(db.index, t, {fp}, s, other);
      }
    }
  }

  lemma IndexCompleteAfterDeleteSubject(db: Db, t: Subject, v: int, s: Subject)
    requires Legit(db, DeleteSubjectRecord(t, v)) && IndexComplete(db, s)
    ensures IndexComplete(db.DeleteSubject(t, v), s)
  {
    var db' := db.DeleteSubject(t, v);
    DeleteSubjectFrame(db, t, v);
    if s != t { assert s in db.index ==> s in db'.index && db'.index[s] == db.index[s]; }
    forall w | db'.Live(s, w) ensures Indexed(db', s, db'.At(s, w).schema.Fp()) {
      assert db.Live(s, w);
    }
  }

  /** The index stays complete exactly when the record does not delete a twin of a live version. */
  lemma IndexCompleteIff(db: Db, r: Record, s: Subject)
    requires Inv(db) && Legit(db, r) && IndexComplete(db, s)
    ensures IndexComplete(Apply(db, r), s) <==> !DropsTwin(db, r, s)
  {
    match r
    case SchemaRecord(_, _, _, _, _) => if Accepted(db, r) { IndexCompleteAfterInsert(db, r, s); }
    case Tombstone(t, v) => IndexCompleteAfterHardDelete(db, t, v, s);
    case DeleteSubjectRecord(t, v) => IndexCompleteAfterDeleteSubject(db, t, v, s);
    case ConfigRecord(target, m) =>
      ConfigureFrame(db, target, m);
      var db' := Apply(db, r);
      assert db'.Versions(s) == db.Versions(s);
      assert forall v :: db.Live(s, v) ==> db'.Live(s, v) && db'.At(s, v) == db.At(s, v);
      assert forall v :: db'.Live(s, v) ==> db.Live(s, v);
    case Noop =>
  }

  lemma AcceptedWithoutReferences(db: Db, r: Record)
    requires r.SchemaRecord? ==> r.schema.references == []
    ensures Accepted(db, r)
  {
    if r.SchemaRecord? { assert ResolveAll(db, r.schema.references, 0).Some?; }
  }

  lemma WrittenSnoc(log: seq<Record>, r: Record)
    requires RegistryWritten(log) && Legit(Replay(log), r)
    ensures RegistryWritten(log + [r]) && Replay(log + [r]) == Apply(Replay(log), r)
  {
    assert [r][..0] == [];
    WrittenAppend(log, [r]);
    ReplaySnoc(log, r);
  }

  /** The subject `s` holds exactly the versions of `content`, all of schema `x` under one id. */
  ghost predicate Holds(db: Db, s: Subject, x: TypedSchema, content: map<int, bool>) {
    && (forall v :: db.Stored(s, v) <==> v in content)
    && (forall v :: v in content ==> db.At(s, v) == SchemaVersion(v, content[v], 1, x))
    && db.Cached(x) == x && (forall v :: db.ReferencedBy(s, v) == {})
    && (forall id :: id in db.schemas.entries ==> db.schemas.entries[id] == x)
  }

  lemma HoldsLegit(db: Db, s: Subject, x: TypedSchema, content: map<int, bool>, v: int, deleted: bool)
    requires Holds(db, s, x, content) && Settled(x) && v >= 1
    requires if deleted then v in content && !content[v] else forall w :: w in content ==> w < v
    ensures Legit(db, SchemaRecord(s, v, 1, x, deleted))
  {
  }

  /** Writing schema `x` as version `v`, live or soft-deleted. */
  lemma HoldsInsert(db: Db, s: Subject, x: TypedSchema, content: map<int, bool>, v: int, deleted: bool)
    requires Holds(db, s, x, content) && Settled(x) && x.references == [] && v >= 1
    requires if deleted then v in content && !content[v] else forall w :: w in content ==> w < v
    ensures var r := SchemaRecord(s, v, 1, x, deleted);
            Legit(db, r) && Holds(Apply(db, r), s, x, content[v := deleted])
  {
    HoldsLegit(db, s, x, content, v, deleted);
    HoldsAfter(db, s, x, content, v, deleted);
  }

  lemma InsertedIs(db: Db, s: Subject, x: TypedSchema, v: int, deleted: bool)
    requires Settled(x) && x.references == []
    ensures Apply(db, SchemaRecord(s, v, 1, x, deleted)) == db.InsertSchemaVersion(s, 1, v, deleted, x)
  {
    AcceptedWithoutReferences(db, SchemaRecord(s, v, 1, x, deleted));
    UnderstoodSettled(db, x);
  }

  lemma HoldsTables(db: Db, s: Subject, x: TypedSchema, content: map<int, bool>, v: int, deleted: bool)
    requires Holds(db, s, x, content) && x.references == []
    ensures var d := db.InsertSchemaVersion(s, 1, v, deleted, x);
            && d.Cached(x) == x && (forall w :: d.ReferencedBy(s, w) == {})
            && (forall id :: id in d.schemas.entries ==> d.schemas.entries[id] == x)
  {
    var d := db.InsertSchemaVersion(s, 1, v, deleted, x);
    assert RefKeys(x.references) == {};
    assert forall w :: d.ReferencedBy(s, w) == db.ReferencedBy(s, w);
  }

  lemma HoldsVersions(db: Db, s: Subject, x: TypedSchema, content: map<int, bool>, v: int, deleted: bool)
    requires Holds(db, s, x, content)
    ensures var d, now := db.InsertSchemaVersion(s, 1, v, deleted, x), content[v := deleted];
            && (forall w :: d.Stored(s, w) <==> w in now)
            && (forall w :: w in now ==> d.At(s, w) == SchemaVersion(w, now[w], 1, x))
  {
    var d := db.InsertSchemaVersion(s, 1, v, deleted, x);
    assert d.Versions(s).entries == db.Versions(s).entries[v := SchemaVersion(v, deleted, 1, x)];
    forall w | w in content ensures db.Stored(s, w) && db.Versions(s).entries[w] == SchemaVersion(w, content[w], 1, x) {
      assert db.At(s, w) == db.Versions(s).entries[w];
    }
  }

  lemma HoldsAfter(db: Db, s: Subject, x: TypedSchema, content: map<int, bool>, v: int, deleted: bool)
    requires Holds(db, s, x, content) && Settled(x) && x.references == []
    ensures Holds(Apply(db, SchemaRecord(s, v, 1, x, deleted)), s, x, content[v := deleted])
  {
    InsertedIs(db, s, x, v, deleted);
    HoldsTables(db, s, x, content, v, deleted);
    HoldsVersions(db, s, x, content, v, deleted);
  }

  ghost predicate HoldsLog(log: seq<Record>, s: Subject, x: TypedSchema, content: map<int, bool>) {
    RegistryWritten(log) && Holds(Replay(log), s, x, content)
  }

  lemma HoldsSnoc(log: seq<Record>, s: Subject, x: TypedSchema, content: map<int, bool>, v: int, deleted: bool)
    requires HoldsLog(log, s, x, content) && Settled(x) && x.references == [] && v >= 1
    requires if deleted then v in content && !content[v] else forall w :: w in content ==> w < v
    ensures HoldsLog(log + [SchemaRecord(s, v, 1, x, deleted)], s, x, content[v := deleted])
  {
    HoldsInsert(Replay(log), s, x, content, v, deleted);
    WrittenSnoc(log, SchemaRecord(s, v, 1, x, deleted));
  }

  lemma TombstoneHidesTwin(log: seq<Record>, s: Subject, x: TypedSchema)
    requires HoldsLog(log, s, x, map[1 := true, 2 := false])
    ensures var log' := log + [Tombstone(s, 1)];
            RegistryWritten(log') && Replay(log').Live(s, 2) && !IndexComplete(Replay(log'), s)
  {
    var db := Replay(log);
    WrittenSnoc(log, Tombstone(s, 1));
    HardDeleteFrame(db, s, 1);
    UnindexSpec(db.index, s, {x.Fp()}, s, x.Fp());
    assert HardDelete(db, s, 1).Live(s, 2) && !Indexed(HardDelete(db, s, 1), s, x.Fp());
  }

  /** The index is not complete along every run: registered, soft-deleted, registered again, and the old
      version hard-deleted, a live version is missing from it. */
  lemma IndexCanLoseLiveVersion(s: Subject, x: TypedSchema)
    requires Settled(x) && x.references == []
    ensures var log := [] + [SchemaRecord(s, 1, 1, x, false)] + [SchemaRecord(s, 1, 1, x, true)] +
                       [SchemaRecord(s, 2, 1, x, false)] + [Tombstone(s, 1)];
            RegistryWritten(log) && Replay(log).Live(s, 2) && !IndexComplete(Replay(log), s)
  {
    var log0: seq<Record> := [];
    var log1 := log0 + [SchemaRecord(s, 1, 1, x, false)];
    var log2 := log1 + [SchemaRecord(s, 1, 1, x, true)];
    var log3 := log2 + [SchemaRecord(s, 2, 1, x, false)];
    HoldsSnoc(log0, s, x, map[], 1, false);
    HoldsSnoc(log1, s, x, map[1 := false], 1, true);
    assert map[1 := false][1 := true] == map[1 := true];
    HoldsSnoc(log2, s, x, map[1 := true], 2, false);
    TombstoneHidesTwin(log3, s, x);
  }

  // ---------------------------------------------------------------- the referenced-by index

  ghost predicate GenuineRefusal(db: Db, s: Subject, error: Error)
    requires error.ReferenceExists?
  {
    && db.Stored(s, error.version)
    && error.referents != {}
    && forall id :: id in error.referents ==> exists t, w :: Refers(db, t, w, id, (s, error.version))
  }

  lemma VersionRefusal(st: State, s: Subject, version: int, permanent: bool)
    requires Inv(st.db)
    ensures var reply := PlanDeleteVersion(st, s, version, permanent).reply;
            reply.Failed? && reply.error.ReferenceExists? ==> GenuineRefusal(st.db, s, reply.error)
  {
  }

  lemma SubjectRefusal(st: State, s: Subject, permanent: bool)
    requires Inv(st.db)
    ensures var reply := PlanDeleteSubject(st, s, permanent).reply;
            reply.Failed? && reply.error.ReferenceExists? ==> GenuineRefusal(st.db, s, reply.error)
  {
    LiveVersionsSpec(st.db, s);
    FirstReferencedSpec(st.db, s, st.db.Versions(s).keys);
    var live := LiveVersions(st.db.Versions(s));
    if live != [] { assert live[|live| - 1] in live; }
  }

  /** A delete refused with ReferenceExists names a stored version and at least one referent of it, and every
      referent it names is the id of a stored version that references it. */
  lemma RefusalHasBlocker(canRead: CanRead, mode: Mode, requests: seq<Request>, request: Request)
    requires request.DeleteVersion? || request.DeleteSubject?
    requires var reply := PlanOf(canRead, Run(canRead, mode, requests).st, request).reply;
             reply.Failed? && reply.error.ReferenceExists?
    ensures var st := Run(canRead, mode, requests).st;
            GenuineRefusal(st.db, request.subject, PlanOf(canRead, st, request).reply.error)
  {
    RunOk(canRead, mode, requests);
    var st := Run(canRead, mode, requests).st;
    match request
    case DeleteVersion(s, v, permanent) => VersionRefusal(st, s, v, permanent);
    case DeleteSubject(s, permanent) => SubjectRefusal(st, s, permanent);
  }

  /** Every live version is known to the versions it references. */
  ghost predicate ReferentsComplete(db: Db) {
    forall s, v, key :: db.Live(s, v) && key in RefKeys(db.At(s, v).schema.references) ==>
      db.At(s, v).id in db.ReferencedBy(key.0, key.1)
  }

  /** The tombstone removes a version with references whose id a live version elsewhere still uses. */
  ghost predicate DropsSharedId(db: Db, r: Record) {
    && r.Tombstone? && db.Stored(r.subject, r.version)
    && db.At(r.subject, r.version).schema.references != []
    && exists t, w :: db.Live(t, w) && db.At(t, w).id == db.At(r.subject, r.version).id
  }

  lemma InsertReferents(db: Db, r: Record)
    requires Inv(db) && Legit(db, r) && ReferentsComplete(db) && r.SchemaRecord? && Accepted(db, r)
    ensures ReferentsComplete(Apply(db, r))
  {
    var db' := Apply(db, r);
    UnderstoodSettled(db, r.schema);
    InsertFrame(db, r.subject, r.id, r.version, r.deleted, r.schema);
    assert db.Cached(r.schema).Fp() == r.schema.Fp();
    forall s, w, key | db'.Live(s, w) && key in RefKeys(db'.At(s, w).schema.references)
      ensures db'.At(s, w).id in db'.ReferencedBy(key.0, key.1)
    {
      assert key == (key.0, key.1);
      if (s, w) != (r.subject, r.version) {
        assert db.Live(s, w) && db.At(s, w) == db'.At(s, w);
        assert db.At(s, w).id in db.ReferencedBy(key.0, key.1);
      }
    }
  }

  /** The referenced-by index stays complete exactly when no hard delete drops an id still in use. */
  lemma ReferentsCompleteIff(db: Db, r: Record)
    requires Inv(db) && Legit(db, r) && ReferentsComplete(db)
    ensures ReferentsComplete(Apply(db, r)) <==> !DropsSharedId(db, r)
  {
    match r
    case SchemaRecord(_, _, _, _, _) => if Accepted(db, r) { InsertReferents(db, r); }
    case Tombstone(t, v) => HardDeleteReferents(db, t, v);
    case DeleteSubjectRecord(t, v) => DeleteSubjectFrame(db, t, v); UnchangedReferents(db, Apply(db, r));
    case ConfigRecord(target, m) => ConfigureFrame(db, target, m); UnchangedReferents(db, Apply(db, r));
    case Noop =>
  }

  lemma UnchangedReferents(db: Db, db': Db)
    requires ReferentsComplete(db) && db'.referencedBy == db.referencedBy
    requires forall s, v :: db'.Live(s, v) ==> db.Live(s, v) && db'.At(s, v) == db.At(s, v)
    ensures ReferentsComplete(db')
  {
    forall s, w, key | db'.Live(s, w) && key in RefKeys(db'.At(s, w).schema.references)
      ensures db'.At(s, w).id in db'.ReferencedBy(key.0, key.1)
    {
      assert db.At(s, w).id in db.ReferencedBy(key.0, key.1);
    }
  }

  lemma HardDeleteDropsShared(db: Db, t: Subject, v: int, d: Db)
    requires Interned(db) && db.SoftDeleted(t, v) && d == HardDelete(db, t, v) && DropsSharedId(db, Tombstone(t, v))
    ensures !ReferentsComplete(d)
  {
    HardDeleteFrame(db, t, v);
    var gone := db.At(t, v);
    var s, w :| db.Live(s, w) && db.At(s, w).id == gone.id;
    assert db.At(s, w).schema == gone.schema;
    var key := RefKey(gone.schema.references[0]);
    assert key in RefKeys(gone.schema.references);
    assert d.referencedBy == RemoveReferent(db.referencedBy, gone.schema.references, gone.id);
    assert d.Live(s, w) && d.At(s, w).schema == gone.schema;
    assert gone.id !in d.ReferencedBy(key.0, key.1);
  }

  lemma HardDeleteKeepsComplete(db: Db, t: Subject, v: int, d: Db)
    requires db.SoftDeleted(t, v) && d == HardDelete(db, t, v) && ReferentsComplete(db) &&
             !DropsSharedId(db, Tombstone(t, v))
    ensures ReferentsComplete(d)
  {
    HardDeleteFrame(db, t, v);
    var gone := db.At(t, v);
    assert d.referencedBy == RemoveReferent(db.referencedBy, gone.schema.references, gone.id);
    forall s, w, key | d.Live(s, w) && key in RefKeys(d.At(s, w).schema.references)
      ensures d.At(s, w).id in d.ReferencedBy(key.0, key.1)
    {
      assert db.Live(s, w) && db.At(s, w) == d.At(s, w);
      assert key == (key.0, key.1) && db.At(s, w).id in db.referencedBy[key];
      if key in RefKeys(gone.schema.references) { assert db.At(s, w).id != gone.id; }
    }
  }

  lemma HardDeleteReferents(db: Db, t: Subject, v: int)
    requires Inv(db) && db.SoftDeleted(t, v) && ReferentsComplete(db)
    ensures ReferentsComplete(HardDelete(db, t, v)) <==> !DropsSharedId(db, Tombstone(t, v))
  {
    var d := HardDelete(db, t, v);
    if DropsSharedId(db, Tombstone(t, v)) {
      HardDeleteDropsShared(db, t, v, d);
    } else {
      HardDeleteKeepsComplete(db, t, v, d);
    }
  }
}
