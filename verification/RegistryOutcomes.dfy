/** What each operation answers and changes, told from the outside: which version is meant, when the answer is yes, and
    that everything else stays as it was. */
module RegistryOutcomes {
  import opened SchemaModels
  import opened Database
  import opened SchemaReader
  import opened SchemaRegistry
  import opened RegistryInvariant
  import opened RegistryRuns
  import opened RegistryTheorems
  import opened Compatibility
  import opened References
  import opened LiveReferences

  /** Every version but (s, v) is as it was. */
  ghost predicate OthersKept(before: Db, after: Db, s: Subject, v: int) {
    forall t, w :: (t, w) != (s, v) ==>
      (after.Stored(t, w) <==> before.Stored(t, w)) && (before.Stored(t, w) ==> after.At(t, w) == before.At(t, w))
  }

  // ---------------------------------------------------------------- deleting a version

  /** The version a delete request means: the one it names, or for the alias the greatest one that is stored, and that
      is live unless the delete is permanent. */
  ghost predicate Meant(db: Db, s: Subject, version: int, permanent: bool, v: int) {
    if version != LATEST then v == version
    else && (if permanent then db.Stored(s, v) else db.Live(s, v))
         && forall w :: (if permanent then db.Stored(s, w) else db.Live(s, w)) ==> w <= v
  }

  /** In the right phase for the delete, and referenced by nothing. */
  ghost predicate Deletable(db: Db, s: Subject, v: int, permanent: bool) {
    (if permanent then db.SoftDeleted(s, v) else db.Live(s, v)) && db.ReferencedBy(s, v) == {}
  }

  /** The reader accepts a record with this schema. */
  ghost predicate Readable(db: Db, schema: TypedSchema) {
    schema.schemaType.JsonSchema? || Resolvable(db, schema.references)
  }

  /** Deletable, and the record of the delete will be accepted. */
  ghost predicate Removable(db: Db, s: Subject, v: int, permanent: bool) {
    Deletable(db, s, v, permanent) && (permanent || Readable(db, db.At(s, v).schema))
  }

  lemma CandidatesMeant(db: Db, s: Subject, permanent: bool)
    requires Inv(db)
    ensures var candidates := if permanent then db.Versions(s).keys else LiveVersions(db.Versions(s));
            && (forall w :: w in candidates <==> if permanent then db.Stored(s, w) else db.Live(s, w))
            && (candidates != [] ==> Meant(db, s, LATEST, permanent, Max(candidates)))
  {
    LiveVersionsSpec(db, s);
    var candidates := if permanent then db.Versions(s).keys else LiveVersions(db.Versions(s));
    if candidates != [] { MaxSpec(candidates); }
  }

  lemma VersionDeleteDecides(st: State, s: Subject, version: int, permanent: bool)
    requires Inv(st.db)
    ensures var plan := PlanDeleteVersion(st, s, version, permanent);
            && plan.counter == st.counter
            && (plan.records != [] <==>
                 exists v :: Meant(st.db, s, version, permanent, v) && Deletable(st.db, s, v, permanent))
            && (plan.records != [] ==> exists v :: Decided(st, s, version, permanent, v, plan))
            && (plan.reply.Deleted? || plan.reply == Failed(SendTimedOut) ==> plan.records != [])
  {
    var db, plan := st.db, PlanDeleteVersion(st, s, version, permanent);
    CandidatesMeant(db, s, permanent);
    if v :| Meant(db, s, version, permanent, v) && Deletable(db, s, v, permanent) {
      assert db.Stored(s, v) && v in db.Versions(s).keys;
      if version == LATEST { MeantUnique(db, s, permanent, v); }
    }
    if plan.records != [] {
      assert |plan.records| == 1;
      assert Decided(st, s, version, permanent, plan.records[0].version, plan);
    }
  }

  /** The record of a delete that found its version, and the answer to it. */
  ghost predicate Decided(st: State, s: Subject, version: int, permanent: bool, v: int, plan: Plan) {
    && Meant(st.db, s, version, permanent, v) && Deletable(st.db, s, v, permanent)
    && plan.records == [if permanent then Tombstone(s, v)
                        else SchemaRecord(s, v, st.db.At(s, v).id, st.db.At(s, v).schema, true)]
    && plan.reply == if Removable(st.db, s, v, permanent) then Deleted([v]) else Failed(SendTimedOut)
  }

  lemma OneMeant(db: Db, s: Subject, version: int, permanent: bool, v: int, w: int)
    requires Meant(db, s, version, permanent, v) && Meant(db, s, version, permanent, w)
    ensures v == w
  {
  }

  lemma MeantUnique(db: Db, s: Subject, permanent: bool, v: int)
    requires Inv(db) && Meant(db, s, LATEST, permanent, v)
    ensures var candidates := if permanent then db.Versions(s).keys else LiveVersions(db.Versions(s));
            candidates != [] && Max(candidates) == v
  {
    CandidatesMeant(db, s, permanent);
    var candidates := if permanent then db.Versions(s).keys else LiveVersions(db.Versions(s));
    assert v in candidates;
    MaxSpec(candidates);
  }

  /** A version delete succeeds exactly when the version it means is in the right phase, unreferenced, and, for a soft
      delete, has references that can still be resolved; it answers with that version. A failed one changes nothing in
      memory, and leaves a record on the topic exactly when it failed because of those references. */
  lemma VersionDeleteAnswer(canRead: CanRead, mode: Mode, requests: seq<Request>, s: Subject, version: int,
                            permanent: bool)
    ensures var w := Run(canRead, mode, requests);
            var db, reply := w.st.db, PlanDeleteVersion(w.st, s, version, permanent).reply;
            var after := Exec(canRead, w, DeleteVersion(s, version, permanent));
            && (reply.Deleted? <==> exists v :: Meant(db, s, version, permanent, v) && Removable(db, s, v, permanent))
            && (reply.Deleted? ==> |reply.versions| == 1 && Meant(db, s, version, permanent, reply.versions[0]))
            && (!reply.Deleted? ==> after.st == w.st)
            && (!reply.Deleted? ==> (after.log != w.log <==> reply == Failed(SendTimedOut)))
            && (reply == Failed(SendTimedOut) <==>
                  exists v :: Meant(db, s, version, permanent, v) && Deletable(db, s, v, permanent) &&
                    !Removable(db, s, v, permanent))
  {
    RunOk(canRead, mode, requests);
    var w := Run(canRead, mode, requests);
    ReplayInv(w.log);
    VersionDeleteDecides(w.st, s, version, permanent);
    var plan := PlanDeleteVersion(w.st, s, version, permanent);
    if plan.records == [] {
      assert w.log + [] == w.log;
    } else {
      var v :| Decided(w.st, s, version, permanent, v, plan);
      forall u | Meant(w.st.db, s, version, permanent, u) ensures u == v {
        OneMeant(w.st.db, s, version, permanent, u, v);
      }
      RefusedChangesNothing(canRead, w, DeleteVersion(s, version, permanent), plan.records[0]);
    }
  }

  /** A refused record stays on the topic and changes nothing in memory. */
  lemma RefusedChangesNothing(canRead: CanRead, w: World, request: Request, r: Record)
    requires PlanOf(canRead, w.st, request).records == [r] && PlanOf(canRead, w.st, request).counter == w.st.counter
    ensures Exec(canRead, w, request).log == w.log + [r]
    ensures !Accepted(w.st.db, r) ==> Exec(canRead, w, request).st == w.st
  {
    assert [r][..0] == [] && HandleAll(w.st, []) == w.st;
    assert HandleAll(w.st, [r]) == HandleMsg(w.st, r);
  }

  lemma StoredReadableIff(canRead: CanRead, mode: Mode, requests: seq<Request>, s: Subject, v: int)
    requires Run(canRead, mode, requests).st.db.Stored(s, v)
    ensures var db := Run(canRead, mode, requests).st.db;
            Readable(db, db.At(s, v).schema) <==> LeadsToLive(db, db.At(s, v).schema.references)
  {
    RunOk(canRead, mode, requests);
    var w := Run(canRead, mode, requests);
    var schema := w.st.db.At(s, v).schema;
    assert Settled(schema);
    forall r | r in schema.references ensures r.version != LATEST { NotLatest(schema, r); }
    ResolvableIff(w.log, schema.references);
  }

  /** In every state reached, a soft delete of a live version without known referents fails if and only if its own
      references lead to a version that is not live; it then leaves the version live. */
  lemma SoftDeleteFailsIff(canRead: CanRead, mode: Mode, requests: seq<Request>, s: Subject, v: int)
    requires v != LATEST && Deletable(Run(canRead, mode, requests).st.db, s, v, false)
    ensures var w := Run(canRead, mode, requests);
            var reply := PlanDeleteVersion(w.st, s, v, false).reply;
            var after := Exec(canRead, w, DeleteVersion(s, v, false));
            && (reply == Failed(SendTimedOut) <==> !LeadsToLive(w.st.db, w.st.db.At(s, v).schema.references))
            && (reply.Failed? <==> reply == Failed(SendTimedOut))
            && (after.st.db.Live(s, v) <==> reply.Failed?)
  {
    var w := Run(canRead, mode, requests);
    VersionDeleteAnswer(canRead, mode, requests, s, v, false);
    assert Meant(w.st.db, s, v, false, v);
    StoredReadableIff(canRead, mode, requests, s, v);
    if PlanDeleteVersion(w.st, s, v, false).reply.Deleted? {
      VersionDeleteEffect(canRead, mode, requests, s, v, false);
    }
  }

  /** The version is gone (permanent) or soft-deleted, and every other version is as it was. */
  ghost predicate VersionDeleted(before: Db, after: Db, s: Subject, v: int, permanent: bool) {
    && before.Stored(s, v) && OthersKept(before, after, s, v)
    && if permanent then !after.Stored(s, v)
       else after.SoftDeleted(s, v) && after.At(s, v).id == before.At(s, v).id
  }

  lemma VersionDeleteApplied(st: State, s: Subject, version: int, permanent: bool)
    requires Inv(st.db) && PlanDeleteVersion(st, s, version, permanent).reply.Deleted?
    ensures var plan := PlanDeleteVersion(st, s, version, permanent);
            && |plan.records| == 1 && |plan.reply.versions| == 1
            && VersionDeleted(st.db, Apply(st.db, plan.records[0]), s, plan.reply.versions[0], permanent)
  {
    VersionDeleteDecides(st, s, version, permanent);
    var plan := PlanDeleteVersion(st, s, version, permanent);
    var v :| Decided(st, s, version, permanent, v, plan);
    if permanent { HardDeleteFrame(st.db, s, v); } else { SoftDeleteEffect(st.db, s, v, plan.records[0]); }
  }

  /** After a successful version delete exactly the version it answered with has moved on. */
  lemma VersionDeleteEffect(canRead: CanRead, mode: Mode, requests: seq<Request>, s: Subject, version: int,
                            permanent: bool)
    requires PlanDeleteVersion(Run(canRead, mode, requests).st, s, version, permanent).reply.Deleted?
    ensures var w := Run(canRead, mode, requests);
            var reply := PlanDeleteVersion(w.st, s, version, permanent).reply;
            |reply.versions| == 1 &&
            VersionDeleted(w.st.db, Exec(canRead, w, DeleteVersion(s, version, permanent)).st.db, s, reply.versions[0],
              permanent)
  {
    RunOk(canRead, mode, requests);
    var w := Run(canRead, mode, requests);
    ReplayInv(w.log);
    VersionDeleteApplied(w.st, s, version, permanent);
    var plan := PlanDeleteVersion(w.st, s, version, permanent);
    assert plan.records == [plan.records[0]];
    ExecSingle(canRead, w, DeleteVersion(s, version, permanent), plan.records[0]);
  }

  lemma SoftDeleteEffect(db: Db, s: Subject, v: int, r: Record)
    requires Inv(db) && db.Live(s, v) && r == SchemaRecord(s, v, db.At(s, v).id, db.At(s, v).schema, true)
    ensures var after := Apply(db, r);
            && OthersKept(db, after, s, v) && after.Stored(s, v) && after.At(s, v).id == db.At(s, v).id
            && (after.SoftDeleted(s, v) <==> Accepted(db, r))
  {
    assert Settled(db.At(s, v).schema);
    UnderstoodSettled(db, r.schema);
    if Accepted(db, r) { InsertFrame(db, s, r.id, v, true, r.schema); }
  }

  // ---------------------------------------------------------------- registering

  /** What a registration that sends a record sends: the next version above all stored ones, soft-deleted ones included,
      under the id of an equal schema if one is stored and a new id otherwise. */
  ghost predicate NewVersion(st: State, s: Subject, schema: TypedSchema, r: Record) {
    && r.SchemaRecord? && r.subject == s && r.schema == schema && !r.deleted && !st.db.Stored(s, r.version)
    && (forall w :: st.db.Stored(s, w) ==> w < r.version)
    && (r.version == 1 || st.db.Stored(s, r.version - 1))
    && (if exists id :: id in st.db.schemas.entries && st.db.schemas.entries[id] == schema
        then r.id in st.db.schemas.entries && st.db.schemas.entries[r.id] == schema
        else r.id == st.counter + 1 && r.id !in st.db.schemas.entries)
  }

  lemma NextVersionFresh(db: Db, s: Subject)
    requires Inv(db)
    ensures var keys := db.Versions(s).keys;
            var next := if keys == [] then 1 else Max(keys) + 1;
            && (forall w :: db.Stored(s, w) ==> w < next) && (next == 1 || db.Stored(s, next - 1))
  {
    var keys := db.Versions(s).keys;
    if keys != [] {
      MaxSpec(keys);
      assert db.Stored(s, Max(keys));
      forall w | db.Stored(s, w) ensures w <= Max(keys) { assert w in keys; }
    } else {
      forall w ensures !db.Stored(s, w) { assert db.Stored(s, w) ==> w in keys; }
    }
  }

  lemma SchemaIdRight(st: State, schema: TypedSchema)
    requires DictsOk(st.db) && CounterCovers(st)
    ensures var (id, counter) := SchemaIdFor(st, schema);
            if exists k :: k in st.db.schemas.entries && st.db.schemas.entries[k] == schema
            then id in st.db.schemas.entries && st.db.schemas.entries[id] == schema && counter == st.counter
            else id == st.counter + 1 && id !in st.db.schemas.entries && counter == id
  {
    FindIdSpec(st.db.schemas.keys, st.db.schemas.entries, schema);
    assert forall id :: id in st.db.schemas.entries ==> id in st.db.schemas.keys;
  }

  /** The answer to a registration that sends this record. */
  ghost function AnswerTo(db: Db, r: Record): Reply
    requires r.SchemaRecord?
  {
    if Readable(db, r.schema) then Registered(r.id) else Failed(SendTimedOut)
  }

  lemma RegisterAnswers(canRead: CanRead, st: State, s: Subject, schema: TypedSchema)
    requires PlanRegister(canRead, st, s, schema).records != []
    ensures var plan, keys := PlanRegister(canRead, st, s, schema), st.db.Versions(s).keys;
            && plan.records == [SchemaRecord(s, if keys == [] then 1 else Max(keys) + 1,
                                             SchemaIdFor(st, schema).0, schema, false)]
            && plan.counter == SchemaIdFor(st, schema).1
            && Settled(schema) && plan.reply == AnswerTo(st.db, plan.records[0])
  {
  }

  lemma NextIsNew(st: State, s: Subject, schema: TypedSchema)
    requires Inv(st.db) && CounterCovers(st)
    ensures var keys := st.db.Versions(s).keys;
            NewVersion(st, s, schema, SchemaRecord(s, if keys == [] then 1 else Max(keys) + 1,
                                                   SchemaIdFor(st, schema).0, schema, false))
  {
    NextVersionFresh(st.db, s);
    SchemaIdRight(st, schema);
  }

  lemma NoneSent(canRead: CanRead, st: State, s: Subject, schema: TypedSchema)
    requires PlanRegister(canRead, st, s, schema).records == []
    ensures PlanRegister(canRead, st, s, schema).counter == st.counter
  {
  }

  lemma RegisterDecides(canRead: CanRead, st: State, s: Subject, schema: TypedSchema)
    requires Inv(st.db) && CounterCovers(st)
    ensures var plan := PlanRegister(canRead, st, s, schema);
            && (plan.records == [] || (|plan.records| == 1 && NewVersion(st, s, schema, plan.records[0])
                                        && Settled(schema) && plan.reply == AnswerTo(st.db, plan.records[0])))
            && (plan.records == [] ==> plan.counter == st.counter)
  {
    if PlanRegister(canRead, st, s, schema).records == [] {
      NoneSent(canRead, st, s, schema);
    } else {
      RegisterAnswers(canRead, st, s, schema);
      NextIsNew(st, s, schema);
    }
  }

  /** A registration sends at most one record, for a fresh version number and the right id; when it sends none nothing
      changes; it answers with that id exactly when the version is live afterwards, then under that id with that text
      and references; and no other version changed. */
  lemma RegisterEffect(canRead: CanRead, mode: Mode, requests: seq<Request>, s: Subject, schema: TypedSchema)
    ensures var w := Run(canRead, mode, requests);
            var plan, after := PlanRegister(canRead, w.st, s, schema), Exec(canRead, w, Register(s, schema));
            && (plan.records == [] ==> after == w)
            && (plan.records != [] ==>
                  && |plan.records| == 1 && NewVersion(w.st, s, schema, plan.records[0])
                  && OthersKept(w.st.db, after.st.db, s, plan.records[0].version)
                  && (plan.reply == Registered(plan.records[0].id) <==> after.st.db.Live(s, plan.records[0].version))
                  && (plan.reply == Failed(SendTimedOut) <==> !after.st.db.Live(s, plan.records[0].version))
                  && (plan.reply.Registered? ==>
                        Indexes(after.st.db, s, plan.records[0].version, schema.Fp(), plan.records[0].id)))
  {
    RunOk(canRead, mode, requests);
    var w := Run(canRead, mode, requests);
    ReplayInv(w.log);
    RegisterDecides(canRead, w.st, s, schema);
    var plan := PlanRegister(canRead, w.st, s, schema);
    assert w.log + [] == w.log;
    if plan.records != [] {
      var r := plan.records[0];
      ExecSingle(canRead, w, Register(s, schema), r);
      InsertedVersion(w.st.db, r);
    }
  }

  lemma InsertedVersion(db: Db, r: Record)
    requires Inv(db) && r.SchemaRecord? && Settled(r.schema) && !r.deleted && !db.Stored(r.subject, r.version)
    ensures var after := Apply(db, r);
            && OthersKept(db, after, r.subject, r.version)
            && (Accepted(db, r) <==> after.Live(r.subject, r.version))
            && (Accepted(db, r) ==> Indexes(after, r.subject, r.version, r.schema.Fp(), r.id))
  {
    UnderstoodSettled(db, r.schema);
    if Accepted(db, r) { InsertFrame(db, r.subject, r.id, r.version, r.deleted, r.schema); }
  }

  // ---------------------------------------------------------------- refused registrations

  /** A live version that the mode asks to be checked. */
  ghost predicate Checked(db: Db, mode: Mode, s: Subject, v: int) {
    db.Live(s, v) && (mode.IsTransitive() || forall w :: db.Live(s, w) ==> w <= v)
  }

  lemma SortedLive(db: Db, s: Subject)
    requires db.Versions(s).Ok()
    ensures var live := Sorted(LiveVersions(db.Versions(s)));
            && (forall v :: v in live <==> db.Live(s, v))
            && (live != [] ==> db.Live(s, live[|live| - 1]) && forall w :: db.Live(s, w) ==> w <= live[|live| - 1])
  {
    LiveVersionsSpec(db, s);
    SortedSpec(LiveVersions(db.Versions(s)));
    var live := Sorted(LiveVersions(db.Versions(s)));
    if live != [] { LastIsGreatest(live); }
  }

  lemma CheckedMeans(db: Db, mode: Mode, s: Subject)
    requires db.Versions(s).Ok()
    ensures forall v :: v in CheckedVersions(db, mode, s) <==> Checked(db, mode, s, v)
  {
    var live := Sorted(LiveVersions(db.Versions(s)));
    SortedLive(db, s);
    forall v ensures v in CheckedVersions(db, mode, s) <==> Checked(db, mode, s, v) {
      if live != [] && !mode.IsTransitive() {
        assert CheckedVersions(db, mode, s) == [live[|live| - 1]];
        assert Checked(db, mode, s, v) ==> live[|live| - 1] <= v <= live[|live| - 1];
      }
    }
  }

  lemma LastIsGreatest(s: seq<int>)
    requires s != [] && NonDecreasing(s)
    ensures s[|s| - 1] in s && forall x :: x in s ==> x <= s[|s| - 1]
  {
  }

  lemma {:induction false} ObstacleMeans(canRead: CanRead, db: Db, mode: Mode, s: Subject, versions: seq<int>,
                                         schema: TypedSchema)
    requires forall v :: v in versions ==> db.Stored(s, v)
    ensures Obstacle(canRead, db, mode, s, versions, schema).Some? <==>
            exists v :: v in versions &&
              (!Resolvable(db, db.At(s, v).schema.references) || !Compatible(canRead, mode, db.At(s, v).schema, schema))
  {
    if versions != [] {
      assert versions[0] in versions;
      ObstacleMeans(canRead, db, mode, s, versions[1..], schema);
      assert versions == [versions[0]] + versions[1..];
    }
  }

  /** Some version that the mode asks to be checked, all live ones for a transitive mode and the latest live one
      otherwise, is incompatible with the schema or cannot be resolved any more. */
  ghost predicate Objected(canRead: CanRead, st: State, s: Subject, schema: TypedSchema) {
    exists v :: Checked(st.db, ModeFor(st, s), s, v) &&
      (!Resolvable(st.db, st.db.At(s, v).schema.references) ||
        !Compatible(canRead, ModeFor(st, s), st.db.At(s, v).schema, schema))
  }

  /** The registration of a schema unknown to the subject fails exactly when a version objects to it or its own
      references cannot be resolved. In the first case nothing is sent; in the second alone the send times out. */
  lemma RegisterRefusedIff(canRead: CanRead, mode: Mode, requests: seq<Request>, s: Subject, schema: TypedSchema)
    requires Settled(schema) && Run(canRead, mode, requests).st.db.Lookup(s, schema).None?
    ensures var st := Run(canRead, mode, requests).st;
            var plan := PlanRegister(canRead, st, s, schema);
            && (plan.reply.Failed? <==> Objected(canRead, st, s, schema) || !Readable(st.db, schema))
            && (plan.records == [] <==> Objected(canRead, st, s, schema))
            && (plan.reply == Failed(SendTimedOut) <==> !Objected(canRead, st, s, schema) && !Readable(st.db, schema))
  {
    RunOk(canRead, mode, requests);
    var w := Run(canRead, mode, requests);
    var st, m := w.st, ModeFor(w.st, s);
    ReplayInv(w.log);
    CheckedMeans(st.db, m, s);
    ObstacleMeans(canRead, st.db, m, s, CheckedVersions(st.db, m, s), schema);
    ObstacleNames(canRead, st.db, m, s, CheckedVersions(st.db, m, s), schema);
  }

  lemma {:induction false} ObstacleNames(canRead: CanRead, db: Db, mode: Mode, s: Subject, versions: seq<int>,
                                         schema: TypedSchema)
    ensures Obstacle(canRead, db, mode, s, versions, schema)
            in {None, Some(InvalidReferences), Some(IncompatibleSchema)}
  {
    if versions != [] { ObstacleNames(canRead, db, mode, s, versions[1..], schema); }
  }
}
