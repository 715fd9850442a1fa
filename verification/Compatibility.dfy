/** Transitive compatibility modes: what checking only new schemas gives for all live versions. */
module Compatibility {
  import opened SchemaModels
  import opened Database
  import opened SchemaReader
  import opened SchemaRegistry
  import opened RegistryInvariant
  import opened RegistryRuns

  /** The registration of this request entered the database. */
  ghost predicate Enters(canRead: CanRead, w: World, request: Request) {
    && request.Register?
    && var rs := PlanRegister(canRead, w.st, request.subject, request.schema).records;
       rs != [] && Accepted(w.st.db, rs[0])
  }

  /** The mode a registration ran under, or nothing if its text and references are stored under another type. */
  ghost function ModeUsed(st: State, s: Subject, schema: TypedSchema): Option<Mode> {
    if st.db.Cached(schema) == schema then Some(ModeFor(st, s)) else None
  }

  type Usage = map<Subject, set<Option<Mode>>>

  /** Per subject, the modes its registrations ran under since it last had no live version. */
  ghost function ModesUsed(canRead: CanRead, mode: Mode, requests: seq<Request>): Usage {
    if requests == [] then map[]
    else
      var init, request := requests[..|requests| - 1], requests[|requests| - 1];
      UsedNext(canRead, Run(canRead, mode, init), request, ModesUsed(canRead, mode, init))
  }

  ghost function UsedNext(canRead: CanRead, w: World, request: Request, used: Usage): Usage {
    if Enters(canRead, w, request)
    then WithMode(w.st.db, used, request.subject, ModeUsed(w.st, request.subject, request.schema))
    else used
  }

  ghost function WithMode(db: Db, used: Usage, s: Subject, mode: Option<Mode>): Usage {
    used[s := (if db.HasLive(s) && s in used then used[s] else {}) + {mode}]
  }

  /** All live versions of a subject are compatible with each later live version. */
  ghost predicate PairwiseCompatible(canRead: CanRead, mode: Mode, db: Db, s: Subject) {
    forall v, w :: db.Live(s, v) && db.Live(s, w) && v < w ==>
      Compatible(canRead, mode, db.At(s, v).schema, db.At(s, w).schema)
  }

  ghost predicate UsedOk(canRead: CanRead, db: Db, used: Usage) {
    && (forall s, v :: db.Live(s, v) ==> s in used && used[s] != {})
    && (forall s, m: Mode :: s in used && used[s] == {Some(m)} && m.IsTransitive() ==>
         PairwiseCompatible(canRead, m, db, s))
  }

  // ---------------------------------------------------------------- records that only take away

  ghost predicate Shrinks(db: Db, db': Db) {
    && db'.cache == db.cache
    && (forall s, v :: db'.Live(s, v) ==> db.Live(s, v) && db'.At(s, v).schema == db.At(s, v).schema)
  }

  lemma SoftDeleteShrinks(db: Db, s: Subject, v: int, id: int, schema: TypedSchema)
    requires Interned(db) && db.Live(s, v) && db.At(s, v).schema == schema
    ensures Shrinks(db, db.InsertSchemaVersion(s, id, v, true, schema))
  {
    InsertFrame(db, s, id, v, true, schema);
    assert db.Cached(schema) == schema && schema.Fp() in db.cache;
  }

  lemma ConfigureShrinks(db: Db, target: Option<Subject>, mode: Option<Mode>)
    ensures Shrinks(db, SchemaReader.Configure(db, target, mode))
  {
    var d := SchemaReader.Configure(db, target, mode);
    ConfigureFrame(db, target, mode);
    forall s, v | d.Live(s, v) ensures db.Live(s, v) && d.At(s, v).schema == db.At(s, v).schema {
      assert d.Versions(s) == db.Versions(s);
    }
  }

  lemma ApplyShrinks(db: Db, r: Record)
    requires Inv(db) && Legit(db, r) && (r.SchemaRecord? ==> r.deleted || !Accepted(db, r))
    ensures Shrinks(db, Apply(db, r))
  {
    match r
    case SchemaRecord(s, v, id, schema, deleted) =>
      UnderstoodSettled(db, schema);
      if Accepted(db, r) { SoftDeleteShrinks(db, s, v, id, schema); }
    case Tombstone(s, v) => HardDeleteFrame(db, s, v);
    case DeleteSubjectRecord(s, v) => DeleteSubjectFrame(db, s, v);
    case ConfigRecord(target, mode) => ConfigureShrinks(db, target, mode);
    case Noop =>
  }

  lemma {:induction false} ApplyAllShrinks(db: Db, rs: seq<Record>)
    requires Inv(db) && LegitAll(db, rs) && forall r :: r in rs && r.SchemaRecord? ==> r.deleted
    ensures Shrinks(db, ApplyAll(db, rs)) && Inv(ApplyAll(db, rs))
  {
    if rs != [] {
      var init, r := rs[..|rs| - 1], rs[|rs| - 1];
      assert forall i :: 0 <= i < |init| ==> rs[..i] == init[..i];
      assert LegitAll(db, init);
      ApplyAllShrinks(db, init);
      assert Legit(ApplyAll(db, init), r);
      ApplyShrinks(ApplyAll(db, init), r);
      ApplyKeepsInv(ApplyAll(db, init), r);
    }
  }

  lemma ShrinksKeepsUsed(canRead: CanRead, db: Db, db': Db, used: Usage)
    requires UsedOk(canRead, db, used) && Shrinks(db, db')
    ensures UsedOk(canRead, db', used)
  {
    forall s, m: Mode | s in used && used[s] == {Some(m)} && m.IsTransitive()
      ensures PairwiseCompatible(canRead, m, db', s)
    {
      assert PairwiseCompatible(canRead, m, db, s);
    }
  }

  // ---------------------------------------------------------------- a registration

  ghost predicate NonDecreasing(s: seq<int>) { forall i, j :: 0 <= i < j < |s| ==> s[i] <= s[j] }

  lemma {:induction false} SortedSpec(s: seq<int>)
    ensures multiset(Sorted(s)) == multiset(s) && NonDecreasing(Sorted(s))
    ensures forall x :: x in Sorted(s) <==> x in s
  {
    if s != [] {
      SortedSpec(s[1..]);
      InsertSpec(s[0], Sorted(s[1..]));
      assert s == [s[0]] + s[1..];
    }
  }

  lemma {:induction false} InsertSpec(y: int, s: seq<int>)
    requires NonDecreasing(s)
    ensures multiset(Insert(y, s)) == multiset(s) + multiset{y} && NonDecreasing(Insert(y, s))
    ensures forall x :: x in Insert(y, s) <==> x == y || x in s
  {
    if s != [] && y > s[0] {
      var rest := Insert(y, s[1..]);
      InsertSpec(y, s[1..]);
      assert s == [s[0]] + s[1..];
      forall i | 0 <= i < |rest| ensures s[0] <= rest[i] { assert rest[i] in rest; }
    }
  }

  lemma {:induction false} NoObstacle(canRead: CanRead, db: Db, mode: Mode, s: Subject, versions: seq<int>,
                                      schema: TypedSchema)
    requires Obstacle(canRead, db, mode, s, versions, schema).None?
    ensures forall v :: v in versions && db.Stored(s, v) ==> Compatible(canRead, mode, db.At(s, v).schema, schema)
  {
    if versions != [] {
      NoObstacle(canRead, db, mode, s, versions[1..], schema);
      assert versions == [versions[0]] + versions[1..];
    }
  }

  /** A registration that passes under a transitive mode is compatible with every live version. */
  lemma PassedAgainstAll(canRead: CanRead, st: State, s: Subject, schema: TypedSchema)
    requires Inv(st.db) && ModeFor(st, s).IsTransitive()
    requires PlanRegister(canRead, st, s, schema).records != []
    ensures forall v :: st.db.Live(s, v) ==> Compatible(canRead, ModeFor(st, s), st.db.At(s, v).schema, schema)
  {
    var mode, live := ModeFor(st, s), LiveVersions(st.db.Versions(s));
    LiveVersionsSpec(st.db, s);
    SortedSpec(live);
    NoObstacle(canRead, st.db, mode, s, CheckedVersions(st.db, mode, s), schema);
    forall v | st.db.Live(s, v) ensures Compatible(canRead, mode, st.db.At(s, v).schema, schema) {
      assert v in live && v in Sorted(live);
    }
  }

  /** `db'` is `db` with one more live version, above all others of its subject. */
  ghost predicate AddsLive(db: Db, db': Db, s: Subject, v: int, schema: TypedSchema) {
    && db'.Live(s, v) && db'.At(s, v).schema == schema
    && (forall w :: db.Live(s, w) ==> w < v)
    && (forall t, w :: (t, w) != (s, v) ==> (db'.Live(t, w) <==> db.Live(t, w)))
    && (forall t, w :: db.Live(t, w) ==> db'.At(t, w).schema == db.At(t, w).schema)
  }

  lemma AddKeepsPairs(canRead: CanRead, db: Db, db': Db, s: Subject, v: int, schema: TypedSchema, m: Mode)
    requires AddsLive(db, db', s, v, schema)
    requires forall w :: db.Live(s, w) ==> Compatible(canRead, m, db.At(s, w).schema, schema)
    requires PairwiseCompatible(canRead, m, db, s)
    ensures PairwiseCompatible(canRead, m, db', s)
  {
  }

  lemma AddKeepsUsed(canRead: CanRead, db: Db, db': Db, s: Subject, v: int, schema: TypedSchema, mode: Option<Mode>,
                     used: Usage)
    requires UsedOk(canRead, db, used) && AddsLive(db, db', s, v, schema)
    requires mode.Some? && mode.value.IsTransitive() ==>
               forall w :: db.Live(s, w) ==> Compatible(canRead, mode.value, db.At(s, w).schema, schema)
    ensures UsedOk(canRead, db', WithMode(db, used, s, mode))
  {
    var used' := WithMode(db, used, s, mode);
    forall t, m: Mode | t in used' && used'[t] == {Some(m)} && m.IsTransitive()
      ensures PairwiseCompatible(canRead, m, db', t)
    {
      if t != s {
        assert PairwiseCompatible(canRead, m, db, t);
      } else {
        assert mode in used'[s];
        if db.HasLive(s) {
          assert used[s] <= {Some(m)} && used[s] != {};
          assert used[s] == {Some(m)};
        }
        assert PairwiseCompatible(canRead, m, db, s);
        AddKeepsPairs(canRead, db, db', s, v, schema, m);
      }
    }
  }

  lemma RegisterAdds(canRead: CanRead, st: State, s: Subject, schema: TypedSchema)
    requires Inv(st.db) && CounterCovers(st)
    requires PlanRegister(canRead, st, s, schema).records != []
    requires Accepted(st.db, PlanRegister(canRead, st, s, schema).records[0])
    ensures var r := PlanRegister(canRead, st, s, schema).records[0];
            AddsLive(st.db, Apply(st.db, r), s, r.version, st.db.Cached(schema))
  {
    var r := PlanRegister(canRead, st, s, schema).records[0];
    PlanRegisterLegit(canRead, st, s, schema);
    assert r in PlanRegister(canRead, st, s, schema).records;
    UnderstoodSettled(st.db, schema);
    InsertFrame(st.db, s, r.id, r.version, false, schema);
  }

  // ---------------------------------------------------------------- runs

  lemma {:induction false} UsedAlongRun(canRead: CanRead, mode: Mode, requests: seq<Request>)
    ensures UsedOk(canRead, Run(canRead, mode, requests).st.db, ModesUsed(canRead, mode, requests))
  {
    if requests != [] {
      var init, request := requests[..|requests| - 1], requests[|requests| - 1];
      UsedAlongRun(canRead, mode, init);
      RunOk(canRead, mode, init);
      StepKeepsUsed(canRead, Run(canRead, mode, init), request, ModesUsed(canRead, mode, init));
    }
  }

  lemma EnteringStep(canRead: CanRead, w: World, request: Request, used: Usage)
    requires Inv(w.st.db) && CounterCovers(w.st) && UsedOk(canRead, w.st.db, used) && Enters(canRead, w, request)
    ensures var r := PlanRegister(canRead, w.st, request.subject, request.schema).records[0];
            UsedOk(canRead, Apply(w.st.db, r), UsedNext(canRead, w, request, used))
  {
    var db, s, schema := w.st.db, request.subject, request.schema;
    RegisterAdds(canRead, w.st, s, schema);
    if ModeFor(w.st, s).IsTransitive() { PassedAgainstAll(canRead, w.st, s, schema); }
    var r := PlanRegister(canRead, w.st, s, schema).records[0];
    AddKeepsUsed(canRead, db, Apply(db, r), s, r.version, db.Cached(schema), ModeUsed(w.st, s, schema), used);
  }

  lemma OnlyRegisterAdds(canRead: CanRead, st: State, request: Request)
    requires !request.Register? || PlanOf(canRead, st, request).records == []
    ensures forall r :: r in PlanOf(canRead, st, request).records && r.SchemaRecord? ==> r.deleted
  {
  }

  lemma StepKeepsUsed(canRead: CanRead, w: World, request: Request, used: Usage)
    requires Inv(w.st.db) && CounterCovers(w.st) && UsedOk(canRead, w.st.db, used)
    ensures UsedOk(canRead, Exec(canRead, w, request).st.db, UsedNext(canRead, w, request, used))
  {
    var db, rs := w.st.db, PlanOf(canRead, w.st, request).records;
    ExecDb(canRead, w, request);
    if request.Register? && rs != [] {
      assert |rs| == 1 && rs[..0] == [];
      assert ApplyAll(db, rs) == Apply(db, rs[0]);
      if Enters(canRead, w, request) { EnteringStep(canRead, w, request, used); }
    } else {
      PlanLegit(canRead, w.st, request);
      OnlyRegisterAdds(canRead, w.st, request);
      ApplyAllShrinks(db, rs);
      ShrinksKeepsUsed(canRead, db, ApplyAll(db, rs), used);
    }
  }

  /** If every registration of a subject since it last had no live version ran under one transitive mode and was
      stored with the type it was sent with, its live versions are pairwise compatible under that mode, whatever was
      deleted in between. */
  lemma TransitiveModeHolds(canRead: CanRead, mode: Mode, requests: seq<Request>, s: Subject, m: Mode)
    requires m.IsTransitive()
    requires s in ModesUsed(canRead, mode, requests) ==> ModesUsed(canRead, mode, requests)[s] <= {Some(m)}
    ensures PairwiseCompatible(canRead, m, Run(canRead, mode, requests).st.db, s)
  {
    UsedAlongRun(canRead, mode, requests);
    var db, used := Run(canRead, mode, requests).st.db, ModesUsed(canRead, mode, requests);
    forall v, w | db.Live(s, v) && db.Live(s, w) && v < w
      ensures Compatible(canRead, m, db.At(s, v).schema, db.At(s, w).schema)
    {
      assert s in used && used[s] != {} && used[s] == {Some(m)};
      assert PairwiseCompatible(canRead, m, db, s);
    }
  }
}
