/** What holds along every run of the registry, over any sequence of requests. */
module RegistryRuns {
  import opened SchemaModels
  import opened Database
  import opened SchemaReader
  import opened SchemaRegistry
  import opened RegistryInvariant

  ghost function ApplyAll(db: Db, rs: seq<Record>): Db {
    if rs == [] then db else Apply(ApplyAll(db, rs[..|rs| - 1]), rs[|rs| - 1])
  }

  ghost predicate LegitAll(db: Db, rs: seq<Record>) {
    forall i :: 0 <= i < |rs| ==> Legit(ApplyAll(db, rs[..i]), rs[i])
  }

  ghost predicate CounterCovers(st: State) {
    forall id :: id in st.db.schemas.entries ==> id <= st.counter
  }

  /** The database is the replay of the log, and every record of the log was legitimate when sent. */
  ghost predicate WorldOk(w: World) {
    RegistryWritten(w.log) && w.st.db == Replay(w.log) && CounterCovers(w.st)
  }

  // ---------------------------------------------------------------- the plans

  lemma {:induction false} FindIdSpec(keys: seq<int>, entries: map<int, TypedSchema>, schema: TypedSchema)
    ensures var id := FindId(keys, entries, schema);
            && (id.Some? ==> id.value in keys && id.value in entries && entries[id.value] == schema)
            && (id.None? ==> forall k :: k in keys && k in entries ==> entries[k] != schema)
  {
    if keys != [] && !(keys[0] in entries && entries[keys[0]] == schema) {
      FindIdSpec(keys[1..], entries, schema);
    }
  }

  lemma {:induction false} TombstonesApplied(db: Db, s: Subject, keys: seq<int>)
    ensures var db' := ApplyAll(db, Tombstones(s, keys));
            && (forall t, w :: db'.Stored(t, w) <==> db.Stored(t, w) && !(t == s && w in keys))
            && (forall t, w :: db'.Stored(t, w) ==> db'.At(t, w) == db.At(t, w))
            && (forall t, w :: db'.ReferencedBy(t, w) <= db.ReferencedBy(t, w))
  {
    if keys != [] {
      var init, k := keys[..|keys| - 1], keys[|keys| - 1];
      var rs := Tombstones(s, keys);
      assert rs[..|rs| - 1] == Tombstones(s, init);
      TombstonesApplied(db, s, init);
      HardDeleteFrame(ApplyAll(db, Tombstones(s, init)), s, k);
      assert keys == init + [k];
    } else {
      assert Tombstones(s, keys) == [];
    }
  }

  lemma PlanRegisterLegit(canRead: CanRead, st: State, s: Subject, schema: TypedSchema)
    requires Inv(st.db) && CounterCovers(st)
    ensures forall r :: r in PlanRegister(canRead, st, s, schema).records ==> Legit(st.db, r)
  {
    var versions := st.db.Versions(s);
    FindIdSpec(st.db.schemas.keys, st.db.schemas.entries, schema);
    if versions.keys != [] {
      MaxSpec(versions.keys);
      forall w | st.db.Stored(s, w) ensures w <= Max(versions.keys) && Max(versions.keys) >= 1 {
        assert w in versions.keys;
      }
      assert st.db.Stored(s, Max(versions.keys));
    }
  }

  lemma PlanDeleteVersionLegit(st: State, s: Subject, v: int, permanent: bool)
    requires Inv(st.db)
    ensures forall r :: r in PlanDeleteVersion(st, s, v, permanent).records ==> Legit(st.db, r)
  {
    forall r | r in PlanDeleteVersion(st, s, v, permanent).records ensures Legit(st.db, r) {
      if r.SchemaRecord? {
        assert Settled(st.db.At(r.subject, r.version).schema);
      }
    }
  }

  lemma {:induction false} FirstReferencedSpec(db: Db, s: Subject, keys: seq<int>)
    ensures var v := FirstReferenced(db, s, keys);
            && (v.Some? ==> v.value in keys && db.ReferencedBy(s, v.value) != {})
            && (v.None? ==> forall k :: k in keys ==> db.ReferencedBy(s, k) == {})
  {
    if keys != [] { FirstReferencedSpec(db, s, keys[1..]); }
  }

  lemma TombstonesLegit(db: Db, s: Subject, keys: seq<int>)
    requires db.Versions(s).Ok() && keys == db.Versions(s).keys && FirstReferenced(db, s, keys).None?
    requires forall v :: !db.Live(s, v)
    ensures LegitAll(db, Tombstones(s, keys))
  {
    var records := Tombstones(s, keys);
    FirstReferencedSpec(db, s, keys);
    forall i | 0 <= i < |keys| ensures Legit(ApplyAll(db, records[..i]), records[i]) {
      assert records[..i] == Tombstones(s, keys[..i]);
      TombstonesApplied(db, s, keys[..i]);
      assert keys[i] in keys && keys[i] !in keys[..i];
      assert db.Stored(s, keys[i]) && !db.Live(s, keys[i]) && db.ReferencedBy(s, keys[i]) == {};
    }
  }

  lemma PlanDeleteSubjectLegit(st: State, s: Subject, permanent: bool)
    requires Inv(st.db)
    ensures LegitAll(st.db, PlanDeleteSubject(st, s, permanent).records)
  {
    var db, versions, plan := st.db, st.db.Versions(s), PlanDeleteSubject(st, s, permanent);
    LiveVersionsSpec(db, s);
    var live := LiveVersions(versions);
    if plan.records != [] && permanent {
      TombstonesLegit(db, s, versions.keys);
    } else if plan.records != [] {
      assert plan.records[..0] == [];
      assert live[|live| - 1] in live;
      forall w | db.Live(s, w) ensures w <= live[|live| - 1] { assert w in live; }
    }
  }

  lemma PlanLegit(canRead: CanRead, st: State, request: Request)
    requires Inv(st.db) && CounterCovers(st)
    ensures LegitAll(st.db, PlanOf(canRead, st, request).records)
  {
    var rs := PlanOf(canRead, st, request).records;
    match request
    case Register(s, schema) =>
      PlanRegisterLegit(canRead, st, s, schema);
      assert |rs| <= 1 && (rs != [] ==> rs[0] in rs);
    case DeleteVersion(s, v, permanent) =>
      PlanDeleteVersionLegit(st, s, v, permanent);
      assert |rs| <= 1 && (rs != [] ==> rs[0] in rs);
    case DeleteSubject(s, permanent) => PlanDeleteSubjectLegit(st, s, permanent);
    case Configure(target, mode) =>
  }

  // ---------------------------------------------------------------- runs

  lemma {:induction false} HandleAllDb(st: State, rs: seq<Record>)
    requires CounterCovers(st)
    ensures HandleAll(st, rs).db == ApplyAll(st.db, rs)
    ensures HandleAll(st, rs).counter >= st.counter
    ensures CounterCovers(HandleAll(st, rs))
  {
    if rs != [] {
      HandleAllDb(st, rs[..|rs| - 1]);
      HandleMsgCovers(HandleAll(st, rs[..|rs| - 1]), rs[|rs| - 1]);
    }
  }

  lemma HandleMsgCovers(st: State, r: Record)
    requires CounterCovers(st)
    ensures CounterCovers(HandleMsg(st, r))
  {
    match r
    case Tombstone(s, v) => assert HardDelete(st.db, s, v).schemas == st.db.schemas;
    case ConfigRecord(target, mode) => ConfigureFrame(st.db, target, mode);
    case _ =>
  }

  lemma {:induction false} ReplayAppend(log: seq<Record>, rs: seq<Record>)
    ensures Replay(log + rs) == ApplyAll(Replay(log), rs)
  {
    if rs == [] {
      assert log + rs == log;
    } else {
      var init, r := rs[..|rs| - 1], rs[|rs| - 1];
      ReplayAppend(log, init);
      assert log + rs == (log + init) + [r];
      ReplaySnoc(log + init, r);
    }
  }

  lemma WrittenAppend(log: seq<Record>, rs: seq<Record>)
    requires RegistryWritten(log) && LegitAll(Replay(log), rs)
    ensures RegistryWritten(log + rs)
  {
    var both := log + rs;
    forall i: nat | i < |both| ensures LegitAt(both, i) {
      if i < |log| {
        assert LegitAt(log, i);
        assert both[..i] == log[..i] && both[i] == log[i];
      } else {
        var k := i - |log|;
        assert both[..i] == log + rs[..k] && both[i] == rs[k];
        ReplayAppend(log, rs[..k]);
      }
    }
  }

  lemma ExecDb(canRead: CanRead, w: World, request: Request)
    requires CounterCovers(w.st)
    ensures Exec(canRead, w, request).st.db == ApplyAll(w.st.db, PlanOf(canRead, w.st, request).records)
  {
    PlanCounter(canRead, w.st, request);
    HandleAllDb(w.st.(counter := PlanOf(canRead, w.st, request).counter), PlanOf(canRead, w.st, request).records);
  }

  lemma PlanCounter(canRead: CanRead, st: State, request: Request)
    ensures st.counter <= PlanOf(canRead, st, request).counter <= st.counter + 1
  {
  }

  lemma ExecOk(canRead: CanRead, w: World, request: Request)
    requires WorldOk(w)
    ensures WorldOk(Exec(canRead, w, request))
  {
    var plan := PlanOf(canRead, w.st, request);
    ReplayInv(w.log);
    PlanLegit(canRead, w.st, request);
    HandleAllDb(w.st.(counter := plan.counter), plan.records);
    WrittenAppend(w.log, plan.records);
    ReplayAppend(w.log, plan.records);
  }

  /** Every run writes a registry-written log and holds exactly what that log replays to. */
  lemma {:induction false} RunOk(canRead: CanRead, mode: Mode, requests: seq<Request>)
    ensures WorldOk(Run(canRead, mode, requests))
    ensures Inv(Run(canRead, mode, requests).st.db)
  {
    if requests != [] {
      RunOk(canRead, mode, requests[..|requests| - 1]);
      ExecOk(canRead, Run(canRead, mode, requests[..|requests| - 1]), requests[|requests| - 1]);
    }
    ReplayInv(Run(canRead, mode, requests).log);
  }
}
