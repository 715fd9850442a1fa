/** Runs of the registry step by step: which record each request sends, so that a log can be shown to be the log of
    a run. */
module RegistryScenarios {
  import opened SchemaModels
  import opened Database
  import opened SchemaReader
  import opened SchemaRegistry
  import opened RegistryInvariant
  import opened RegistryRuns
  import opened RegistryOutcomes

  /** The requests lead to this topic and this id counter. */
  ghost predicate RunIs(canRead: CanRead, mode: Mode, requests: seq<Request>, log: seq<Record>, counter: int) {
    var w := Run(canRead, mode, requests);
    w.log == log && w.st.counter == counter
  }

  lemma RunIsReplay(canRead: CanRead, mode: Mode, requests: seq<Request>, log: seq<Record>, counter: int)
    requires RunIs(canRead, mode, requests, log, counter)
    ensures var st := Run(canRead, mode, requests).st;
            st.db == Replay(log) && RegistryWritten(log) && Inv(st.db) && CounterCovers(st)
  {
    RunOk(canRead, mode, requests);
    ReplayInv(log);
  }

  lemma SingleRecord(canRead: CanRead, mode: Mode, requests: seq<Request>, request: Request, r: Record)
    requires PlanOf(canRead, Run(canRead, mode, requests).st, request).records == [r]
    requires r.SchemaRecord? ==> r.id <= PlanOf(canRead, Run(canRead, mode, requests).st, request).counter
    ensures var w, next := Run(canRead, mode, requests), Run(canRead, mode, requests + [request]);
            next.log == w.log + [r] && next.st.counter == PlanOf(canRead, w.st, request).counter
  {
    var w := Run(canRead, mode, requests);
    var begun := w.st.(counter := PlanOf(canRead, w.st, request).counter);
    assert (requests + [request])[..|requests|] == requests;
    assert [r][..0] == [] && HandleAll(begun, [r][..0]) == begun;
    assert HandleAll(begun, [r]) == HandleMsg(begun, r);
  }

  lemma HasMember(s: seq<int>)
    ensures s != [] ==> s[0] in s
  {
  }

  lemma LookupIsLive(db: Db, s: Subject, schema: TypedSchema)
    requires IndexSound(db) && db.Lookup(s, schema).Some?
    ensures exists v :: db.Live(s, v)
  {
    var v :| Indexes(db, s, v, schema.Fp(), db.index[s][schema.Fp()]);
  }

  /** A subject without live version: nothing to be compatible with, and nothing in its fingerprint table. */
  lemma RegisterWithoutLive(canRead: CanRead, st: State, s: Subject, schema: TypedSchema)
    requires Inv(st.db) && CounterCovers(st) && Settled(schema) && forall v :: !st.db.Live(s, v)
    ensures PlanRegister(canRead, st, s, schema).records != []
  {
    LiveVersionsSpec(st.db, s);
    var live := LiveVersions(st.db.Versions(s));
    HasMember(live);
    if st.db.Lookup(s, schema).Some? { LookupIsLive(st.db, s, schema); }
  }

  /** Which id a new version gets. */
  ghost predicate IdFor(db: Db, counter: int, schema: TypedSchema, id: int) {
    || (id == counter + 1 && forall k :: k in db.schemas.entries ==> db.schemas.entries[k] != schema)
    || (id in db.schemas.entries && forall k :: k in db.schemas.entries ==>
         (db.schemas.entries[k] == schema <==> k == id))
  }

  lemma RegisterRun(
    canRead: CanRead, mode: Mode, requests: seq<Request>, log: seq<Record>, counter: int,
    s: Subject, schema: TypedSchema, version: int, id: int)
    requires RunIs(canRead, mode, requests, log, counter) && Settled(schema)
    requires var db := Replay(log);
             && (forall v :: !db.Live(s, v)) && IdFor(db, counter, schema, id)
             && (forall v :: db.Stored(s, v) ==> v < version) && (version == 1 || db.Stored(s, version - 1))
    ensures RunIs(canRead, mode, requests + [Register(s, schema)], log + [SchemaRecord(s, version, id, schema, false)],
                  if id > counter then id else counter)
  {
    var st := Run(canRead, mode, requests).st;
    RunIsReplay(canRead, mode, requests, log, counter);
    RegisterWithoutLive(canRead, st, s, schema);
    RegisterDecides(canRead, st, s, schema);
    SchemaIdRight(st, schema);
    var plan := PlanRegister(canRead, st, s, schema);
    var r := plan.records[0];
    assert r.version == version;
    assert plan.records == [r] && r.id == id;
    SingleRecord(canRead, mode, requests, Register(s, schema), r);
  }

  lemma DeleteRun(
    canRead: CanRead, mode: Mode, requests: seq<Request>, log: seq<Record>, counter: int, s: Subject, v: int,
      permanent: bool)
    requires RunIs(canRead, mode, requests, log, counter) && v != LATEST
    requires Deletable(Replay(log), s, v, permanent)
    ensures var entry := Replay(log).At(s, v);
            RunIs(canRead, mode, requests + [DeleteVersion(s, v, permanent)],
                  log +
                    [if permanent then Tombstone(s, v) else SchemaRecord(s, v, entry.id, entry.schema, true)], counter)
  {
    var st := Run(canRead, mode, requests).st;
    RunIsReplay(canRead, mode, requests, log, counter);
    var entry := st.db.At(s, v);
    assert v in st.db.Versions(s).keys;
    var r := if permanent then Tombstone(s, v) else SchemaRecord(s, v, entry.id, entry.schema, true);
    assert PlanDeleteVersion(st, s, v, permanent).records == [r];
    assert entry.id in st.db.schemas.entries;
    SingleRecord(canRead, mode, requests, DeleteVersion(s, v, permanent), r);
  }

  // ---------------------------------------------------------------- known contents

  /** Exactly these versions, ids and interned schemas. */
  ghost predicate Contents(db: Db, versions: map<(Subject, int), SchemaVersion>, ids: map<int, TypedSchema>,
                           cache: map<Fingerprint, TypedSchema>) {
    && (forall s, v :: db.Stored(s, v) <==> (s, v) in versions)
    && (forall s, v :: (s, v) in versions ==> db.At(s, v) == versions[(s, v)])
    && db.schemas.entries == ids && db.cache == cache
  }

  lemma ContentsInsert(
    db: Db, versions: map<(Subject, int), SchemaVersion>, ids: map<int, TypedSchema>,
      cache: map<Fingerprint, TypedSchema>,
    s: Subject, v: int, id: int, schema: TypedSchema, deleted: bool)
    requires Contents(db, versions, ids, cache) && Settled(schema) &&
             Accepted(db, SchemaRecord(s, v, id, schema, deleted))
    ensures var kept := if schema.Fp() in cache then cache[schema.Fp()] else schema;
            Contents(Apply(db, SchemaRecord(s, v, id, schema, deleted)),
              versions[(s, v) := SchemaVersion(v, deleted, id, kept)],
                     ids[id := kept], cache[schema.Fp() := kept])
  {
    UnderstoodSettled(db, schema);
    InsertFrame(db, s, id, v, deleted, schema);
  }

  /** The same as part of a log. */
  lemma ContentsSnoc(
    log: seq<Record>, versions: map<(Subject, int), SchemaVersion>, ids: map<int, TypedSchema>,
      cache: map<Fingerprint, TypedSchema>,
    s: Subject, v: int, id: int, schema: TypedSchema, deleted: bool)
    requires Contents(Replay(log), versions, ids, cache) && Settled(schema)
    requires Accepted(Replay(log), SchemaRecord(s, v, id, schema, deleted))
    ensures var kept := if schema.Fp() in cache then cache[schema.Fp()] else schema;
            Contents(Replay(log + [SchemaRecord(s, v, id, schema, deleted)]),
              versions[(s, v) := SchemaVersion(v, deleted, id, kept)],
                     ids[id := kept], cache[schema.Fp() := kept])
  {
    ReplaySnoc(log, SchemaRecord(s, v, id, schema, deleted));
    ContentsInsert(Replay(log), versions, ids, cache, s, v, id, schema, deleted);
  }

  lemma ReferentRefers(db: Db, s: Subject, v: int, id: int)
    requires ReferentsSound(db) && id in db.ReferencedBy(s, v)
    ensures exists t, w :: Refers(db, t, w, id, (s, v))
  {
    assert (s, v) in db.referencedBy && id in db.referencedBy[(s, v)];
  }

  lemma Unreferenced(db: Db, s: Subject, v: int)
    requires ReferentsSound(db) && forall t, w :: db.Stored(t, w) ==> (s, v) !in RefKeys(db.At(t, w).schema.references)
    ensures db.ReferencedBy(s, v) == {}
  {
    forall id | id in db.ReferencedBy(s, v) ensures exists t, w :: Refers(db, t, w, id, (s, v)) {
      ReferentRefers(db, s, v, id);
    }
    assert forall id :: id !in db.ReferencedBy(s, v);
  }

  // ---------------------------------------------------------------- scenes

  /** A run with everything a reader has stored. */
  datatype Scene = Scene(
    requests: seq<Request>, log: seq<Record>, counter: int,
    versions: map<(Subject, int), SchemaVersion>, ids: map<int, TypedSchema>, cache: map<Fingerprint, TypedSchema>)
  {
    /** With one more record, sent by `request`. */
    function Then(request: Request, s: Subject, v: int, id: int, schema: TypedSchema, deleted: bool): Scene {
      var kept := if schema.Fp() in cache then cache[schema.Fp()] else schema;
      Scene(requests + [request], log + [SchemaRecord(s, v, id, schema, deleted)], if id > counter then id else counter,
            versions[(s, v) := SchemaVersion(v, deleted, id, kept)], ids[id := kept], cache[schema.Fp() := kept])
    }
  }

  const OPENING := Scene([], [], 0, map[], map[], map[])

  ghost predicate Shows(canRead: CanRead, mode: Mode, c: Scene) {
    RunIs(canRead, mode, c.requests, c.log, c.counter) && Contents(Replay(c.log), c.versions, c.ids, c.cache)
  }

  lemma OpeningShows(canRead: CanRead, mode: Mode)
    ensures Shows(canRead, mode, OPENING)
  {
  }

  lemma RegisterShows(canRead: CanRead, mode: Mode, c: Scene, s: Subject, schema: TypedSchema, version: int, id: int)
    requires Shows(canRead, mode, c) && Settled(schema) &&
             Accepted(Replay(c.log), SchemaRecord(s, version, id, schema, false))
    requires forall v :: (s, v) in c.versions ==> c.versions[(s, v)].deleted && v < version
    requires version == 1 || (s, version - 1) in c.versions
    requires || (id == c.counter + 1 && forall k :: k in c.ids ==> c.ids[k] != schema)
             || (id in c.ids && forall k :: k in c.ids ==> (c.ids[k] == schema <==> k == id))
    ensures Shows(canRead, mode, c.Then(Register(s, schema), s, version, id, schema, false))
  {
    var db := Replay(c.log);
    assert forall v :: db.Stored(s, v) ==> (s, v) in c.versions && db.At(s, v) == c.versions[(s, v)];
    RegisterRun(canRead, mode, c.requests, c.log, c.counter, s, schema, version, id);
    ContentsSnoc(c.log, c.versions, c.ids, c.cache, s, version, id, schema, false);
  }

  lemma SoftDeleteShows(canRead: CanRead, mode: Mode, c: Scene, s: Subject, v: int)
    requires Shows(canRead, mode, c) && v != LATEST && (s, v) in c.versions && !c.versions[(s, v)].deleted
    requires var entry := c.versions[(s, v)];
             Accepted(Replay(c.log), SchemaRecord(s, v, entry.id, entry.schema, true))
    requires Replay(c.log).ReferencedBy(s, v) == {}
    ensures var entry := c.versions[(s, v)];
            Shows(canRead, mode, c.Then(DeleteVersion(s, v, false), s, v, entry.id, entry.schema, true))
  {
    var entry := c.versions[(s, v)];
    RunIsReplay(canRead, mode, c.requests, c.log, c.counter);
    assert Replay(c.log).Stored(s, v) && Replay(c.log).At(s, v) == entry;
    assert Settled(entry.schema) && entry.id <= c.counter;
    DeleteRun(canRead, mode, c.requests, c.log, c.counter, s, v, false);
    ContentsSnoc(c.log, c.versions, c.ids, c.cache, s, v, entry.id, entry.schema, true);
  }

  /** Nothing in the scene refers to (s, v). */
  lemma SceneUnreferenced(canRead: CanRead, mode: Mode, c: Scene, s: Subject, v: int)
    requires Shows(canRead, mode, c) && forall k :: k in c.versions ==>
               (s, v) !in RefKeys(c.versions[k].schema.references)
    ensures Replay(c.log).ReferencedBy(s, v) == {}
  {
    var db := Replay(c.log);
    RunIsReplay(canRead, mode, c.requests, c.log, c.counter);
    forall t, w | db.Stored(t, w) ensures (s, v) !in RefKeys(db.At(t, w).schema.references) {
      assert (t, w) in c.versions && db.At(t, w) == c.versions[(t, w)];
    }
    Unreferenced(db, s, v);
  }
}
