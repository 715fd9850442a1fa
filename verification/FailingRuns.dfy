/** The runs, request by request, that lead to the logs on which expected properties fail. */
module FailingRuns {
  import opened SchemaModels
  import opened Database
  import opened SchemaReader
  import opened SchemaRegistry
  import opened RegistryTheorems
  import opened RegistryScenarios
  import opened References
  import opened LiveReferences
  import opened Compaction
  import opened SharedIds

  // ---------------------------------------------------------------- the fingerprint index

  function TwinRequests(s: Subject, x: TypedSchema): seq<Request> {
    [] + [Register(s, x)] + [DeleteVersion(s, 1, false)] + [Register(s, x)] + [DeleteVersion(s, 1, true)]
  }

  /** The first registration of all. */
  function First(s: Subject, x: TypedSchema): Scene { OPENING.Then(Register(s, x), s, 1, 1, x, false) }

  lemma FirstShown(canRead: CanRead, mode: Mode, s: Subject, x: TypedSchema)
    requires Settled(x) && x.references == []
    ensures Shows(canRead, mode, First(s, x))
  {
    OpeningShows(canRead, mode);
    AcceptedWithoutReferences(Replay([]), SchemaRecord(s, 1, 1, x, false));
    RegisterShows(canRead, mode, OPENING, s, x, 1, 1);
  }

  function Twin2(s: Subject, x: TypedSchema): Scene { First(s, x).Then(DeleteVersion(s, 1, false), s, 1, 1, x, true) }

  function Twin3(s: Subject, x: TypedSchema): Scene { Twin2(s, x).Then(Register(s, x), s, 2, 1, x, false) }

  lemma Twin2Shown(canRead: CanRead, mode: Mode, s: Subject, x: TypedSchema)
    requires Settled(x) && x.references == []
    ensures Shows(canRead, mode, Twin2(s, x))
  {
    var one := First(s, x);
    FirstShown(canRead, mode, s, x);
    assert RefKeys([]) == {};
    SceneUnreferenced(canRead, mode, one, s, 1);
    AcceptedWithoutReferences(Replay(one.log), SchemaRecord(s, 1, 1, x, true));
    SoftDeleteShows(canRead, mode, one, s, 1);
  }

  lemma TwinsShown(canRead: CanRead, mode: Mode, s: Subject, x: TypedSchema)
    requires Settled(x) && x.references == []
    ensures Shows(canRead, mode, Twin3(s, x))
  {
    var two := Twin2(s, x);
    Twin2Shown(canRead, mode, s, x);
    AcceptedWithoutReferences(Replay(two.log), SchemaRecord(s, 2, 1, x, false));
    RegisterShows(canRead, mode, two, s, x, 2, 1);
  }

  /** Registered, soft-deleted, registered again, and the old version hard-deleted: the live version is missing
      from the fingerprint index. */
  lemma IndexLosesLiveVersion(canRead: CanRead, mode: Mode, s: Subject, x: TypedSchema)
    requires Settled(x) && x.references == []
    ensures var db := Run(canRead, mode, TwinRequests(s, x)).st.db;
            db.Live(s, 2) && !IndexComplete(db, s)
  {
    var three := Twin3(s, x);
    TwinsShown(canRead, mode, s, x);
    assert RefKeys([]) == {};
    SceneUnreferenced(canRead, mode, three, s, 1);
    assert (s, 1) in three.versions && three.versions[(s, 1)].deleted;
    assert Replay(three.log).Stored(s, 1);
    DeleteRun(canRead, mode, three.requests, three.log, three.counter, s, 1, true);
    RunIsReplay(canRead, mode, TwinRequests(s, x), three.log + [Tombstone(s, 1)], three.counter);
    IndexCanLoseLiveVersion(s, x);
  }

  // ---------------------------------------------------------------- the schema type

  function MixedRequests(s: Subject, t: Subject, x: TypedSchema, y: TypedSchema): seq<Request> {
    [] + [Register(s, x)] + [Register(t, y)] + [DeleteVersion(t, 1, false)]
  }

  lemma MixedShown(canRead: CanRead, mode: Mode, s: Subject, t: Subject, x: TypedSchema, y: TypedSchema)
    requires s != t && x != y && x.Fp() == y.Fp() && x.references == [] && Settled(x) && Settled(y)
    ensures var two := First(s, x).Then(Register(t, y), t, 1, 2, y, false);
            Shows(canRead, mode, two) && Shows(canRead, mode, two.Then(DeleteVersion(t, 1, false), t, 1, 2, x, true))
  {
    FirstShown(canRead, mode, s, x);
    var one := First(s, x);
    AcceptedWithoutReferences(Replay(one.log), SchemaRecord(t, 1, 2, y, false));
    RegisterShows(canRead, mode, one, t, y, 1, 2);
    var two := one.Then(Register(t, y), t, 1, 2, y, false);
    assert RefKeys([]) == {} && two.versions[(t, 1)] == SchemaVersion(1, false, 2, x);
    SceneUnreferenced(canRead, mode, two, t, 1);
    AcceptedWithoutReferences(Replay(two.log), SchemaRecord(t, 1, 2, x, true));
    SoftDeleteShows(canRead, mode, two, t, 1);
  }

  /** One text registered under two types and the second version soft-deleted: two accepted records of the run
      have the same id and different schemas. */
  lemma TypesMix(canRead: CanRead, mode: Mode, s: Subject, t: Subject, text: string)
    requires s != t
    ensures var x, y := TypedSchema(Avro, text, []), TypedSchema(JsonSchema, text, []);
            Run(canRead, mode, MixedRequests(s, t, x, y)).log ==
              [SchemaRecord(s, 1, 1, x, false), SchemaRecord(t, 1, 2, y, false), SchemaRecord(t, 1, 2, x, true)]
  {
    var x, y := TypedSchema(Avro, text, []), TypedSchema(JsonSchema, text, []);
    MixedShown(canRead, mode, s, t, x, y);
    assert RunIs(canRead, mode, MixedRequests(s, t, x, y),
                 [] + [SchemaRecord(s, 1, 1, x, false)] + [SchemaRecord(t, 1, 2, y, false)] +
                   [SchemaRecord(t, 1, 2, x, true)], 2);
  }

  // ---------------------------------------------------------------- references

  function FiveRequests(t: Subject, a: Subject, b: Subject): seq<Request> {
    [] + [Register(t, Target())] + [Register(a, Referrer(t))] + [Register(b, Referrer(t))] +
    [DeleteVersion(b, 1, false)] + [DeleteVersion(b, 1, true)]
  }

  function Two(t: Subject, a: Subject): Scene {
    First(t, Target()).Then(Register(a, Referrer(t)), a, 1, 2, Referrer(t), false)
  }

  function Three(t: Subject, a: Subject, b: Subject): Scene {
    Two(t, a).Then(Register(b, Referrer(t)), b, 1, 2, Referrer(t), false)
  }

  function Four(t: Subject, a: Subject, b: Subject): Scene {
    Three(t, a, b).Then(DeleteVersion(b, 1, false), b, 1, 2, Referrer(t), true)
  }

  lemma TwoShown(canRead: CanRead, mode: Mode, t: Subject, a: Subject)
    requires t != a
    ensures Shows(canRead, mode, Two(t, a))
  {
    FirstShown(canRead, mode, t, Target());
    var one := First(t, Target());
    TargetLive(canRead, mode, one, t);
    ReferrerAccepted(Replay(one.log), t, a, false);
    RegisterShows(canRead, mode, one, a, Referrer(t), 1, 2);
  }

  lemma TargetLive(canRead: CanRead, mode: Mode, c: Scene, t: Subject)
    requires Shows(canRead, mode, c) && (t, 1) in c.versions &&
             c.versions[(t, 1)] == SchemaVersion(1, false, 1, Target())
    ensures Replay(c.log).Live(t, 1) && Replay(c.log).At(t, 1).schema.references == []
  {
    assert Replay(c.log).Stored(t, 1) && Replay(c.log).At(t, 1) == c.versions[(t, 1)];
  }

  lemma ThreeShown(canRead: CanRead, mode: Mode, t: Subject, a: Subject, b: Subject)
    requires t != a && t != b && a != b
    ensures Shows(canRead, mode, Three(t, a, b))
  {
    var two := Two(t, a);
    TwoShown(canRead, mode, t, a);
    TargetLive(canRead, mode, two, t);
    ReferrerAccepted(Replay(two.log), t, b, false);
    RegisterShows(canRead, mode, two, b, Referrer(t), 1, 2);
  }

  lemma FourShown(canRead: CanRead, mode: Mode, t: Subject, a: Subject, b: Subject)
    requires t != a && t != b && a != b
    ensures Shows(canRead, mode, Four(t, a, b))
  {
    var three := Three(t, a, b);
    ThreeShown(canRead, mode, t, a, b);
    ReferrerKeys(t);
    SceneUnreferenced(canRead, mode, three, b, 1);
    TargetLive(canRead, mode, three, t);
    ReferrerAccepted(Replay(three.log), t, b, true);
    SoftDeleteShows(canRead, mode, three, b, 1);
  }

  lemma FiveRun(canRead: CanRead, mode: Mode, t: Subject, a: Subject, b: Subject)
    requires t != a && t != b && a != b
    ensures RunIs(canRead, mode, FiveRequests(t, a, b), FiveRecords(t, a, b), 2)
  {
    var four := Four(t, a, b);
    FourShown(canRead, mode, t, a, b);
    ReferrerKeys(t);
    SceneUnreferenced(canRead, mode, four, b, 1);
    assert four.versions[(b, 1)].deleted && Replay(four.log).Stored(b, 1);
    DeleteRun(canRead, mode, four.requests, four.log, four.counter, b, 1, true);
  }

  lemma SixRun(canRead: CanRead, mode: Mode, t: Subject, a: Subject, b: Subject)
    requires t != a && t != b && a != b
    ensures RunIs(canRead, mode, FiveRequests(t, a, b) + [DeleteVersion(t, 1, false)], SixRecords(t, a, b), 2)
  {
    FiveRun(canRead, mode, t, a, b);
    AfterFive(t, a, b);
    assert Replay(FiveRecords(t, a, b)).Live(t, 1);
    DeleteRun(canRead, mode, FiveRequests(t, a, b), FiveRecords(t, a, b), 2, t, 1, false);
  }

  /** Two subjects register one schema with a reference, and the second deletes it for good: the live version of
      the first is no longer among the referents. */
  lemma ReferentLost(canRead: CanRead, mode: Mode, t: Subject, a: Subject, b: Subject)
    requires t != a && t != b && a != b
    ensures !ReferentsComplete(Run(canRead, mode, FiveRequests(t, a, b)).st.db)
  {
    FiveRun(canRead, mode, t, a, b);
    RunIsReplay(canRead, mode, FiveRequests(t, a, b), FiveRecords(t, a, b), 2);
    ReferentsCanBeLost(t, a, b);
  }

  /** So the referenced version can be soft-deleted, which leaves a live version that cannot be resolved. */
  lemma ReferenceCutOff(canRead: CanRead, mode: Mode, t: Subject, a: Subject, b: Subject)
    requires t != a && t != b && a != b
    ensures !AllResolvable(Run(canRead, mode, FiveRequests(t, a, b) + [DeleteVersion(t, 1, false)]).st.db)
  {
    var requests := FiveRequests(t, a, b) + [DeleteVersion(t, 1, false)];
    SixRun(canRead, mode, t, a, b);
    RunIsReplay(canRead, mode, requests, SixRecords(t, a, b), 2);
    AfterSix(t, a, b);
    var db, r := Replay(SixRecords(t, a, b)), Reference("target", t, 1);
    assert db.Live(a, 1) && r in db.At(a, 1).schema.references && !db.Live(t, 1);
    if AllResolvable(db) { ResolvableParts(db, db.At(a, 1).schema.references, r); }
  }

  /** A compaction of the topic of this run loses the referrer. */
  lemma CompactedVersionLost(canRead: CanRead, mode: Mode, t: Subject, a: Subject, b: Subject)
    requires t != a && t != b && a != b
    ensures var log := Run(canRead, mode, FiveRequests(t, a, b) + [DeleteVersion(t, 1, false)]).log;
            |log| == |KEPT| && IsCompaction(log, KEPT) && !SameTable(Replay(log), Replay(Kept(log, KEPT)))
  {
    SixRun(canRead, mode, t, a, b);
    CompactionCanLoseVersion(t, a, b);
  }

  /** And the referrer can no longer be deleted: nothing references it, and the request to soft-delete it times out and
      leaves it live. */
  lemma SoftDeleteFails(canRead: CanRead, mode: Mode, t: Subject, a: Subject, b: Subject)
    requires t != a && t != b && a != b
    ensures var w := Run(canRead, mode, FiveRequests(t, a, b) + [DeleteVersion(t, 1, false)]);
            && w.st.db.ReferencedBy(a, 1) == {} && PlanDeleteVersion(w.st, a, 1, false).reply == Failed(SendTimedOut)
            && Exec(canRead, w, DeleteVersion(a, 1, false)).st.db == w.st.db && w.st.db.Live(a, 1)
  {
    var requests := FiveRequests(t, a, b) + [DeleteVersion(t, 1, false)];
    SixRun(canRead, mode, t, a, b);
    RunIsReplay(canRead, mode, requests, SixRecords(t, a, b), 2);
    var w := Run(canRead, mode, requests);
    SoftDeleteCanFail(t, a, b, w.st.counter, w.st.mode);
    var plan := PlanDeleteVersion(w.st, a, 1, false);
    assert plan.records == [plan.records[0]];
    ExecSingle(canRead, w, DeleteVersion(a, 1, false), plan.records[0]);
  }
}
