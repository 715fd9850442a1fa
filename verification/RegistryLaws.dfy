/** The laws of registering and deleting in the terms of a caller: what each compatibility mode asks of reader and
    writer, when a delete succeeds, and which error it gives otherwise. */
module RegistryLaws {
  import opened SchemaModels
  import opened Database
  import opened SchemaReader
  import opened SchemaRegistry
  import opened RegistryInvariant
  import opened RegistryRuns
  import opened RegistryOutcomes
  import opened Compatibility

  // ---------------------------------------------------------------- what a mode asks

  /** Data written with `writer` can be read with `reader`. */
  predicate ReadsData(canRead: CanRead, reader: TypedSchema, writer: TypedSchema) {
    reader.schemaType == writer.schemaType && canRead(reader, writer)
  }

  ghost predicate Latest(db: Db, s: Subject, v: int) { db.Live(s, v) && forall w :: db.Live(s, w) ==> w <= v }

  ghost predicate LookedAt(db: Db, mode: Mode, s: Subject, v: int) {
    if mode in {BACKWARD_TRANSITIVE, FORWARD_TRANSITIVE, FULL_TRANSITIVE} then db.Live(s, v) else Latest(db, s, v)
  }

  /** The versions that the mode looks at can be resolved. */
  ghost predicate CheckedResolvable(db: Db, mode: Mode, s: Subject) {
    forall v :: LookedAt(db, mode, s, v) ==> Resolvable(db, db.At(s, v).schema.references)
  }

  /** Backward: data of the old schema is not read by the new one. Forward: data of the new schema is not read by the
      old one. Full: either. Transitive modes ask it of all live versions, the others of the latest. */
  ghost predicate RefusedUnder(canRead: CanRead, mode: Mode, db: Db, s: Subject, schema: TypedSchema) {
    match mode
    case BACKWARD => exists v :: Latest(db, s, v) && !ReadsData(canRead, schema, db.At(s, v).schema)
    case FORWARD => exists v :: Latest(db, s, v) && !ReadsData(canRead, db.At(s, v).schema, schema)
    case FULL =>
      exists v :: Latest(db, s, v) &&
        !(ReadsData(canRead, schema, db.At(s, v).schema) && ReadsData(canRead, db.At(s, v).schema, schema))
    case BACKWARD_TRANSITIVE => exists v :: db.Live(s, v) && !ReadsData(canRead, schema, db.At(s, v).schema)
    case FORWARD_TRANSITIVE => exists v :: db.Live(s, v) && !ReadsData(canRead, db.At(s, v).schema, schema)
    case FULL_TRANSITIVE =>
      exists v :: db.Live(s, v) &&
        !(ReadsData(canRead, schema, db.At(s, v).schema) && ReadsData(canRead, db.At(s, v).schema, schema))
    case NONE => false
  }

  lemma ModeAsks(canRead: CanRead, mode: Mode, db: Db, s: Subject, schema: TypedSchema)
    ensures RefusedUnder(canRead, mode, db, s, schema) <==>
            exists v :: Checked(db, mode, s, v) && !Compatible(canRead, mode, db.At(s, v).schema, schema)
  {
    assert forall v :: Checked(db, mode, s, v) <==> if mode.IsTransitive() then db.Live(s, v) else Latest(db, s, v);
  }

  /** Along every run: a schema that the subject does not know, that can be read, and whose checked versions can be
      resolved, is refused as incompatible exactly when the mode of the subject says so, and for no other reason. */
  lemma RefusedByMode(canRead: CanRead, mode: Mode, requests: seq<Request>, s: Subject, schema: TypedSchema)
    requires var st := Run(canRead, mode, requests).st;
             && Settled(schema) && st.db.Lookup(s, schema).None? && Readable(st.db, schema)
             && CheckedResolvable(st.db, ModeFor(st, s), s)
    ensures var st := Run(canRead, mode, requests).st;
            var reply := PlanRegister(canRead, st, s, schema).reply;
            && (reply == Failed(IncompatibleSchema) <==> RefusedUnder(canRead, ModeFor(st, s), st.db, s, schema))
            && (reply.Failed? ==> reply == Failed(IncompatibleSchema))
  {
    RunOk(canRead, mode, requests);
    var st := Run(canRead, mode, requests).st;
    var m := ModeFor(st, s);
    RegisterRefusedIff(canRead, mode, requests, s, schema);
    ModeAsks(canRead, m, st.db, s, schema);
    CheckedMeans(st.db, m, s);
    AllResolved(canRead, st.db, m, s, CheckedVersions(st.db, m, s), schema);
  }

  lemma {:induction false} AllResolved(canRead: CanRead, db: Db, mode: Mode, s: Subject, versions: seq<int>,
                                       schema: TypedSchema)
    requires forall v :: v in versions && db.Stored(s, v) ==> Resolvable(db, db.At(s, v).schema.references)
    ensures Obstacle(canRead, db, mode, s, versions, schema) in {None, Some(IncompatibleSchema)}
  {
    if versions != [] {
      assert versions[0] in versions;
      AllResolved(canRead, db, mode, s, versions[1..], schema);
    }
  }

  /** The live versions of a subject, each against every later one, as a transitive mode has it. */
  ghost predicate ReadInOrder(canRead: CanRead, mode: Mode, db: Db, s: Subject) {
    forall v, w :: db.Live(s, v) && db.Live(s, w) && v < w ==>
      var earlier, later := db.At(s, v).schema, db.At(s, w).schema;
      match mode
      case BACKWARD_TRANSITIVE => ReadsData(canRead, later, earlier)
      case FORWARD_TRANSITIVE => ReadsData(canRead, earlier, later)
      case FULL_TRANSITIVE => ReadsData(canRead, later, earlier) && ReadsData(canRead, earlier, later)
      case _ => true
  }

  /** If every registration of a subject since it last had no live version ran under one transitive mode and was stored
      with the type it was sent with: under BACKWARD_TRANSITIVE every later live version reads every earlier one, under
      FORWARD_TRANSITIVE the other way round, under FULL_TRANSITIVE both. */
  lemma TransitiveReads(canRead: CanRead, mode: Mode, requests: seq<Request>, s: Subject, m: Mode)
    requires m in {BACKWARD_TRANSITIVE, FORWARD_TRANSITIVE, FULL_TRANSITIVE}
    requires s in ModesUsed(canRead, mode, requests) ==> ModesUsed(canRead, mode, requests)[s] <= {Some(m)}
    ensures ReadInOrder(canRead, m, Run(canRead, mode, requests).st.db, s)
  {
    TransitiveModeHolds(canRead, mode, requests, s, m);
    var db := Run(canRead, mode, requests).st.db;
    forall v, w | db.Live(s, v) && db.Live(s, w) && v < w
      ensures Compatible(canRead, m, db.At(s, v).schema, db.At(s, w).schema)
    {
      assert PairwiseCompatible(canRead, m, db, s);
    }
  }

  /** What stands in the way of the new schema first: the least version looked at that cannot be resolved or does not
      agree with it. */
  ghost predicate FirstInTheWay(canRead: CanRead, mode: Mode, db: Db, s: Subject, schema: TypedSchema, v: int) {
    && LookedAt(db, mode, s, v) && InTheWay(canRead, mode, db, s, schema, v)
    && forall w :: LookedAt(db, mode, s, w) && InTheWay(canRead, mode, db, s, schema, w) ==> v <= w
  }

  ghost predicate InTheWay(canRead: CanRead, mode: Mode, db: Db, s: Subject, schema: TypedSchema, v: int) {
    db.Stored(s, v) &&
      (!Resolvable(db, db.At(s, v).schema.references) || !Compatible(canRead, mode, db.At(s, v).schema, schema))
  }

  /** The answer of the check that goes through `versions`. */
  ghost predicate Obstructed(canRead: CanRead, mode: Mode, db: Db, s: Subject, schema: TypedSchema, versions: seq<int>,
                          obstacle: Option<Error>)
  {
    match obstacle
    case None => forall v :: v in versions ==> !InTheWay(canRead, mode, db, s, schema, v)
    case Some(error) =>
      exists v :: v in versions && InTheWay(canRead, mode, db, s, schema, v)
        && (forall w :: w in versions && InTheWay(canRead, mode, db, s, schema, w) ==> v <= w)
        && (error == if Resolvable(db, db.At(s, v).schema.references) then IncompatibleSchema else InvalidReferences)
  }

  lemma {:induction false} FirstObstacle(canRead: CanRead, mode: Mode, db: Db, s: Subject, versions: seq<int>,
                                         schema: TypedSchema)
    requires NonDecreasing(versions) && forall v :: v in versions ==> db.Stored(s, v)
    ensures Obstructed(canRead, mode, db, s, schema, versions, Obstacle(canRead, db, mode, s, versions, schema))
  {
    if versions != [] {
      var v, rest := versions[0], versions[1..];
      assert versions == [v] + rest;
      FirstObstacle(canRead, mode, db, s, rest, schema);
      if InTheWay(canRead, mode, db, s, schema, v) {
        AnswersHere(canRead, mode, db, s, schema, v, rest);
      } else {
        AnswersLater(canRead, mode, db, s, schema, v, rest, Obstacle(canRead, db, mode, s, rest, schema));
      }
    }
  }

  lemma AnswersHere(canRead: CanRead, mode: Mode, db: Db, s: Subject, schema: TypedSchema, v: int, rest: seq<int>)
    requires NonDecreasing([v] + rest) && InTheWay(canRead, mode, db, s, schema, v)
    ensures Obstructed(canRead, mode, db, s, schema, [v] + rest,
                    Some(if Resolvable(db, db.At(s, v).schema.references) then IncompatibleSchema
                         else InvalidReferences))
  {
    var versions := [v] + rest;
    assert v == versions[0] && forall w :: w in versions ==> v <= w;
  }

  lemma AnswersLater(canRead: CanRead, mode: Mode, db: Db, s: Subject, schema: TypedSchema, v: int, rest: seq<int>,
                     obstacle: Option<Error>)
    requires !InTheWay(canRead, mode, db, s, schema, v) && Obstructed(canRead, mode, db, s, schema, rest, obstacle)
    ensures Obstructed(canRead, mode, db, s, schema, [v] + rest, obstacle)
  {
  }

  /** Along every run: a schema that the subject does not know is refused for unresolvable references, or as
      incompatible, exactly as the first version in the way is unresolvable or not. */
  lemma WhichRefusal(canRead: CanRead, mode: Mode, requests: seq<Request>, s: Subject, schema: TypedSchema)
    requires Settled(schema) && Run(canRead, mode, requests).st.db.Lookup(s, schema).None?
    ensures var st := Run(canRead, mode, requests).st; var m := ModeFor(st, s);
            var reply := PlanRegister(canRead, st, s, schema).reply;
            && (reply == Failed(InvalidReferences) <==>
                  exists v :: FirstInTheWay(canRead, m, st.db, s, schema, v) &&
                    !Resolvable(st.db, st.db.At(s, v).schema.references))
            && (reply == Failed(IncompatibleSchema) <==>
                  exists v :: FirstInTheWay(canRead, m, st.db, s, schema, v) &&
                    Resolvable(st.db, st.db.At(s, v).schema.references))
  {
    RunOk(canRead, mode, requests);
    var st := Run(canRead, mode, requests).st;
    var m := ModeFor(st, s);
    var versions := CheckedVersions(st.db, m, s);
    CheckedInOrder(st.db, m, s);
    CheckedLookedAt(st.db, m, s);
    FirstObstacle(canRead, m, st.db, s, versions, schema);
    FirstUnique(canRead, m, st.db, s, schema, versions, Obstacle(canRead, st.db, m, s, versions, schema));
  }

  lemma CheckedLookedAt(db: Db, mode: Mode, s: Subject)
    requires db.Versions(s).Ok()
    ensures forall v :: v in CheckedVersions(db, mode, s) <==> LookedAt(db, mode, s, v)
  {
    CheckedMeans(db, mode, s);
  }

  lemma CheckedInOrder(db: Db, mode: Mode, s: Subject)
    requires db.Versions(s).Ok()
    ensures NonDecreasing(CheckedVersions(db, mode, s))
  {
    SortedSpec(LiveVersions(db.Versions(s)));
  }

  /** The first obstacle says what the first version in the way is. */
  lemma FirstUnique(canRead: CanRead, mode: Mode, db: Db, s: Subject, schema: TypedSchema, versions: seq<int>,
                    obstacle: Option<Error>)
    requires forall v :: v in versions <==> LookedAt(db, mode, s, v)
    requires Obstructed(canRead, mode, db, s, schema, versions, obstacle)
    ensures obstacle == Some(InvalidReferences) <==>
              exists v :: FirstInTheWay(canRead, mode, db, s, schema, v) &&
                !Resolvable(db, db.At(s, v).schema.references)
    ensures obstacle == Some(IncompatibleSchema) <==>
              exists v :: FirstInTheWay(canRead, mode, db, s, schema, v) &&
                Resolvable(db, db.At(s, v).schema.references)
  {
    forall v, w | FirstInTheWay(canRead, mode, db, s, schema, v) && FirstInTheWay(canRead, mode, db, s, schema, w)
      ensures v == w
    {
    }
    if obstacle.Some? {
      var v :| v in versions && InTheWay(canRead, mode, db, s, schema, v)
               && (forall w :: w in versions && InTheWay(canRead, mode, db, s, schema, w) ==> v <= w)
               && (obstacle.value == if Resolvable(db, db.At(s, v).schema.references) then IncompatibleSchema
                                     else InvalidReferences);
      assert FirstInTheWay(canRead, mode, db, s, schema, v);
    }
  }

  // ---------------------------------------------------------------- deleting a subject

  /** The answer to a subject delete, each case on its own condition. */
  ghost predicate SubjectDeleteReply(db: Db, s: Subject, permanent: bool, reply: Reply) {
    && (reply == Failed(SubjectNotFound) <==> s !in db.subjects)
    && (reply == Failed(SchemasNotFound) <==> s in db.subjects && forall v :: !db.Stored(s, v))
    && (reply == Failed(SubjectNotSoftDeleted) <==> permanent && exists v :: db.Live(s, v))
    && (reply == Failed(SubjectSoftDeleted) <==>
          !permanent && (exists v :: db.Stored(s, v)) && forall v :: !db.Live(s, v))
    && (reply.Failed? && reply.error.ReferenceExists? <==>
          if permanent
          then (forall v :: !db.Live(s, v)) && exists v :: db.Stored(s, v) && db.ReferencedBy(s, v) != {}
          else exists v :: Latest(db, s, v) && db.ReferencedBy(s, v) != {})
    && (reply.Deleted? <==>
          if permanent
          then && (exists v :: db.Stored(s, v)) && (forall v :: !db.Live(s, v))
               && forall v :: db.Stored(s, v) ==> db.ReferencedBy(s, v) == {}
          else exists v :: Latest(db, s, v) && db.ReferencedBy(s, v) == {})
  }

  lemma LastLiveIsLatest(db: Db, s: Subject)
    requires Inv(db)
    ensures var live := LiveVersions(db.Versions(s));
            && (live == [] <==> forall v :: !db.Live(s, v))
            && (live != [] ==> Latest(db, s, live[|live| - 1]))
  {
    LiveVersionsSpec(db, s);
    var live := LiveVersions(db.Versions(s));
    if live != [] {
      assert live[|live| - 1] in live && live[0] in live;
      forall w | db.Live(s, w) ensures w <= live[|live| - 1] { assert w in live; }
    }
    if v :| db.Live(s, v) { assert v in live; }
  }

  lemma SomeStored(db: Db, s: Subject)
    requires Inv(db)
    ensures db.Versions(s).keys == [] <==> forall v :: !db.Stored(s, v)
  {
    if db.Versions(s).keys != [] { assert db.Stored(s, db.Versions(s).keys[0]); }
    if v :| db.Stored(s, v) { assert v in db.Versions(s).keys; }
  }

  lemma SoftSubjectDecides(st: State, s: Subject)
    requires Inv(st.db)
    ensures SubjectDeleteReply(st.db, s, false, PlanDeleteSubject(st, s, false).reply)
  {
    LastLiveIsLatest(st.db, s);
    SomeStored(st.db, s);
    var live := LiveVersions(st.db.Versions(s));
    if live != [] {
      assert forall v :: Latest(st.db, s, v) <==> v == live[|live| - 1];
    } else {
      assert forall v :: !Latest(st.db, s, v);
    }
  }

  lemma PermanentSubjectDecides(st: State, s: Subject)
    requires Inv(st.db)
    ensures SubjectDeleteReply(st.db, s, true, PlanDeleteSubject(st, s, true).reply)
  {
    LastLiveIsLatest(st.db, s);
    SomeStored(st.db, s);
    FirstReferencedSpec(st.db, s, st.db.Versions(s).keys);
    assert forall v :: v in st.db.Versions(s).keys <==> st.db.Stored(s, v);
  }

  lemma FailedSendsNothing(canRead: CanRead, w: World, s: Subject, permanent: bool)
    requires PlanDeleteSubject(w.st, s, permanent).reply.Failed?
    ensures Exec(canRead, w, DeleteSubject(s, permanent)) == w
  {
    assert PlanDeleteSubject(w.st, s, permanent).records == [];
    assert w.log + [] == w.log;
  }

  lemma SubjectDeleteDecides(canRead: CanRead, w: World, s: Subject, permanent: bool)
    requires Inv(w.st.db)
    ensures var reply := PlanDeleteSubject(w.st, s, permanent).reply;
            && SubjectDeleteReply(w.st.db, s, permanent, reply)
            && (reply.Failed? ==> Exec(canRead, w, DeleteSubject(s, permanent)) == w)
  {
    if permanent { PermanentSubjectDecides(w.st, s); } else { SoftSubjectDecides(w.st, s); }
    assert PlanDeleteSubject(w.st, s, permanent).reply.Failed? ==>
             Exec(canRead, w, DeleteSubject(s, permanent)) == w by {
      if PlanDeleteSubject(w.st, s, permanent).reply.Failed? { FailedSendsNothing(canRead, w, s, permanent); }
    }
  }

  /** Along every run: a soft delete of a subject succeeds exactly when some version is live and the greatest live one
      has no recorded referent; a permanent one exactly when some version is stored, none is live and none has a
      recorded referent. A failed one leaves everything as it was, topic included, and gives the error its condition
      asks for. */
  lemma SubjectDeleteAnswer(canRead: CanRead, mode: Mode, requests: seq<Request>, s: Subject, permanent: bool)
    ensures var w := Run(canRead, mode, requests);
            var reply := PlanDeleteSubject(w.st, s, permanent).reply;
            && SubjectDeleteReply(w.st.db, s, permanent, reply)
            && (reply.Failed? ==> Exec(canRead, w, DeleteSubject(s, permanent)) == w)
  {
    RunOk(canRead, mode, requests);
    SubjectDeleteDecides(canRead, Run(canRead, mode, requests), s, permanent);
  }

  // ---------------------------------------------------------------- deleting a version

  /** The answer to a version delete, each case on its own condition; `v` is the version that is meant. */
  ghost predicate VersionDeleteReply(db: Db, s: Subject, version: int, permanent: bool, reply: Reply) {
    && (reply == Failed(SubjectNotFound) <==> s !in db.subjects)
    && (reply == Failed(SchemasNotFound) <==> s in db.subjects && forall v :: !db.Stored(s, v))
    && (reply == Failed(NoLiveVersion) <==>
          version == LATEST && !permanent && (exists v :: db.Stored(s, v)) && forall v :: !db.Live(s, v))
    && (reply == Failed(VersionNotFound) <==>
          version != LATEST && (exists v :: db.Stored(s, v)) && !db.Stored(s, version))
    && (reply == Failed(VersionSoftDeleted) <==>
          !permanent && exists v :: Meant(db, s, version, permanent, v) && db.SoftDeleted(s, v))
    && (reply == Failed(VersionNotSoftDeleted) <==>
          permanent && exists v :: Meant(db, s, version, permanent, v) && db.Live(s, v))
    && (reply.Failed? && reply.error.ReferenceExists? <==>
          exists v :: && Meant(db, s, version, permanent, v) && db.ReferencedBy(s, v) != {}
                      && if permanent then db.SoftDeleted(s, v) else db.Live(s, v))
  }

  lemma NamedDeleteDecides(st: State, s: Subject, version: int, permanent: bool)
    requires Inv(st.db) && version != LATEST
    ensures VersionDeleteReply(st.db, s, version, permanent, PlanDeleteVersion(st, s, version, permanent).reply)
  {
    SomeStored(st.db, s);
    assert Meant(st.db, s, version, permanent, version);
  }

  /** The alias has the same answer as the version it means. */
  lemma AliasIsNamed(st: State, s: Subject, permanent: bool, v: int)
    requires Inv(st.db) && Meant(st.db, s, LATEST, permanent, v)
    ensures v != LATEST && st.db.Stored(s, v)
    ensures PlanDeleteVersion(st, s, LATEST, permanent).reply == PlanDeleteVersion(st, s, v, permanent).reply
  {
    MeantUnique(st.db, s, permanent, v);
    assert v in st.db.Versions(s).keys && v >= 1;
  }

  lemma NothingMeant(st: State, s: Subject, permanent: bool)
    requires Inv(st.db) && forall v :: !Meant(st.db, s, LATEST, permanent, v)
    ensures if permanent then forall v :: !st.db.Stored(s, v) else forall v :: !st.db.Live(s, v)
    ensures VersionDeleteReply(st.db, s, LATEST, permanent, PlanDeleteVersion(st, s, LATEST, permanent).reply)
  {
    CandidatesMeant(st.db, s, permanent);
    SomeStored(st.db, s);
  }

  lemma AliasDeleteDecides(st: State, s: Subject, permanent: bool)
    requires Inv(st.db)
    ensures VersionDeleteReply(st.db, s, LATEST, permanent, PlanDeleteVersion(st, s, LATEST, permanent).reply)
  {
    if v :| Meant(st.db, s, LATEST, permanent, v) {
      AliasIsNamed(st, s, permanent, v);
      NamedDeleteDecides(st, s, v, permanent);
      forall u | Meant(st.db, s, LATEST, permanent, u) ensures u == v { OneMeant(st.db, s, LATEST, permanent, u, v); }
      assert forall u :: Meant(st.db, s, v, permanent, u) <==> u == v;
    } else {
      NothingMeant(st, s, permanent);
    }
  }

  /** Along every run a version delete gives the error that its condition asks for; `VersionDeleteAnswer` says when it
      succeeds and when its send times out. */
  lemma VersionDeleteErrors(canRead: CanRead, mode: Mode, requests: seq<Request>, s: Subject, version: int,
                            permanent: bool)
    ensures var st := Run(canRead, mode, requests).st;
            VersionDeleteReply(st.db, s, version, permanent, PlanDeleteVersion(st, s, version, permanent).reply)
  {
    RunOk(canRead, mode, requests);
    var st := Run(canRead, mode, requests).st;
    if version == LATEST {
      AliasDeleteDecides(st, s, permanent);
    } else {
      NamedDeleteDecides(st, s, version, permanent);
    }
  }

  // ---------------------------------------------------------------- the alias for the latest version

  /** On every registry-written log a reference to the alias means the greatest live version of its subject, if there is
      one; any other reference means what it says. */
  lemma AliasMeansLatest(log: seq<Record>, ref: Reference)
    requires RegistryWritten(log)
    ensures var db := Replay(log); var r := Pinned(db, ref);
            && r.name == ref.name && r.subject == ref.subject
            && (ref.version != LATEST ==> r == ref)
            && (ref.version == LATEST && (exists v :: db.Live(ref.subject, v)) ==> Latest(db, ref.subject, r.version))
            && (ref.version == LATEST && (forall v :: !db.Live(ref.subject, v)) ==> r == ref)
  {
    ReplayInv(log);
    var db := Replay(log);
    LiveVersionsSpec(db, ref.subject);
    LastLiveIsLatest(db, ref.subject);
    if LiveVersions(db.Versions(ref.subject)) != [] { MaxSpec(LiveVersions(db.Versions(ref.subject))); }
  }

  /** What the reader stores for a record it accepts, of whatever origin: the text, and the references pinned to live
      versions, the alias to the latest one; none for JSON schema. */
  lemma StoredReferences(log: seq<Record>, r: Record)
    requires RegistryWritten(log) && r.SchemaRecord? && Accepted(Replay(log), r)
    ensures var db, after := Replay(log), Apply(Replay(log), r);
            && after.Stored(r.subject, r.version) && after.At(r.subject, r.version).schema.text == r.schema.text
            && ReferencesPinned(db, r.schema, after.At(r.subject, r.version).schema.references)
  {
    var db := Replay(log);
    ReplayInv(log);
    var kept := db.Cached(Understood(db, r.schema));
    assert kept.Fp() == Understood(db, r.schema).Fp();
    if !r.schema.schemaType.JsonSchema? {
      var depth: nat :| ResolveAll(db, r.schema.references, depth).Some?;
      AllLive(db, r.schema.references, depth);
      forall i | 0 <= i < |r.schema.references|
        ensures PinnedTo(db, r.schema.references[i], kept.references[i])
      {
        AliasMeansLatest(log, r.schema.references[i]);
      }
    }
  }

  ghost predicate PinnedTo(db: Db, ref: Reference, r: Reference) {
    && r.name == ref.name && r.subject == ref.subject && db.Live(r.subject, r.version)
    && (if ref.version == LATEST then Latest(db, r.subject, r.version) else r.version == ref.version)
  }

  ghost predicate ReferencesPinned(db: Db, schema: TypedSchema, references: seq<Reference>) {
    if schema.schemaType.JsonSchema? then references == []
    else && |references| == |schema.references|
         && forall i :: 0 <= i < |references| ==> PinnedTo(db, schema.references[i], references[i])
  }

  lemma {:induction false} AllLive(db: Db, refs: seq<Reference>, depth: nat)
    requires ResolveAll(db, refs, depth).Some?
    ensures forall i :: 0 <= i < |refs| ==> var r := Pinned(db, refs[i]); db.Live(r.subject, r.version)
    decreases |refs|
  {
    if refs != [] { AllLive(db, refs[..|refs| - 1], depth); }
  }

  // ---------------------------------------------------------------- what resolution gives

  ghost predicate LastNamed(refs: seq<Reference>, i: int, name: string) {
    0 <= i < |refs| && refs[i].name == name && forall j :: i < j < |refs| ==> refs[j].name != name
  }

  /** The dependency is the live version that the reference means, with its stored schema and what that one needs. */
  ghost predicate StandsFor(db: Db, ref: Reference, d: Dependency)
    decreases d, 1
  {
    PinnedTo(db, ref, d.ref) && d.schema == db.At(d.ref.subject, d.ref.version).schema &&
      ByName(db, d.schema.references, d.dependencies)
  }

  ghost predicate StandsForLast(db: Db, refs: seq<Reference>, d: Dependency)
    decreases d, 2
  {
    exists i :: LastNamed(refs, i, d.ref.name) && StandsFor(db, refs[i], d)
  }

  /** One dependency for each name, that of the last reference with that name. */
  ghost predicate ByName(db: Db, refs: seq<Reference>, deps: seq<Dependency>)
    decreases deps
  {
    && NamesDiffer(deps) && (forall i :: 0 <= i < |refs| ==> HasName(deps, refs[i].name))
    && forall k :: 0 <= k < |deps| ==> StandsForLast(db, refs, deps[k])
  }

  ghost predicate NamesDiffer(deps: seq<Dependency>) {
    forall i, j :: 0 <= i < j < |deps| ==> deps[i].ref.name != deps[j].ref.name
  }

  ghost predicate HasName(deps: seq<Dependency>, name: string) {
    exists k :: 0 <= k < |deps| && deps[k].ref.name == name
  }

  /** After every registry-written log: what resolution gives, at all levels, is one dependency for each reference name,
      the live version that the last reference of that name means. */
  lemma {:induction false} ResolvedByName(log: seq<Record>, refs: seq<Reference>, depth: nat)
    requires RegistryWritten(log) && ResolveAll(Replay(log), refs, depth).Some?
    ensures ByName(Replay(log), refs, ResolveAll(Replay(log), refs, depth).value)
    decreases depth, 1, |refs|
  {
    if refs != [] {
      var init, last := refs[..|refs| - 1], refs[|refs| - 1];
      var db := Replay(log);
      ResolvedByName(log, init, depth);
      ResolvedStands(log, last, depth);
      assert refs == init + [last];
      OneMoreByName(db, init, last, ResolveAll(db, init, depth).value, Resolve(db, last, depth).value);
    }
  }

  lemma {:induction false} ResolvedStands(log: seq<Record>, ref: Reference, depth: nat)
    requires RegistryWritten(log) && Resolve(Replay(log), ref, depth).Some?
    ensures StandsFor(Replay(log), ref, Resolve(Replay(log), ref, depth).value)
    decreases depth, 0, 0
  {
    var db := Replay(log);
    var r := Pinned(db, ref);
    AliasMeansLatest(log, ref);
    ResolvedByName(log, db.At(r.subject, r.version).schema.references, depth - 1);
  }

  lemma {:induction false} PutByNameSpec(deps: seq<Dependency>, d: Dependency)
    requires NamesDiffer(deps)
    ensures var out := PutByName(deps, d);
            && NamesDiffer(out) && d in out
            && (forall x :: x in out ==> x == d || (x in deps && x.ref.name != d.ref.name))
            && (forall x :: x in deps && x.ref.name != d.ref.name ==> x in out)
  {
    if deps != [] && deps[0].ref.name != d.ref.name {
      PutByNameSpec(deps[1..], d);
      assert deps == [deps[0]] + deps[1..];
      PutFirst(deps[0], PutByName(deps[1..], d));
    } else if deps != [] {
      assert deps == [deps[0]] + deps[1..];
      PutFirst(d, deps[1..]);
    }
  }

  lemma PutFirst(x: Dependency, deps: seq<Dependency>)
    requires NamesDiffer(deps) && forall y :: y in deps ==> y.ref.name != x.ref.name
    ensures NamesDiffer([x] + deps)
  {
  }

  lemma OneMoreByName(db: Db, init: seq<Reference>, last: Reference, deps: seq<Dependency>, d: Dependency)
    requires ByName(db, init, deps) && StandsFor(db, last, d)
    ensures ByName(db, init + [last], PutByName(deps, d))
  {
    var refs, out := init + [last], PutByName(deps, d);
    PutByNameSpec(deps, d);
    forall i | 0 <= i < |refs| ensures HasName(out, refs[i].name) {
      if refs[i].name == d.ref.name {
        NameOf(out, d);
      } else {
        assert HasName(deps, init[i].name);
        var k :| 0 <= k < |deps| && deps[k].ref.name == refs[i].name;
        NameOf(out, deps[k]);
      }
    }
    forall k | 0 <= k < |out| ensures StandsForLast(db, refs, out[k]) {
      assert out[k] in out;
      if out[k] == d {
        assert LastNamed(refs, |init|, d.ref.name);
      } else {
        var j :| 0 <= j < |deps| && deps[j] == out[k];
        StillLast(db, init, last, deps[j]);
      }
    }
  }

  lemma NameOf(deps: seq<Dependency>, d: Dependency)
    requires d in deps
    ensures HasName(deps, d.ref.name)
  {
  }

  lemma StillLast(db: Db, init: seq<Reference>, last: Reference, d: Dependency)
    requires StandsForLast(db, init, d) && d.ref.name != last.name
    ensures StandsForLast(db, init + [last], d)
  {
    var i :| LastNamed(init, i, d.ref.name) && StandsFor(db, init[i], d);
    assert LastNamed(init + [last], i, d.ref.name);
  }

  // ---------------------------------------------------------------- ids

  ghost predicate Used(log: seq<Record>, id: int) {
    exists i :: 0 <= i < |log| && log[i].SchemaRecord? && log[i].id == id
  }

  ghost predicate Gapless(w: World) {
    && w.st.counter >= 0 && (forall id :: Used(w.log, id) <==> 1 <= id <= w.st.counter)
    && forall id :: id in w.st.db.schemas.entries ==> 1 <= id <= w.st.counter
  }

  /** Along every run the ids on the topic are exactly the numbers from 1 to the counter: ids are given out one after
      the other, none is skipped, and none is given to a request that sends nothing. */
  lemma {:induction false} IdsWithoutGaps(canRead: CanRead, mode: Mode, requests: seq<Request>)
    ensures Gapless(Run(canRead, mode, requests))
  {
    if requests != [] {
      var init := requests[..|requests| - 1];
      IdsWithoutGaps(canRead, mode, init);
      RunOk(canRead, mode, init);
      ExecGapless(canRead, Run(canRead, mode, init), requests[|requests| - 1]);
    }
  }

  /** The ids of the records are within the counter, which went up by one exactly for an id among them. */
  ghost predicate IdsFit(st: State, plan: Plan) {
    && (forall id :: Used(plan.records, id) ==> 1 <= id <= plan.counter)
    && (plan.counter == st.counter || (plan.counter == st.counter + 1 && Used(plan.records, plan.counter)))
  }

  lemma ExecGapless(canRead: CanRead, w: World, request: Request)
    requires WorldOk(w) && Inv(w.st.db) && Gapless(w)
    ensures Gapless(Exec(canRead, w, request))
  {
    var plan := PlanOf(canRead, w.st, request);
    PlanIdsFit(canRead, w, request);
    HandledIds(w.st.(counter := plan.counter), plan.records);
    forall id ensures Used(w.log + plan.records, id) <==> Used(w.log, id) || Used(plan.records, id) {
      UsedAppend(w.log, plan.records, id);
    }
  }

  lemma UsedAppend(log: seq<Record>, rs: seq<Record>, id: int)
    ensures Used(log + rs, id) <==> Used(log, id) || Used(rs, id)
  {
    var all := log + rs;
    if Used(log, id) {
      var i :| 0 <= i < |log| && log[i].SchemaRecord? && log[i].id == id;
      assert all[i] == log[i];
    }
    if Used(rs, id) {
      var i :| 0 <= i < |rs| && rs[i].SchemaRecord? && rs[i].id == id;
      assert all[|log| + i] == rs[i];
    }
  }

  lemma PlanIdsFit(canRead: CanRead, w: World, request: Request)
    requires Inv(w.st.db) && CounterCovers(w.st) && Gapless(w)
    ensures IdsFit(w.st, PlanOf(canRead, w.st, request))
  {
    var plan := PlanOf(canRead, w.st, request);
    match request
    case Register(s, schema) =>
      RegisterDecides(canRead, w.st, s, schema);
      if plan.records != [] {
        RegisterAnswers(canRead, w.st, s, schema);
        SchemaIdRight(w.st, schema);
        assert plan.records[0].id == SchemaIdFor(w.st, schema).0;
      }
    case DeleteVersion(s, v, permanent) => DeleteVersionIds(w, s, v, permanent);
    case DeleteSubject(s, permanent) =>
    case Configure(target, mode) =>
  }

  lemma DeleteVersionIds(w: World, s: Subject, version: int, permanent: bool)
    requires Inv(w.st.db) && Gapless(w)
    ensures IdsFit(w.st, PlanDeleteVersion(w.st, s, version, permanent))
  {
    var plan := PlanDeleteVersion(w.st, s, version, permanent);
    if plan.records != [] && plan.records[0].SchemaRecord? {
      var v := plan.records[0].version;
      assert w.st.db.Stored(s, v) && plan.records[0].id == w.st.db.At(s, v).id;
    }
  }

  lemma {:induction false} HandledIds(st: State, rs: seq<Record>)
    requires forall id :: Used(rs, id) ==> 1 <= id <= st.counter
    requires forall id :: id in st.db.schemas.entries ==> 1 <= id <= st.counter
    ensures var d := HandleAll(st, rs);
            d.counter == st.counter && forall id :: id in d.db.schemas.entries ==> 1 <= id <= st.counter
  {
    if rs != [] {
      var init, r := rs[..|rs| - 1], rs[|rs| - 1];
      assert rs == init + [r];
      forall id | Used(init, id) ensures 1 <= id <= st.counter { UsedAppend(init, [r], id); }
      HandledIds(st, init);
      var mid := HandleAll(st, init);
      if r.SchemaRecord? { assert Used(rs, r.id); }
      match r
      case Tombstone(s, v) => assert HardDelete(mid.db, s, v).schemas == mid.db.schemas;
      case ConfigRecord(target, mode) => ConfigureFrame(mid.db, target, mode);
      case _ =>
    }
  }
}
