/** The registry of a master and the reader behind it as objects: each operation changes the database entry by entry and
    sends its records one by one, and ends in the state that `SchemaRegistry.Exec` gives. */
module RegistryService {
  import opened SchemaModels
  import opened Database
  import opened SchemaReader
  import opened SchemaRegistry
  import opened RegistryInvariant
  import opened RegistryRuns
  import opened DatabaseStore
  import opened References

  lemma SentOk(w: World, r: Record)
    requires WorldOk(w) && Legit(w.st.db, r)
    ensures WorldOk(World(HandleMsg(w.st, r), w.log + [r]))
  {
    HandleMsgCovers(w.st, r);
    ReplaySnoc(w.log, r);
    assert LegitAll(w.st.db, [r]) by { assert ApplyAll(w.st.db, [r][..0]) == w.st.db; }
    WrittenAppend(w.log, [r]);
  }

  lemma HandleOne(st: State, r: Record)
    ensures HandleAll(st, [r]) == HandleMsg(st, r)
  {
    assert [r][..0] == [];
    assert HandleAll(st, [r][..0]) == st;
  }

  /** Where a registry is once it has sent, and its reader handled, these records. */
  ghost function Sent(w: World, records: seq<Record>): World { World(HandleAll(w.st, records), w.log + records) }

  lemma SentNone(w: World)
    ensures Sent(w, []) == w
  {
    assert w.log + [] == w.log;
  }

  lemma HandleAllSnoc(st: State, records: seq<Record>, i: nat)
    requires i < |records|
    ensures HandleAll(st, records[..i + 1]) == HandleMsg(HandleAll(st, records[..i]), records[i])
  {
    assert records[..i + 1][..i] == records[..i];
  }

  lemma SentLegit(w: World, records: seq<Record>, i: nat)
    requires i < |records| && CounterCovers(w.st) && LegitAll(w.st.db, records)
    ensures Legit(HandleAll(w.st, records[..i]).db, records[i])
  {
    HandleAllDb(w.st, records[..i]);
    assert Legit(ApplyAll(w.st.db, records[..i]), records[i]);
  }

  lemma SentStep(w: World, records: seq<Record>, i: nat)
    requires i < |records|
    ensures var before := Sent(w, records[..i]);
            Sent(w, records[..i + 1]) == World(HandleMsg(before.st, records[i]), before.log + [records[i]])
  {
    HandleAllSnoc(w.st, records, i);
    assert w.log + records[..i + 1] == (w.log + records[..i]) + [records[i]];
  }

  lemma RunSnoc(canRead: CanRead, mode: Mode, requests: seq<Request>, request: Request)
    ensures Run(canRead, mode, requests + [request]) == Exec(canRead, Run(canRead, mode, requests), request)
  {
    assert (requests + [request])[..|requests|] == requests;
  }

  /** What a registration that nothing stands in the way of decides. */
  ghost function Registering(st: State, s: Subject, schema: TypedSchema): Plan {
    var keys := st.db.Versions(s).keys;
    var (id, counter) := SchemaIdFor(st, schema);
    var version := if keys == [] then 1 else Max(keys) + 1;
    Sending(st.db, counter, Registered(id), SchemaRecord(s, version, id, schema, false))
  }

  lemma OneLegit(db: Db, r: Record)
    requires LegitAll(db, [r])
    ensures Legit(db, r)
  {
    assert ApplyAll(db, [r][..0]) == db;
  }

  class KarapaceSchemaRegistry {
    const database: InMemoryDatabase
    var compatibility: Mode
    var topic: seq<Record>

    ghost function Now(): State
      reads this, database
    {
      State(database.Content(), database.globalSchemaId, compatibility)
    }

    ghost function World(): World
      reads this, database
    {
      SchemaRegistry.World(Now(), topic)
    }

    ghost predicate Valid()
      reads this, database
    {
      database.Valid() && WorldOk(World())
    }

    constructor (mode: Mode)
      ensures Valid() && fresh(database)
      ensures forall canRead :: World() == Run(canRead, mode, [])
    {
      database := new InMemoryDatabase();
      compatibility, topic := mode, [];
    }

    // -------------------------------------------------------------- the reader

    /** Whether `resolve_references` succeeds. */
    method CanResolve(refs: seq<Reference>) returns (ok: bool)
      requires Valid()
      ensures ok <==> Resolvable(database.Content(), refs)
    {
      var deps := ResolveInRegistry(topic, database.Content(), refs);
      return deps.Some?;
    }

    method HandleMsgConfig(target: Option<Subject>, mode: Option<Mode>)
      requires database.Valid()
      modifies this`compatibility, database
      ensures database.Valid() && Now() == HandleMsg(old(Now()), ConfigRecord(target, mode))
    {
      if target.Some? {
        if target.value !in database.subjects { database.InsertSubject(target.value); }
        database.SetSubjectCompatibility(target.value, mode);
      } else if mode.Some? {
        compatibility := mode.value;
      }
    }

    method HandleMsgDeleteSubject(s: Subject, v: int)
      requires database.Valid() && Inv(database.Content())
      modifies database
      ensures database.Valid() && Now() == HandleMsg(old(Now()), DeleteSubjectRecord(s, v))
    {
      if s in database.subjects {
        ghost var db := database.Content();
        forall w | w in database.subjects[s].versions.entries
          ensures database.subjects[s].versions.entries[w].version == w
        {
          assert db.Stored(s, w) && db.At(s, w) == database.subjects[s].versions.entries[w];
        }
        database.DeleteSubject(s, v);
      }
    }

    method HandleMsgSchemaHardDelete(s: Subject, v: int)
      requires database.Valid()
      modifies database
      ensures database.Valid() && Now() == HandleMsg(old(Now()), Tombstone(s, v))
    {
      if s in database.subjects && v in database.subjects[s].versions.entries {
        database.DeleteSubjectSchema(s, v);
        ghost var left := database.subjects[s].versions;
        assert left.entries == map[] <==> left.keys == [] by {
          if left.keys != [] { assert left.keys[0] in left.entries; }
        }
        if database.subjects[s].versions.keys == [] {
          database.DeleteSubjectHard(s);
        }
      }
    }

    /** False when the references cannot be resolved; the record is then skipped. */
    method HandleMsgSchema(s: Subject, v: int, id: int, schema: TypedSchema, deleted: bool) returns (accepted: bool)
      requires Valid()
      modifies database
      ensures database.Valid() && Now() == HandleMsg(old(Now()), SchemaRecord(s, v, id, schema, deleted))
      ensures accepted <==> Accepted(old(database.Content()), SchemaRecord(s, v, id, schema, deleted))
    {
      ReplayInv(topic);
      accepted := true;
      if !schema.schemaType.JsonSchema? { accepted := CanResolve(schema.references); }
      if accepted {
        database.InsertSchemaVersion(s, id, v, deleted, Understood(database.Content(), schema));
      }
    }

    method Handle(r: Record) returns (accepted: bool)
      requires Valid()
      modifies this`compatibility, database
      ensures database.Valid() && Now() == HandleMsg(old(Now()), r)
      ensures accepted <==> Accepted(old(database.Content()), r)
    {
      ReplayInv(topic);
      accepted := true;
      match r
      case SchemaRecord(s, v, id, schema, deleted) => accepted := HandleMsgSchema(s, v, id, schema, deleted);
      case Tombstone(s, v) => HandleMsgSchemaHardDelete(s, v);
      case DeleteSubjectRecord(s, v) => HandleMsgDeleteSubject(s, v);
      case ConfigRecord(target, mode) => HandleMsgConfig(target, mode);
      case Noop =>
    }

    /** The producer returns once the offset watcher has seen the record, which it does when the node's own reader
        accepts it; otherwise the send times out. */
    method SendMessage(r: Record) returns (seen: bool)
      requires Valid() && Legit(database.Content(), r)
      modifies this, database
      ensures Valid() && World() == SchemaRegistry.World(HandleMsg(old(Now()), r), old(topic) + [r])
      ensures seen <==> Accepted(old(database.Content()), r)
    {
      SentOk(World(), r);
      seen := Handle(r);
      topic := topic + [r];
    }

    // -------------------------------------------------------------- the operations

    method GetCompatibilityMode(s: Subject) returns (mode: Mode)
      ensures mode == ModeFor(Now(), s)
    {
      if s in database.subjects && database.subjects[s].compatibility.Some? {
        return database.subjects[s].compatibility.value;
      }
      return compatibility;
    }

    /** The first obstacle among the versions that the mode asks to be checked. */
    method CheckSchemaCompatibility(canRead: CanRead, s: Subject, schema: TypedSchema) returns (obstacle: Option<Error>)
      requires Valid()
      ensures var mode := ModeFor(Now(), s); var db := database.Content();
              obstacle == Obstacle(canRead, db, mode, s, CheckedVersions(db, mode, s), schema)
    {
      var mode := GetCompatibilityMode(s);
      var live := database.FindLiveVersions(s);
      live := Sorted(live);
      var checked := if live == [] then [] else if mode.IsTransitive() then live else [live[|live| - 1]];
      ghost var db := database.Content();
      for i := 0 to |checked|
        invariant Obstacle(canRead, db, mode, s, checked[i..], schema) ==
                  Obstacle(canRead, db, mode, s, checked, schema)
      {
        if s in database.subjects && checked[i] in database.subjects[s].versions.entries {
          var first := database.subjects[s].versions.entries[checked[i]].schema;
          var resolved := CanResolve(first.references);
          if !resolved { return Some(InvalidReferences); }
          if !Compatible(canRead, mode, first, schema) { return Some(IncompatibleSchema); }
        }
      }
      return None;
    }

    /** The answer of a registration that sends nothing, if it is one. */
    method Settle(canRead: CanRead, s: Subject, schema: TypedSchema) returns (reply: Option<Reply>)
      requires Valid()
      ensures PlanRegister(canRead, Now(), s, schema) ==
                if reply.Some? then Plan(Now().counter, reply.value, []) else Registering(Now(), s, schema)
    {
      if !Settled(schema) { return Some(Failed(InvalidReferences)); }
      var known := database.GetSchemaIdIfExists(s, schema);
      if known.Some? { return Some(Registered(known.value)); }
      var obstacle := CheckSchemaCompatibility(canRead, s, schema);
      if obstacle.Some? { return Some(Failed(obstacle.value)); }
      return None;
    }

    method WriteNewSchemaLocal(canRead: CanRead, s: Subject, schema: TypedSchema) returns (reply: Reply)
      requires Valid()
      modifies this, database
      ensures Valid() && World() == Exec(canRead, old(World()), Register(s, schema))
      ensures reply == PlanRegister(canRead, old(Now()), s, schema).reply
    {
      ghost var w := World();
      ReplayInv(topic);
      PlanLegit(canRead, w.st, Register(s, schema));
      SentNone(w);
      var settled := Settle(canRead, s, schema);
      if settled.Some? { return settled.value; }
      var version := 1;
      if s in database.subjects && database.subjects[s].versions.keys != [] {
        version := database.GetNextVersion(s);
      }
      var id := database.GetSchemaId(schema);
      ghost var plan := Registering(w.st, s, schema);
      assert plan.counter == database.globalSchemaId && plan.records == [SchemaRecord(s, version, id, schema, false)];
      OneLegit(w.st.db, plan.records[0]);
      HandleOne(Now(), plan.records[0]);
      var seen := SendMessage(SchemaRecord(s, version, id, schema, false));
      reply := if seen then Registered(id) else Failed(SendTimedOut);
    }

    /** Answers `plan` when its one record, if any, has been sent. */
    method SubjectVersionDeleteLocal(canRead: CanRead, s: Subject, version: int, permanent: bool) returns (reply: Reply)
      requires Valid()
      modifies this, database
      ensures Valid() && World() == Exec(canRead, old(World()), DeleteVersion(s, version, permanent))
      ensures reply == PlanDeleteVersion(old(Now()), s, version, permanent).reply
    {
      ghost var w, request := World(), DeleteVersion(s, version, permanent);
      ReplayInv(topic);
      PlanLegit(canRead, w.st, request);
      ExecOk(canRead, w, request);
      if s !in database.subjects { return Failed(SubjectNotFound); }
      var versions := database.subjects[s].versions;
      if versions.keys == [] { return Failed(SchemasNotFound); }
      var candidates := versions.keys;
      if !permanent && version == LATEST { candidates := database.FindLiveVersions(s); }
      if candidates == [] { return Failed(NoLiveVersion); }
      var v := if version == LATEST then Max(candidates) else version;
      if v !in versions.entries { return Failed(VersionNotFound); }
      var entry := versions.entries[v];
      if entry.deleted && !permanent { return Failed(VersionSoftDeleted); }
      if permanent && !entry.deleted { return Failed(VersionNotSoftDeleted); }
      var referents := database.GetReferencedBy(s, v);
      if referents != {} { return Failed(ReferenceExists(referents, v)); }
      var r := if permanent then Tombstone(s, v) else SchemaRecord(s, v, entry.id, entry.schema, true);
      ghost var plan := PlanDeleteVersion(w.st, s, version, permanent);
      assert plan == Sending(w.st.db, w.st.counter, Deleted([v]), r);
      OneLegit(w.st.db, r);
      HandleOne(w.st, r);
      var seen := SendMessage(r);
      reply := if seen then Deleted([v]) else Failed(SendTimedOut);
    }

    /** The records of a subject delete, none of which can be refused. */
    method SendAll(records: seq<Record>)
      requires Valid() && LegitAll(database.Content(), records) && forall r :: r in records ==> !r.SchemaRecord?
      modifies this, database
      ensures Valid() && World() == Sent(old(World()), records)
    {
      ghost var w := World();
      SentNone(w);
      assert records[..0] == [];
      for i := 0 to |records|
        invariant Valid() && World() == Sent(w, records[..i])
      {
        SentLegit(w, records, i);
        SentStep(w, records, i);
        var seen := SendMessage(records[i]);
        assert seen;
      }
      assert records[..|records|] == records;
    }

    /** The first version, in dict order, that something references. */
    method FindReferenced(s: Subject, keys: seq<int>) returns (v: Option<int>)
      ensures v == FirstReferenced(database.Content(), s, keys)
    {
      for i := 0 to |keys|
        invariant FirstReferenced(database.Content(), s, keys[i..]) == FirstReferenced(database.Content(), s, keys)
      {
        var referents := database.GetReferencedBy(s, keys[i]);
        if referents != {} { return Some(keys[i]); }
      }
      return None;
    }

    /** The checks of a subject delete: its answer and the records it is to send. */
    method CheckSubjectDelete(s: Subject, permanent: bool) returns (reply: Reply, records: seq<Record>)
      requires Valid()
      ensures PlanDeleteSubject(Now(), s, permanent) == Plan(Now().counter, reply, records)
    {
      records := [];
      if s !in database.subjects { return Failed(SubjectNotFound), []; }
      var versions := database.subjects[s].versions;
      if versions.keys == [] { return Failed(SchemasNotFound), []; }
      var live := database.FindLiveVersions(s);
      if permanent && live != [] { return Failed(SubjectNotSoftDeleted), []; }
      if !permanent && live == [] { return Failed(SubjectSoftDeleted), []; }
      if permanent {
        var v := FindReferenced(s, versions.keys);
        if v.Some? {
          var referents := database.GetReferencedBy(s, v.value);
          return Failed(ReferenceExists(referents, v.value)), [];
        }
        return Deleted(versions.keys), Tombstones(s, versions.keys);
      }
      var latest := live[|live| - 1];
      var referents := database.GetReferencedBy(s, latest);
      if referents != {} { return Failed(ReferenceExists(referents, latest)), []; }
      return Deleted(live), [DeleteSubjectRecord(s, latest)];
    }

    method SubjectDeleteLocal(canRead: CanRead, s: Subject, permanent: bool) returns (reply: Reply)
      requires Valid()
      modifies this, database
      ensures Valid() && World() == Exec(canRead, old(World()), DeleteSubject(s, permanent))
      ensures reply == PlanDeleteSubject(old(Now()), s, permanent).reply
    {
      ReplayInv(topic);
      PlanLegit(canRead, Now(), DeleteSubject(s, permanent));
      var records: seq<Record>;
      reply, records := CheckSubjectDelete(s, permanent);
      SendAll(records);
    }

    method SetConfig(canRead: CanRead, target: Option<Subject>, mode: Option<Mode>)
      requires Valid()
      modifies this, database
      ensures Valid() && World() == Exec(canRead, old(World()), SchemaRegistry.Configure(target, mode))
    {
      ghost var w := World();
      ExecOk(canRead, w, SchemaRegistry.Configure(target, mode));
      HandleOne(w.st, ConfigRecord(target, mode));
      var seen := SendMessage(ConfigRecord(target, mode));
      assert seen;
    }

    method ServeOne(canRead: CanRead, request: Request) returns (reply: Reply)
      requires Valid()
      modifies this, database
      ensures Valid() && World() == Exec(canRead, old(World()), request) &&
              reply == PlanOf(canRead, old(Now()), request).reply
    {
      match request {
        case Register(s, schema) => reply := WriteNewSchemaLocal(canRead, s, schema);
        case DeleteVersion(s, v, permanent) => reply := SubjectVersionDeleteLocal(canRead, s, v, permanent);
        case DeleteSubject(s, permanent) => reply := SubjectDeleteLocal(canRead, s, permanent);
        case Configure(target, mode) => SetConfig(canRead, target, mode); reply := Done;
      }
    }

    /** One request after the other from an empty topic: the objects end where the run of the model ends. */
    method Serve(canRead: CanRead, ghost mode: Mode, requests: seq<Request>) returns (replies: seq<Reply>)
      requires Valid() && World() == Run(canRead, mode, [])
      modifies this, database
      ensures Valid() && World() == Run(canRead, mode, requests) && Answers(canRead, mode, requests, replies)
    {
      replies := [];
      assert requests[..0] == [];
      for i := 0 to |requests|
        invariant Valid() && World() == Run(canRead, mode, requests[..i])
        invariant Answers(canRead, mode, requests[..i], replies)
      {
        AnswersSnoc(canRead, mode, requests, i, replies);
        var reply := ServeOne(canRead, requests[i]);
        replies := replies + [reply];
      }
      assert requests[..|requests|] == requests;
    }
  }

  /** Each reply is the one the model gives after the requests before it. */
  ghost predicate Answers(canRead: CanRead, mode: Mode, requests: seq<Request>, replies: seq<Reply>) {
    |replies| == |requests| && forall i :: 0 <= i < |requests| ==> replies[i] == AnswerAt(canRead, mode, requests, i)
  }

  ghost function AnswerAt(canRead: CanRead, mode: Mode, requests: seq<Request>, i: nat): Reply
    requires i < |requests|
  {
    PlanOf(canRead, Run(canRead, mode, requests[..i]).st, requests[i]).reply
  }

  lemma AnswersSnoc(canRead: CanRead, mode: Mode, requests: seq<Request>, i: nat, replies: seq<Reply>)
    requires i < |requests| && Answers(canRead, mode, requests[..i], replies)
    ensures Run(canRead, mode, requests[..i + 1]) == Exec(canRead, Run(canRead, mode, requests[..i]), requests[i])
    ensures var reply := PlanOf(canRead, Run(canRead, mode, requests[..i]).st, requests[i]).reply;
            Answers(canRead, mode, requests[..i + 1], replies + [reply])
  {
    RunSnoc(canRead, mode, requests[..i], requests[i]);
    assert requests[..i + 1] == requests[..i] + [requests[i]];
    var next, grown := requests[..i + 1], replies +
      [PlanOf(canRead, Run(canRead, mode, requests[..i]).st, requests[i]).reply];
    forall j | 0 <= j < |next| ensures grown[j] == AnswerAt(canRead, mode, next, j) {
      assert next[..j] == requests[..i][..j] == requests[..j];
      if j < i { assert replies[j] == AnswerAt(canRead, mode, requests[..i], j); }
    }
  }
}
