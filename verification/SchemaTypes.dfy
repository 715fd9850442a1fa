/** Fingerprints leave the schema type out: what that means for the schema behind an id. */
module SchemaTypes {
  import opened SchemaModels
  import opened Database
  import opened SchemaReader
  import opened SchemaRegistry
  import opened RegistryInvariant
  import opened RegistryTheorems
  import opened Cluster
  import opened ClusterIds

  /** Some node was asked to register exactly this schema. */
  ghost predicate Requested(actions: seq<Action>, schema: TypedSchema) {
    exists k :: 0 <= k < |actions| && actions[k].Write? && actions[k].request.Register? &&
      actions[k].request.schema == schema
  }

  /** No two schemas asked for agree in text and references and differ in type. */
  ghost predicate OneType(actions: seq<Action>) {
    forall x, y :: Requested(actions, x) && Requested(actions, y) && x.Fp() == y.Fp() ==> x == y
  }

  ghost predicate AllRequested(actions: seq<Action>, c: Cluster) {
    && (forall i :: 0 <= i < |c.log| && c.log[i].record.SchemaRecord? ==> Requested(actions, c.log[i].record.schema))
    && (forall k :: 0 <= k < |c.inflight| && c.inflight[k].record.SchemaRecord? ==>
         Requested(actions, c.inflight[k].record.schema))
  }

  /** A schema record carries the schema asked for, or one that was written before. */
  lemma PlanSchemas(canRead: CanRead, st: State, request: Request, log: seq<Record>, i: nat)
    requires Sourced(log, st.db) && i < |PlanOf(canRead, st, request).records|
    requires PlanOf(canRead, st, request).records[i].SchemaRecord?
    ensures var schema := PlanOf(canRead, st, request).records[i].schema;
            (request.Register? && request.schema == schema) || Written(log, schema)
  {
  }

  lemma RecordRequested(c: Cluster, n: NodeId, canRead: CanRead, request: Request, actions: seq<Action>, i: nat)
    requires Counted(c) && n in c.nodes && AllRequested(actions, c)
    requires request.Register? ==> Requested(actions, request.schema)
    requires i < |PlanOf(canRead, c.nodes[n].st, request).records| &&
             PlanOf(canRead, c.nodes[n].st, request).records[i].SchemaRecord?
    ensures Requested(actions, PlanOf(canRead, c.nodes[n].st, request).records[i].schema)
  {
    var schema := PlanOf(canRead, c.nodes[n].st, request).records[i].schema;
    assert MemoryOk(c, c.nodes[n]);
    var log := Records(c.log)[..c.nodes[n].processed];
    NodeSourced(c, n);
    PlanSchemas(canRead, c.nodes[n].st, request, log, i);
    if Written(log, schema) {
      var k :| 0 <= k < |log| && log[k].SchemaRecord? && log[k].schema == schema;
      assert c.log[k].record == log[k];
    }
  }

  lemma WriteRequested(u: Setup, c: Cluster, a: Action, actions: seq<Action>)
    requires Counted(c) && a.Write? && Enabled(u, c, a) && AllRequested(actions, c)
    requires a.request.Register? ==> Requested(actions, a.request.schema)
    ensures AllRequested(actions, Do(u, c, a))
  {
    var d := Do(u, c, a);
    var rs := PlanOf(u.canRead, c.nodes[a.node].st, a.request).records;
    assert d.inflight == c.inflight + SentBy(rs, a.node, c.now);
    forall i | 0 <= i < |rs| && rs[i].SchemaRecord? ensures Requested(actions, rs[i].schema) {
      RecordRequested(c, a.node, u.canRead, a.request, actions, i);
    }
  }

  lemma StepRequested(u: Setup, c: Cluster, a: Action, actions: seq<Action>)
    requires Counted(c) && AllRequested(actions, c)
    requires a.Write? && a.request.Register? ==> Requested(actions, a.request.schema)
    ensures AllRequested(actions, Step(u, c, a))
  {
    if Enabled(u, c, a) {
      if a.Write? {
        WriteRequested(u, c, a, actions);
      } else if a.Deliver? {
        var d, x := Do(u, c, a), a.index;
        assert forall k :: 0 <= k < |d.inflight| ==> d.inflight[k] == c.inflight[if k < x then k else k + 1];
        assert forall i :: 0 <= i < |c.log| ==> d.log[i] == c.log[i];
        assert d.log[|c.log|] == c.inflight[x];
      }
    }
  }

  lemma {:induction false} RunRequested(u: Setup, actions: seq<Action>)
    requires u.wait >= 0.0
    ensures AllRequested(actions, Reached(u, actions))
  {
    if actions != [] {
      var init, a := actions[..|actions| - 1], actions[|actions| - 1];
      RunRequested(u, init);
      RunIds(u, init);
      forall schema | Requested(init, schema) ensures Requested(actions, schema) {
        var k :| 0 <= k < |init| && init[k].Write? && init[k].request.Register? && init[k].request.schema == schema;
        assert actions[k] == init[k];
      }
      assert AllRequested(actions, Reached(u, init));
      assert actions[|actions| - 1] == a;
      StepRequested(u, Reached(u, init), a, actions);
    }
  }

  /** In every run of the cluster in which no text and references are registered under two schema types, two
      accepted records with the same id carry equal schemas. */
  lemma SameIdSameSchema(u: Setup, actions: seq<Action>, i: nat, j: nat)
    requires u.wait >= 0.0 && OneType(actions)
    requires var log := Records(Reached(u, actions).log);
             && i < |log| && j < |log| && log[i].SchemaRecord? && log[j].SchemaRecord? && log[i].id == log[j].id
             && Accepted(Replay(log[..i]), log[i]) && Accepted(Replay(log[..j]), log[j])
    ensures var log := Records(Reached(u, actions).log); log[i].schema == log[j].schema
  {
    SameIdSameContent(u, actions, i, j);
    RunRequested(u, actions);
    var c := Reached(u, actions);
    assert Requested(actions, c.log[i].record.schema) && Requested(actions, c.log[j].record.schema);
  }

  /** An accepted registration is stored with the schema it carries exactly when the first schema stored with
      that text and those references had the same type. */
  lemma StoredAsRegisteredIff(db: Db, r: Record)
    requires Inv(db) && r.SchemaRecord? && Settled(r.schema) && Accepted(db, r)
    ensures Apply(db, r).Stored(r.subject, r.version)
    ensures Apply(db, r).At(r.subject, r.version).schema == r.schema <==>
            (r.schema.Fp() in db.cache ==> db.cache[r.schema.Fp()].schemaType == r.schema.schemaType)
  {
    UnderstoodSettled(db, r.schema);
    InsertFrame(db, r.subject, r.id, r.version, r.deleted, r.schema);
  }

  // ---------------------------------------------------------------- along a log

  ghost predicate Taken(db: Db, r: Record) { r.SchemaRecord? && Accepted(db, r) }

  /** The schemas that the accepted records of a log carry, in order. */
  ghost function Schemas(log: seq<Record>): seq<TypedSchema> {
    if log == [] then []
    else
      var init, r := log[..|log| - 1], log[|log| - 1];
      Schemas(init) + if Taken(Replay(init), r) then [r.schema] else []
  }

  ghost predicate StoredAs(db: Db, s: Subject, v: int, schema: TypedSchema) {
    db.Stored(s, v) && db.At(s, v).schema == schema
  }

  /** Each accepted record, once read, is stored with the schema it carries. */
  ghost predicate AllCarried(log: seq<Record>) {
    log != [] ==>
      var init, r := log[..|log| - 1], log[|log| - 1];
      && AllCarried(init)
      && (Taken(Replay(init), r) ==> StoredAs(Replay(log), r.subject, r.version, r.schema))
  }

  /** No two of these share text and references and differ in type. */
  ghost predicate TypesAgree(schemas: seq<TypedSchema>) {
    forall x, y :: x in schemas && y in schemas && x.Fp() == y.Fp() ==> x == y
  }

  /** The cache holds exactly these schemas. */
  ghost predicate CacheIs(cache: map<Fingerprint, TypedSchema>, schemas: seq<TypedSchema>) {
    && (forall x :: x in schemas ==> x.Fp() in cache && cache[x.Fp()] == x)
    && (forall fp :: fp in cache ==> cache[fp] in schemas && cache[fp].Fp() == fp)
  }

  /** What one more record does to the cache. */
  lemma CacheAfter(db: Db, r: Record)
    requires Legit(db, r)
    ensures Apply(db, r).cache == if Taken(db, r) then db.cache[r.schema.Fp() := db.Cached(r.schema)] else db.cache
  {
    match r
    case SchemaRecord(_, _, _, schema, _) => UnderstoodSettled(db, schema);
    case ConfigRecord(target, mode) => ConfigureFrame(db, target, mode);
    case _ =>
  }

  /** While the cache holds exactly the schemas carried so far, the next record is stored with its own if and only if
      types still agree. */
  lemma StepAgrees(db: Db, r: Record, schemas: seq<TypedSchema>)
    requires Inv(db) && Legit(db, r) && Taken(db, r) && CacheIs(db.cache, schemas)
    ensures StoredAs(Apply(db, r), r.subject, r.version, r.schema) <==> db.Cached(r.schema) == r.schema
    ensures db.Cached(r.schema) == r.schema <==> TypesAgree(schemas + [r.schema])
    ensures db.Cached(r.schema) == r.schema ==> CacheIs(Apply(db, r).cache, schemas + [r.schema])
  {
    CacheAfter(db, r);
    StoredAsRegisteredIff(db, r);
    CacheGrows(db.cache, schemas, r.schema);
  }

  lemma CacheGrows(cache: map<Fingerprint, TypedSchema>, schemas: seq<TypedSchema>, schema: TypedSchema)
    requires CacheIs(cache, schemas)
    ensures TypesAgree(schemas + [schema]) <==> (schema.Fp() in cache ==> cache[schema.Fp()] == schema)
    ensures TypesAgree(schemas + [schema]) ==> CacheIs(cache[schema.Fp() := schema], schemas + [schema])
  {
    if schema.Fp() in cache { assert cache[schema.Fp()] in schemas; }
  }

  /** Along every registry-written log, each accepted record is stored with the schema it carries if and only if no two
      accepted records share text and references and differ in type. */
  lemma {:induction false} AllCarriedIff(log: seq<Record>)
    requires RegistryWritten(log)
    ensures AllCarried(log) <==> TypesAgree(Schemas(log))
    ensures AllCarried(log) ==> CacheIs(Replay(log).cache, Schemas(log))
  {
    if log != [] {
      var n := |log| - 1;
      var init, r := log[..n], log[n];
      WrittenPrefix(log, n);
      AllCarriedIff(init);
      ReplayInv(init);
      assert LegitAt(log, n);
      CacheAfter(Replay(init), r);
      assert TypesAgree(Schemas(log)) ==> TypesAgree(Schemas(init));
      if Taken(Replay(init), r) && AllCarried(init) { StepAgrees(Replay(init), r, Schemas(init)); }
    }
  }

  lemma Extend(log: seq<Record>, db: Db, r: Record)
    requires RegistryWritten(log) && Replay(log) == db && Legit(db, r)
    ensures RegistryWritten(log + [r]) && Replay(log + [r]) == Apply(db, r)
  {
    RegistryTheorems.WrittenSnoc(log, r);
  }

  /** Registered under two types, one text ends up in two records, accepted for want of references, with the
      same id and different schemas. */
  lemma TypesCanMix(s: Subject, t: Subject, text: string)
    requires s != t
    ensures var x, y := TypedSchema(Avro, text, []), TypedSchema(JsonSchema, text, []);
            && x != y
            && RegistryWritten([] + [SchemaRecord(s, 1, 1, x, false)] + [SchemaRecord(t, 1, 2, y, false)] +
               [SchemaRecord(t, 1, 2, x, true)])
  {
    var x, y := TypedSchema(Avro, text, []), TypedSchema(JsonSchema, text, []);
    var log0: seq<Record> := [];
    var r1, r2 := SchemaRecord(s, 1, 1, x, false), SchemaRecord(t, 1, 2, y, false);
    Extend(log0, EMPTY, r1);
    var db1 := Apply(EMPTY, r1);
    AfterFirst(s, t, text);
    Extend(log0 + [r1], db1, r2);
    AfterSecond(db1, s, t, text);
    Extend(log0 + [r1] + [r2], Apply(db1, r2), SchemaRecord(t, 1, 2, x, true));
  }

  lemma AfterFirst(s: Subject, t: Subject, text: string)
    requires s != t
    ensures var x, y := TypedSchema(Avro, text, []), TypedSchema(JsonSchema, text, []);
            var db := Apply(EMPTY, SchemaRecord(s, 1, 1, x, false));
            && db.Cached(y) == x && db.ReferencedBy(t, 1) == {}
            && Legit(db, SchemaRecord(t, 1, 2, y, false))
  {
    var x := TypedSchema(Avro, text, []);
    AcceptedWithoutReferences(EMPTY, SchemaRecord(s, 1, 1, x, false));
    UnderstoodSettled(EMPTY, x);
    InsertFrame(EMPTY, s, 1, 1, false, x);
    assert RefKeys(x.references) == {};
  }

  lemma AfterSecond(db: Db, s: Subject, t: Subject, text: string)
    requires var x, y := TypedSchema(Avro, text, []), TypedSchema(JsonSchema, text, []);
             db.Cached(y) == x && db.ReferencedBy(t, 1) == {}
    ensures var x, y := TypedSchema(Avro, text, []), TypedSchema(JsonSchema, text, []);
            Legit(Apply(db, SchemaRecord(t, 1, 2, y, false)), SchemaRecord(t, 1, 2, x, true))
  {
    var y := TypedSchema(JsonSchema, text, []);
    UnderstoodSettled(db, y);
    InsertFrame(db, t, 2, 1, false, y);
    assert RefKeys(y.references) == {};
  }
}
