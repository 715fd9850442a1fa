/** Schema ids over the whole cluster: no two accepted records share an id unless they carry the same schema. */
module ClusterIds {
  import opened SchemaModels
  import opened Database
  import opened SchemaReader
  import opened SchemaRegistry
  import opened RegistryInvariant
  import opened RegistryRuns
  import opened Cluster
  import opened ClusterFence

  // ---------------------------------------------------------------- where ids come from, for any log

  /** Record `i` was accepted and gives `id` to this text and these references. */
  ghost predicate Carries(log: seq<Record>, i: int, id: int, fp: Fingerprint) {
    && 0 <= i < |log| && log[i].SchemaRecord? && log[i].id == id && log[i].schema.Fp() == fp
    && Accepted(Replay(log[..i]), log[i])
  }

  ghost predicate Given(log: seq<Record>, id: int, fp: Fingerprint) { exists i :: Carries(log, i, id, fp) }

  ghost predicate AllSettled(log: seq<Record>) {
    forall i :: 0 <= i < |log| && log[i].SchemaRecord? ==> Settled(log[i].schema)
  }

  /** Every id in the database was given by an accepted record, every schema in it was written as it is. */
  ghost predicate Sourced(log: seq<Record>, db: Db) {
    && (forall fp :: fp in db.cache ==> db.cache[fp].Fp() == fp && Settled(db.cache[fp]) && Written(log, db.cache[fp]))
    && (forall id :: id in db.schemas.entries ==> Given(log, id, db.schemas.entries[id].Fp()))
    && (forall s, v :: db.Stored(s, v) ==>
          && Given(log, db.At(s, v).id, db.At(s, v).schema.Fp())
          && Settled(db.At(s, v).schema) && Written(log, db.At(s, v).schema))
  }

  lemma CarriesSnoc(log: seq<Record>, r: Record, i: int, id: int, fp: Fingerprint)
    requires 0 <= i < |log|
    ensures Carries(log + [r], i, id, fp) <==> Carries(log, i, id, fp)
  {
    assert (log + [r])[..i] == log[..i];
  }

  lemma GivenSnoc(log: seq<Record>, r: Record, id: int, fp: Fingerprint)
    requires Given(log, id, fp)
    ensures Given(log + [r], id, fp)
  {
    var i :| Carries(log, i, id, fp);
    CarriesSnoc(log, r, i, id, fp);
  }

  lemma WrittenSnoc(log: seq<Record>, r: Record, schema: TypedSchema)
    requires Written(log, schema)
    ensures Written(log + [r], schema)
  {
    var i :| 0 <= i < |log| && log[i].SchemaRecord? && log[i].schema == schema;
    assert (log + [r])[i] == log[i];
  }

  lemma SourcedSnoc(log: seq<Record>, r: Record, db: Db)
    requires Sourced(log, db)
    ensures Sourced(log + [r], db)
  {
    forall id, fp | Given(log, id, fp) ensures Given(log + [r], id, fp) { GivenSnoc(log, r, id, fp); }
    forall schema | Written(log, schema) ensures Written(log + [r], schema) { WrittenSnoc(log, r, schema); }
  }

  lemma ApplySourced(log: seq<Record>, r: Record, db: Db)
    requires Sourced(log, db) &&
             (r.SchemaRecord? && Accepted(db, r) ==>
                 Settled(r.schema) && Written(log, r.schema) && Given(log, r.id, r.schema.Fp()))
    ensures Sourced(log, Apply(db, r))
  {
    match r
    case SchemaRecord(s, v, id, schema, deleted) =>
      if Accepted(db, r) {
        UnderstoodSettled(db, schema);
        InsertFrame(db, s, id, v, deleted, schema);
        assert db.Cached(schema).Fp() == schema.Fp() && Settled(db.Cached(schema)) && Written(log, db.Cached(schema));
      }
    case Tombstone(s, v) => HardDeleteFrame(db, s, v);
    case DeleteSubjectRecord(s, v) => if s in db.subjects { DeleteSubjectFrame(db, s, v); }
    case ConfigRecord(target, mode) =>
      ConfigureFrame(db, target, mode);
      var db' := Apply(db, r);
      forall t, w | db'.Stored(t, w) ensures db.Stored(t, w) && db'.At(t, w) == db.At(t, w) {
        assert db'.Versions(t) == db.Versions(t);
      }
    case Noop =>
  }

  lemma {:induction false} ReplaySourced(log: seq<Record>)
    requires AllSettled(log)
    ensures Sourced(log, Replay(log))
  {
    if log != [] {
      var init, r := log[..|log| - 1], log[|log| - 1];
      assert log == init + [r] && log[..|log| - 1] == init;
      ReplaySourced(init);
      SourcedSnoc(init, r, Replay(init));
      if r.SchemaRecord? && Accepted(Replay(init), r) { assert Carries(log, |log| - 1, r.id, r.schema.Fp()); }
      ApplySourced(log, r, Replay(init));
    }
  }

  // ---------------------------------------------------------------- the ids a node writes

  ghost predicate RecordId(log: seq<Record>, st: State, counter: int, r: Record) {
    r.SchemaRecord? ==>
      && Settled(r.schema) && r.id <= counter
      && (r.id > st.counter || Given(log, r.id, r.schema.Fp()))
  }

  /** A schema record carries either an id this node has not seen, or one given to the same schema. */
  lemma PlanIds(canRead: CanRead, st: State, request: Request, log: seq<Record>)
    requires Sourced(log, st.db)
    requires forall i, id, fp :: Carries(log, i, id, fp) ==> id <= st.counter
    ensures var plan := PlanOf(canRead, st, request);
            && st.counter <= plan.counter
            && (forall i :: 0 <= i < |plan.records| ==> RecordId(log, st, plan.counter, plan.records[i]))
            && (forall i :: 0 <= i < |plan.records| && plan.records[i].SchemaRecord? ==> |plan.records| == 1)
  {
    var plan := PlanOf(canRead, st, request);
    PlanCounter(canRead, st, request);
    match request
    case Register(s, schema) =>
      FindIdSpec(st.db.schemas.keys, st.db.schemas.entries, schema);
      if FindId(st.db.schemas.keys, st.db.schemas.entries, schema).Some? {
        var id := FindId(st.db.schemas.keys, st.db.schemas.entries, schema).value;
        var i :| Carries(log, i, id, schema.Fp());
      }
    case DeleteVersion(s, version, permanent) =>
      if plan.records != [] && plan.records[0].SchemaRecord? {
        var v := plan.records[0].version;
        var i :| Carries(log, i, st.db.At(s, v).id, st.db.At(s, v).schema.Fp());
      }
    case DeleteSubject(s, permanent) =>
    case Configure(target, mode) =>
  }

  // ---------------------------------------------------------------- the invariant

  function Records(log: seq<Sent>): seq<Record> { seq(|log|, i requires 0 <= i < |log| => log[i].record) }

  ghost predicate MemoryOk(c: Cluster, n: Node) {
    && n.processed <= |c.log|
    && n.st.db == Replay(Records(c.log)[..n.processed])
    && (forall i, id, fp :: i < n.processed && Carries(Records(c.log), i, id, fp) ==> id <= n.st.counter)
  }

  ghost predicate IdKnown(c: Cluster, e: Sent) {
    e.record.SchemaRecord? ==>
      Settled(e.record.schema) && e.sender in c.nodes && e.record.id <= c.nodes[e.sender].st.counter
  }

  ghost predicate Counted(c: Cluster) {
    && (forall n :: n in c.nodes ==> MemoryOk(c, c.nodes[n]))
    && (forall i :: 0 <= i < |c.log| ==> IdKnown(c, c.log[i]))
    && (forall k :: 0 <= k < |c.inflight| ==> IdKnown(c, c.inflight[k]))
  }

  ghost predicate Flies(c: Cluster, k: int, id: int, fp: Fingerprint) {
    0 <= k < |c.inflight| && c.inflight[k].record.SchemaRecord? && c.inflight[k].record.id == id &&
      c.inflight[k].record.schema.Fp() == fp
  }

  /** An id goes with one text and one reference list, among accepted records and records on their way. */
  ghost predicate Unique(c: Cluster) {
    && (forall i, j, id, f, g :: Carries(Records(c.log), i, id, f) && Carries(Records(c.log), j, id, g) ==> f == g)
    && (forall i, k, id, f, g :: Carries(Records(c.log), i, id, f) && Flies(c, k, id, g) ==> f == g)
    && (forall k, l, id, f, g :: Flies(c, k, id, f) && Flies(c, l, id, g) ==> f == g)
  }

  // ---------------------------------------------------------------- the steps

  lemma PrefixCarries(log: seq<Record>, m: nat, i: int, id: int, fp: Fingerprint)
    requires m <= |log|
    ensures Carries(log[..m], i, id, fp) <==> i < m && Carries(log, i, id, fp)
  {
    if 0 <= i < m { assert log[..m][..i] == log[..i]; }
  }

  lemma NodeSourced(c: Cluster, n: NodeId)
    requires Counted(c) && n in c.nodes
    ensures Sourced(Records(c.log)[..c.nodes[n].processed], c.nodes[n].st.db)
    ensures forall i, id, fp :: Carries(Records(c.log)[..c.nodes[n].processed], i, id, fp) ==>
              id <= c.nodes[n].st.counter
  {
    var rs, m := Records(c.log), c.nodes[n].processed;
    assert MemoryOk(c, c.nodes[n]);
    forall i | 0 <= i < m && rs[i].SchemaRecord? ensures Settled(rs[..m][i].schema) { assert IdKnown(c, c.log[i]); }
    ReplaySourced(rs[..m]);
    forall i, id, fp | Carries(rs[..m], i, id, fp) ensures id <= c.nodes[n].st.counter {
      PrefixCarries(rs, m, i, id, fp);
    }
  }

  /** What an acting node writes goes with what is in the log and on its way. */
  lemma WrittenGoesWith(u: Setup, c: Cluster, n: NodeId, r: Record, counter: int)
    requires Counted(c) && Unique(c) && n in c.nodes && AllWithin(c, n, c.nodes[n].processed)
    requires r.SchemaRecord? && RecordId(Records(c.log)[..c.nodes[n].processed], c.nodes[n].st, counter, r)
    ensures forall i, f :: Carries(Records(c.log), i, r.id, f) ==> f == r.schema.Fp()
    ensures forall k, f :: Flies(c, k, r.id, f) ==> f == r.schema.Fp()
  {
    var rs, node := Records(c.log), c.nodes[n];
    assert MemoryOk(c, node);
    forall i, id, f | Carries(rs, i, id, f) ensures id <= node.st.counter {
      assert IdKnown(c, c.log[i]);
      assert c.log[i].sender == n || i < node.processed;
    }
    forall k, id, f | Flies(c, k, id, f) ensures id <= node.st.counter {
      assert IdKnown(c, c.inflight[k]);
    }
    if r.id <= node.st.counter {
      var i :| Carries(rs[..node.processed], i, r.id, r.schema.Fp());
      PrefixCarries(rs, node.processed, i, r.id, r.schema.Fp());
    }
  }

  lemma WriteUnique(u: Setup, c: Cluster, a: Action)
    requires Counted(c) && Unique(c) && a.Write? && Enabled(u, c, a)
    requires AllWithin(c, a.node, c.nodes[a.node].processed)
    ensures Unique(Do(u, c, a)) && Counted(Do(u, c, a))
  {
    var d, n := Do(u, c, a), a.node;
    var st := c.nodes[n].st;
    var plan := PlanOf(u.canRead, st, a.request);
    NodeSourced(c, n);
    PlanIds(u.canRead, st, a.request, Records(c.log)[..c.nodes[n].processed]);
    forall k, id, f | Flies(d, k, id, f)
      ensures Flies(c, k, id, f) ||
              (k == |c.inflight| && |plan.records| == 1 && plan.records[0].SchemaRecord? && plan.records[0].id == id &&
                plan.records[0].schema.Fp() == f)
    {
      if k >= |c.inflight| { assert d.inflight[k].record == plan.records[k - |c.inflight|]; }
    }
    if |plan.records| == 1 && plan.records[0].SchemaRecord? { WrittenGoesWith(u, c, n, plan.records[0], plan.counter); }
    WriteCounted(u, c, a);
  }

  /** What a write leaves: the same log, one raised counter, and records of its own on their way. */
  lemma WriteShape(u: Setup, c: Cluster, a: Action)
    requires a.Write? && Enabled(u, c, a)
    ensures var d, plan := Do(u, c, a), PlanOf(u.canRead, c.nodes[a.node].st, a.request);
            && d.log == c.log && d.nodes.Keys == c.nodes.Keys &&
               d.inflight == c.inflight + SentBy(plan.records, a.node, c.now)
            && (forall m :: m in c.nodes ==>
                 d.nodes[m].st.db == c.nodes[m].st.db && d.nodes[m].processed == c.nodes[m].processed)
            && (forall m :: m in c.nodes ==>
                 d.nodes[m].st.counter == if m == a.node then plan.counter else c.nodes[m].st.counter)
  {
  }

  /** Records on their way whose ids their senders' counters cover. */
  lemma CountedAfter(c: Cluster, d: Cluster, added: seq<Sent>)
    requires Counted(c) && d.log == c.log && d.nodes.Keys == c.nodes.Keys && d.inflight == c.inflight + added
    requires forall m :: m in c.nodes ==>
               d.nodes[m].st.db == c.nodes[m].st.db && d.nodes[m].processed == c.nodes[m].processed
    requires forall m :: m in c.nodes ==> c.nodes[m].st.counter <= d.nodes[m].st.counter
    requires forall k :: 0 <= k < |added| ==> IdKnown(d, added[k])
    ensures Counted(d)
  {
    forall m | m in d.nodes ensures MemoryOk(d, d.nodes[m]) { assert MemoryOk(c, c.nodes[m]); }
    forall i | 0 <= i < |d.log| ensures IdKnown(d, d.log[i]) { assert IdKnown(c, c.log[i]); }
    forall k | 0 <= k < |d.inflight| ensures IdKnown(d, d.inflight[k]) {
      if k < |c.inflight| {
        assert IdKnown(c, c.inflight[k]);
      } else {
        assert d.inflight[k] == added[k - |c.inflight|];
      }
    }
  }

  lemma WriteCounted(u: Setup, c: Cluster, a: Action)
    requires Counted(c) && a.Write? && Enabled(u, c, a)
    ensures Counted(Do(u, c, a))
  {
    var d, n := Do(u, c, a), a.node;
    var plan := PlanOf(u.canRead, c.nodes[n].st, a.request);
    var rs := Records(c.log)[..c.nodes[n].processed];
    WriteShape(u, c, a);
    NodeSourced(c, n);
    PlanIds(u.canRead, c.nodes[n].st, a.request, rs);
    forall k | 0 <= k < |plan.records| ensures IdKnown(d, Sent(plan.records[k], n, c.now)) {
      assert RecordId(rs, c.nodes[n].st, plan.counter, plan.records[k]);
    }
    CountedAfter(c, d, SentBy(plan.records, n, c.now));
  }

  lemma DeliverUnique(u: Setup, c: Cluster, a: Action)
    requires Unique(c) && a.Deliver? && Enabled(u, c, a)
    ensures Unique(Do(u, c, a))
  {
    var d, x := Do(u, c, a), a.index;
    var rs, r := Records(c.log), c.inflight[x].record;
    assert Records(d.log) == rs + [r];
    forall i, id, f | Carries(Records(d.log), i, id, f)
      ensures Carries(rs, i, id, f) || (i == |rs| && Flies(c, x, id, f))
    {
      if i < |rs| { CarriesSnoc(rs, r, i, id, f); }
    }
    forall k, id, f | Flies(d, k, id, f) ensures Flies(c, if k < x then k else k + 1, id, f) {
      assert d.inflight[k] == c.inflight[if k < x then k else k + 1];
    }
  }

  /** What a node has in memory does not depend on records that it has not handled. */
  lemma GrownMemory(c: Cluster, d: Cluster, e: Sent, node: Node)
    requires MemoryOk(c, node) && d.log == c.log + [e]
    ensures MemoryOk(d, node)
  {
    var rs := Records(c.log);
    assert Records(d.log) == rs + [e.record];
    assert Records(d.log)[..node.processed] == rs[..node.processed];
    forall i, id, fp | i < node.processed && Carries(Records(d.log), i, id, fp) ensures id <= node.st.counter {
      CarriesSnoc(rs, e.record, i, id, fp);
    }
  }

  lemma DeliverIds(u: Setup, c: Cluster, a: Action)
    requires Counted(c) && Unique(c) && a.Deliver? && Enabled(u, c, a)
    ensures Unique(Do(u, c, a)) && Counted(Do(u, c, a))
  {
    DeliverUnique(u, c, a);
    var d, x := Do(u, c, a), a.index;
    forall n | n in d.nodes ensures MemoryOk(d, d.nodes[n]) {
      GrownMemory(c, d, c.inflight[x], c.nodes[n]);
    }
    forall e | IdKnown(c, e) ensures IdKnown(d, e) { }
    forall k | 0 <= k < |d.inflight| ensures IdKnown(d, d.inflight[k]) {
      assert d.inflight[k] == c.inflight[if k < x then k else k + 1];
    }
    forall i | 0 <= i < |d.log| ensures IdKnown(d, d.log[i]) { if i < |c.log| { assert d.log[i] == c.log[i]; } }
  }

  lemma ConsumeMemory(c: Cluster, node: Node)
    requires MemoryOk(c, node) && node.processed < |c.log|
    ensures MemoryOk(c, node.(st := HandleMsg(node.st, c.log[node.processed].record), processed := node.processed + 1))
  {
    var rs, p := Records(c.log), node.processed;
    var st := HandleMsg(node.st, rs[p]);
    assert rs[..p + 1] == rs[..p] + [rs[p]];
    ReplaySnoc(rs[..p], rs[p]);
    forall i, id, fp | i < p + 1 && Carries(rs, i, id, fp) ensures id <= st.counter {
    }
  }

  lemma ConsumeIds(u: Setup, c: Cluster, a: Action)
    requires Counted(c) && Unique(c) && a.Consume? && Enabled(u, c, a)
    ensures Unique(Do(u, c, a)) && Counted(Do(u, c, a))
  {
    var d, n := Do(u, c, a), a.node;
    assert MemoryOk(c, c.nodes[n]);
    ConsumeMemory(c, c.nodes[n]);
    forall m | m in d.nodes ensures MemoryOk(c, d.nodes[m]) { assert MemoryOk(c, c.nodes[m]); }
    QuietIds(c, d);
  }

  /** Steps that touch no records and lower no counter. */
  lemma QuietIds(c: Cluster, d: Cluster)
    requires Counted(c) && Unique(c) && d.log == c.log && d.inflight == c.inflight
    requires forall n :: n in c.nodes ==> n in d.nodes && d.nodes[n].st.counter >= c.nodes[n].st.counter
    requires forall n :: n in d.nodes ==> MemoryOk(c, d.nodes[n])
    ensures Unique(d) && Counted(d)
  {
    forall n | n in d.nodes ensures MemoryOk(d, d.nodes[n]) { assert MemoryOk(c, d.nodes[n]); }
    forall e | IdKnown(c, e) ensures IdKnown(d, e) { }
    assert forall k, id, f :: Flies(d, k, id, f) ==> Flies(c, k, id, f);
  }

  lemma OtherShape(u: Setup, c: Cluster, a: Action)
    requires Enabled(u, c, a) && !a.Write? && !a.Deliver? && !a.Consume?
    ensures var d := Do(u, c, a);
            && d.log == c.log && d.inflight == c.inflight
            && (forall n :: n in c.nodes ==>
                 n in d.nodes && d.nodes[n].st == c.nodes[n].st && d.nodes[n].processed == c.nodes[n].processed)
            && (forall n :: n in d.nodes && n !in c.nodes ==> d.nodes[n].st.db == EMPTY && d.nodes[n].processed == 0)
  {
  }

  lemma OtherIds(u: Setup, c: Cluster, a: Action)
    requires Counted(c) && Unique(c) && Enabled(u, c, a) && !a.Write? && !a.Deliver? && !a.Consume?
    ensures Unique(Do(u, c, a)) && Counted(Do(u, c, a))
  {
    var d := Do(u, c, a);
    OtherShape(u, c, a);
    assert Records(c.log)[..0] == [];
    forall n | n in d.nodes ensures MemoryOk(c, d.nodes[n]) {
      if n in c.nodes { assert MemoryOk(c, c.nodes[n]); }
    }
    QuietIds(c, d);
  }

  lemma DoIds(u: Setup, c: Cluster, a: Action)
    requires Counted(c) && Unique(c) && Sealed(u, c) && Enabled(u, c, a)
    ensures Unique(Do(u, c, a)) && Counted(Do(u, c, a))
  {
    match a
    case Write(n, _) => assert Fenced(c, n, c.nodes[n]); WriteUnique(u, c, a);
    case Deliver(_) => DeliverIds(u, c, a);
    case Consume(_) => ConsumeIds(u, c, a);
    case _ => OtherIds(u, c, a);
  }

  lemma ObserveIds(u: Setup, c: Cluster)
    requires Counted(c) && Unique(c)
    ensures Unique(Observe(u, c)) && Counted(Observe(u, c))
  {
    forall n | n in c.nodes ensures MemoryOk(c, Observe(u, c).nodes[n]) { assert MemoryOk(c, c.nodes[n]); }
    QuietIds(c, Observe(u, c));
  }

  lemma StepIds(u: Setup, c: Cluster, a: Action)
    requires Counted(c) && Unique(c) && Sealed(u, c)
    ensures Unique(Step(u, c, a)) && Counted(Step(u, c, a))
  {
    if Enabled(u, c, a) {
      DoIds(u, c, a);
      ObserveIds(u, Do(u, c, a));
    }
  }

  lemma {:induction false} RunIds(u: Setup, actions: seq<Action>)
    requires u.wait >= 0.0
    ensures Unique(Reached(u, actions)) && Counted(Reached(u, actions))
  {
    if actions != [] {
      RunIds(u, actions[..|actions| - 1]);
      RunSealed(u, actions[..|actions| - 1]);
      StepIds(u, Reached(u, actions[..|actions| - 1]), actions[|actions| - 1]);
    }
  }

  /** In every run of the cluster, two accepted records with the same schema id carry the same text and the
      same references, as long as every record reaches the log within the waiting time. */
  lemma SameIdSameContent(u: Setup, actions: seq<Action>, i: nat, j: nat)
    requires u.wait >= 0.0
    requires var log := Records(Reached(u, actions).log);
             && i < |log| && j < |log| && log[i].SchemaRecord? && log[j].SchemaRecord? && log[i].id == log[j].id
             && Accepted(Replay(log[..i]), log[i]) && Accepted(Replay(log[..j]), log[j])
    ensures var log := Records(Reached(u, actions).log);
            log[i].schema.text == log[j].schema.text && log[i].schema.references == log[j].schema.references
  {
    RunIds(u, actions);
    var log := Records(Reached(u, actions).log);
    assert Carries(log, i, log[i].id, log[i].schema.Fp()) && Carries(log, j, log[i].id, log[j].schema.Fp());
  }
}
