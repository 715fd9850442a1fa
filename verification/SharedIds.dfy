/** A log the registry can write in which an id shared by two subjects hides a referent: the referenced
    version can then be deleted under a live referrer, and a compaction of the topic loses the referrer. */
module SharedIds {
  import opened SchemaModels
  import opened Database
  import opened SchemaReader
  import opened SchemaRegistry
  import opened RegistryInvariant
  import opened RegistryTheorems
  import opened Compaction

  /** The schema everything here refers to, and the schema that references its version 1. */
  function Target(): TypedSchema { TypedSchema(Avro, "target", []) }

  function Referrer(t: Subject): TypedSchema { TypedSchema(Avro, "referrer", [Reference("target", t, 1)]) }

  /** `db` stores exactly `content`, made of those two schemas under ids 1 and 2, and `referents` are the
      known referents of version 1 of `t`. */
  ghost predicate Is(db: Db, t: Subject, content: map<(Subject, int), SchemaVersion>, referents: set<int>) {
    && (forall s, v :: db.Stored(s, v) <==> (s, v) in content)
    && (forall s, v :: (s, v) in content ==> db.At(s, v) == content[(s, v)])
    && (1 in db.schemas.entries ==> db.schemas.entries[1] == Target())
    && (2 in db.schemas.entries ==> db.schemas.entries[2] == Referrer(t))
    && db.Cached(Target()) == Target() && db.Cached(Referrer(t)) == Referrer(t)
    && db.ReferencedBy(t, 1) == referents
    && (forall s, v :: (s, v) != (t, 1) ==> db.ReferencedBy(s, v) == {})
  }

  /** Every record of the log was accepted when it was first read. */
  ghost predicate AllAccepted(log: seq<Record>) {
    forall i: nat :: i < |log| ==> AcceptedAt(log, i)
  }

  ghost predicate LogIs(log: seq<Record>, t: Subject, content: map<(Subject, int), SchemaVersion>,
                        referents: set<int>) {
    RegistryWritten(log) && AllAccepted(log) && Is(Replay(log), t, content, referents)
  }

  lemma AcceptedSnoc(log: seq<Record>, r: Record)
    requires AllAccepted(log) && Accepted(Replay(log), r)
    ensures AllAccepted(log + [r])
  {
    forall i: nat | i < |log + [r]| ensures AcceptedAt(log + [r], i) {
      if i < |log| {
        assert AcceptedAt(log, i) && (log + [r])[..i] == log[..i];
      } else {
        assert (log + [r])[..i] == log;
      }
    }
  }

  lemma InsertReferencedBy(db: Db, s: Subject, id: int, v: int, deleted: bool, schema: TypedSchema, key: (Subject, int))
    ensures db.InsertSchemaVersion(s, id, v, deleted, schema).ReferencedBy(key.0, key.1) ==
            db.ReferencedBy(key.0, key.1) + if !deleted && key in RefKeys(schema.references) then {id} else {}
  {
    assert key == (key.0, key.1);
  }

  lemma ReferrerKeys(t: Subject)
    ensures RefKeys(Referrer(t).references) == {(t, 1)} && RefKeys(Target().references) == {}
  {
    assert RefKey(Reference("target", t, 1)) == (t, 1);
    assert Referrer(t).references == [Reference("target", t, 1)];
    assert Referrer(t).references[0] in Referrer(t).references;
  }

  lemma IsInsert(db: Db, t: Subject, content: map<(Subject, int), SchemaVersion>, referents: set<int>, s: Subject,
                 deleted: bool, target: bool)
    requires Is(db, t, content, referents)
    ensures var schema, id := if target then Target() else Referrer(t), if target then 1 else 2;
            Is(db.InsertSchemaVersion(s, id, 1, deleted, schema), t,
              content[(s, 1) := SchemaVersion(1, deleted, id, schema)],
               if target || deleted then referents else referents + {2})
  {
    var schema, id := if target then Target() else Referrer(t), if target then 1 else 2;
    var db' := db.InsertSchemaVersion(s, id, 1, deleted, schema);
    InsertFrame(db, s, id, 1, deleted, schema);
    forall u, w ensures db'.ReferencedBy(u, w) == db.ReferencedBy(u, w) + NewReferents(t, deleted, target, u, w) {
      InsertReferents(db, t, s, deleted, target, u, w);
    }
  }

  /** What writing one of the two schemas adds to the referents of a version. */
  ghost function NewReferents(t: Subject, deleted: bool, target: bool, u: Subject, w: int): set<int> {
    if !deleted && !target && (u, w) == (t, 1) then {2} else {}
  }

  lemma InsertReferents(db: Db, t: Subject, s: Subject, deleted: bool, target: bool, u: Subject, w: int)
    ensures var schema, id := if target then Target() else Referrer(t), if target then 1 else 2;
            db.InsertSchemaVersion(s, id, 1, deleted, schema).ReferencedBy(u, w) ==
              db.ReferencedBy(u, w) + NewReferents(t, deleted, target, u, w)
  {
    ReferrerKeys(t);
    InsertReferencedBy(db, s, if target then 1 else 2, 1, deleted, if target then Target() else Referrer(t), (u, w));
  }

  lemma ReferrerAccepted(db: Db, t: Subject, s: Subject, deleted: bool)
    requires db.Live(t, 1) && db.At(t, 1).schema.references == []
    ensures Accepted(db, SchemaRecord(s, 1, 2, Referrer(t), deleted))
  {
    var refs := Referrer(t).references;
    assert ResolveAll(db, [], 0) == Some([]);
    assert Resolve(db, Reference("target", t, 1), 1).Some?;
    assert refs[..0] == [] && ResolveAll(db, [], 1) == Some([]);
    assert ResolveAll(db, refs, 1).Some?;
  }

  /** Writing version 1 of `s` with one of the two schemas. */
  lemma IsSnoc(log: seq<Record>, t: Subject, content: map<(Subject, int), SchemaVersion>, referents: set<int>,
               s: Subject, deleted: bool, target: bool)
    requires LogIs(log, t, content, referents)
    requires var schema, id := if target then Target() else Referrer(t), if target then 1 else 2;
             if deleted then (s, 1) in content && content[(s, 1)] == SchemaVersion(1, false, id, schema) &&
               (s == t ==> referents == {})
             else forall v :: (s, v) !in content
    requires !target ==> (t, 1) in content && content[(t, 1)] == SchemaVersion(1, false, 1, Target())
    ensures var schema, id := if target then Target() else Referrer(t), if target then 1 else 2;
            LogIs(log + [SchemaRecord(s, 1, id, schema, deleted)], t,
              content[(s, 1) := SchemaVersion(1, deleted, id, schema)],
                  if target || deleted then referents else referents + {2})
  {
    var schema, id := if target then Target() else Referrer(t), if target then 1 else 2;
    var db, r := Replay(log), SchemaRecord(s, 1, id, schema, deleted);
    assert Accepted(db, r) by {
      if target {
        assert ResolveAll(db, schema.references, 0).Some?;
      } else {
        assert db.Live(t, 1) && db.At(t, 1).schema.references == [];
        ReferrerAccepted(db, t, s, deleted);
      }
    }
    assert Legit(db, r);
    WrittenSnoc(log, r);
    AcceptedSnoc(log, r);
    UnderstoodSettled(db, schema);
    IsInsert(db, t, content, referents, s, deleted, target);
  }

  /** A tombstone for version 1 of a soft-deleted referrer takes its id out of the referents. */
  lemma IsTombstone(log: seq<Record>, t: Subject, content: map<(Subject, int), SchemaVersion>, referents: set<int>,
                    b: Subject)
    requires LogIs(log, t, content, referents) && b != t
    requires (b, 1) in content && content[(b, 1)] == SchemaVersion(1, true, 2, Referrer(t))
    ensures LogIs(log + [Tombstone(b, 1)], t, content - {(b, 1)}, referents - {2})
  {
    var db, r := Replay(log), Tombstone(b, 1);
    WrittenSnoc(log, r);
    AcceptedSnoc(log, r);
    HardDeleteFrame(db, b, 1);
    ReferrerKeys(t);
    var db' := HardDelete(db, b, 1);
    assert db'.referencedBy == RemoveReferent(db.referencedBy, Referrer(t).references, 2);
    assert db'.ReferencedBy(t, 1) == referents - {2};
  }

  function FiveRecords(t: Subject, a: Subject, b: Subject): seq<Record> {
    [] + [SchemaRecord(t, 1, 1, Target(), false)] + [SchemaRecord(a, 1, 2, Referrer(t), false)] +
    [SchemaRecord(b, 1, 2, Referrer(t), false)] + [SchemaRecord(b, 1, 2, Referrer(t), true)] + [Tombstone(b, 1)]
  }

  lemma AfterFive(t: Subject, a: Subject, b: Subject)
    requires t != a && t != b && a != b
    ensures LogIs(FiveRecords(t, a, b), t,
                  map[(t, 1) := SchemaVersion(1, false, 1, Target()),
                    (a, 1) := SchemaVersion(1, false, 2, Referrer(t))], {})
  {
    var one, two := SchemaVersion(1, false, 1, Target()), SchemaVersion(1, false, 2, Referrer(t));
    var log0: seq<Record> := [];
    var log1 := log0 + [SchemaRecord(t, 1, 1, Target(), false)];
    var log2 := log1 + [SchemaRecord(a, 1, 2, Referrer(t), false)];
    var c1: map<(Subject, int), SchemaVersion> := map[][(t, 1) := one];
    var c2 := c1[(a, 1) := two];
    IsSnoc(log0, t, map[], {}, t, false, true);
    IsSnoc(log1, t, c1, {}, a, false, false);
    assert {} + {2} == {2};
    ThreeMore(log2, t, b, c2);
    assert c2 == map[(t, 1) := one, (a, 1) := two];
  }

  /** A second subject registers the referring schema and soft-deletes it. */
  lemma TwoMore(log: seq<Record>, t: Subject, b: Subject, content: map<(Subject, int), SchemaVersion>)
    requires LogIs(log, t, content, {2}) && b != t && (forall v :: (b, v) !in content)
    requires (t, 1) in content && content[(t, 1)] == SchemaVersion(1, false, 1, Target())
    ensures LogIs(log + [SchemaRecord(b, 1, 2, Referrer(t), false)] + [SchemaRecord(b, 1, 2, Referrer(t), true)],
                  t, content[(b, 1) := SchemaVersion(1, true, 2, Referrer(t))], {2})
  {
    var c3 := content[(b, 1) := SchemaVersion(1, false, 2, Referrer(t))];
    IsSnoc(log, t, content, {2}, b, false, false);
    assert {2} + {2} == {2};
    IsSnoc(log + [SchemaRecord(b, 1, 2, Referrer(t), false)], t, c3, {2}, b, true, false);
    assert c3[(b, 1) := SchemaVersion(1, true, 2, Referrer(t))] ==
           content[(b, 1) := SchemaVersion(1, true, 2, Referrer(t))];
  }

  /** And then hard-deletes it. */
  lemma ThreeMore(log: seq<Record>, t: Subject, b: Subject, content: map<(Subject, int), SchemaVersion>)
    requires LogIs(log, t, content, {2}) && b != t && (forall v :: (b, v) !in content)
    requires (t, 1) in content && content[(t, 1)] == SchemaVersion(1, false, 1, Target())
    ensures LogIs(log + [SchemaRecord(b, 1, 2, Referrer(t), false)] + [SchemaRecord(b, 1, 2, Referrer(t), true)] +
            [Tombstone(b, 1)],
                  t, content, {})
  {
    var c4 := content[(b, 1) := SchemaVersion(1, true, 2, Referrer(t))];
    TwoMore(log, t, b, content);
    IsTombstone(log + [SchemaRecord(b, 1, 2, Referrer(t), false)] + [SchemaRecord(b, 1, 2, Referrer(t), true)], t, c4,
      {2}, b);
    assert c4 - {(b, 1)} == content;
    assert {2} - {2} == {};
  }

  /** The referenced-by index is not complete along every run: a live version references a version whose
      referents are empty. */
  lemma ReferentsCanBeLost(t: Subject, a: Subject, b: Subject)
    requires t != a && t != b && a != b
    ensures RegistryWritten(FiveRecords(t, a, b)) && !ReferentsComplete(Replay(FiveRecords(t, a, b)))
  {
    AfterFive(t, a, b);
    var db := Replay(FiveRecords(t, a, b));
    assert db.Live(a, 1) && db.At(a, 1).schema == Referrer(t);
    ReferrerKeys(t);
  }

  function SixRecords(t: Subject, a: Subject, b: Subject): seq<Record> {
    FiveRecords(t, a, b) + [SchemaRecord(t, 1, 1, Target(), true)]
  }

  const KEPT: seq<bool> := [false, true, false, false, true, true]

  lemma KeepsLastOfKey(t: Subject, a: Subject, b: Subject)
    requires t != a && t != b && a != b
    ensures IsCompaction(SixRecords(t, a, b), KEPT) && LastOfKey(SixRecords(t, a, b), 1)
  {
    var log := SixRecords(t, a, b);
    assert KeyOf(log[0]) == KeyOf(log[5]) && KeyOf(log[2]) == KeyOf(log[3]) == KeyOf(log[4]);
  }

  lemma ReferrerRefused(t: Subject, a: Subject, b: Subject)
    ensures !Accepted(Seen(SixRecords(t, a, b), KEPT, 1), SixRecords(t, a, b)[1])
  {
    var log := SixRecords(t, a, b);
    assert Seen(log, KEPT, 1) == EMPTY;
    assert log[1].schema.references == [Reference("target", t, 1)];
    forall d: nat ensures ResolveAll(EMPTY, log[1].schema.references, d).None? {
      assert Resolve(EMPTY, Reference("target", t, 1), d).None?;
    }
  }

  /** Compaction is not transparent once there are references: this log is accepted record by record, and
      a reader of one of its compactions ends up with a different version table. */
  lemma CompactionCanLoseVersion(t: Subject, a: Subject, b: Subject)
    requires t != a && t != b && a != b
    ensures var log := SixRecords(t, a, b);
            && RegistryWritten(log) && AllAccepted(log) && IsCompaction(log, KEPT)
            && !SameTable(Replay(log), Replay(Kept(log, KEPT)))
  {
    AfterFive(t, a, b);
    var one, two := SchemaVersion(1, false, 1, Target()), SchemaVersion(1, false, 2, Referrer(t));
    IsSnoc(FiveRecords(t, a, b), t, map[(t, 1) := one, (a, 1) := two], {}, t, true, true);
    KeepsLastOfKey(t, a, b);
    ReferrerRefused(t, a, b);
    CompleteCompactionIff(SixRecords(t, a, b), KEPT);
  }

  lemma AfterSix(t: Subject, a: Subject, b: Subject)
    requires t != a && t != b && a != b
    ensures LogIs(SixRecords(t, a, b), t,
                  map[(t, 1) := SchemaVersion(1, true, 1, Target()), (a, 1) := SchemaVersion(1, false, 2, Referrer(t))],
                    {})
  {
    var one, two := SchemaVersion(1, false, 1, Target()), SchemaVersion(1, false, 2, Referrer(t));
    AfterFive(t, a, b);
    IsSnoc(FiveRecords(t, a, b), t, map[(t, 1) := one, (a, 1) := two], {}, t, true, true);
    assert map[(t, 1) := one, (a, 1) := two][(t, 1) := SchemaVersion(1, true, 1, Target())] ==
           map[(t, 1) := SchemaVersion(1, true, 1, Target()), (a, 1) := two];
  }

  /** After the same log, the record of a soft delete of the referrer is rejected: the request fails and the version
      stays live, although nothing references it. */
  lemma SoftDeleteCanFail(t: Subject, a: Subject, b: Subject, counter: int, mode: Mode)
    requires t != a && t != b && a != b
    ensures var db := Replay(SixRecords(t, a, b));
            var plan := PlanDeleteVersion(State(db, counter, mode), a, 1, false);
            && RegistryWritten(SixRecords(t, a, b)) && plan.reply == Failed(SendTimedOut) && |plan.records| == 1
            && Apply(db, plan.records[0]) == db && db.Live(a, 1) && db.ReferencedBy(a, 1) == {}
  {
    AfterSix(t, a, b);
    var db := Replay(SixRecords(t, a, b));
    assert db.Live(a, 1) && db.At(a, 1).schema == Referrer(t) && !db.Live(t, 1);
    assert db.Versions(a).keys != [] by {
      ReplayInv(SixRecords(t, a, b));
      assert 1 in db.Versions(a).keys;
    }
    var refs := Referrer(t).references;
    forall d: nat ensures ResolveAll(db, refs, d).None? {
      assert refs[0] == Reference("target", t, 1) && Pinned(db, refs[0]) == refs[0];
      assert Resolve(db, refs[0], d).None?;
    }
    assert !Accepted(db, SchemaRecord(a, 1, 2, Referrer(t), true));
  }
}
