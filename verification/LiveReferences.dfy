/** Whether the references of every live version can be resolved, and what becomes of that with each record. */
module LiveReferences {
  import opened SchemaModels
  import opened Database
  import opened SchemaReader
  import opened SchemaRegistry
  import opened RegistryInvariant
  import opened References

  /** Every live version can be handed out with all the schemas it needs. */
  ghost predicate AllResolvable(db: Db) {
    forall s, v :: db.Live(s, v) ==> Resolvable(db, db.At(s, v).schema.references)
  }

  /** A version that is live in `db` and no longer in `db'`. */
  ghost predicate Retired(db: Db, db': Db, s: Subject, v: int) { db.Live(s, v) && !db'.Live(s, v) }

  /** No version that is live in `db'` references one that is no longer live. */
  ghost predicate NoneCutOff(db: Db, db': Db) {
    forall s, v, r :: db'.Live(s, v) && r in db'.At(s, v).schema.references ==> !Retired(db, db', r.subject, r.version)
  }

  /** A version live in `db'` was live in `db` with the same schema, or its references could be resolved there. */
  ghost predicate Follows(db: Db, db': Db) {
    forall s, v :: db'.Live(s, v) ==>
      if db.Live(s, v) then db'.At(s, v).schema == db.At(s, v).schema
      else Resolvable(db, db'.At(s, v).schema.references)
  }

  // ---------------------------------------------------------------- resolution as reachability

  predicate LiveRef(db: Db, r: Reference) { db.Live(r.subject, r.version) }

  /** A chain of references that starts in `refs` and goes on through live versions. */
  ghost predicate Leads(db: Db, refs: seq<Reference>, path: seq<Reference>)
    decreases |path|
  {
    && path != [] && path[0] in refs
    && (|path| == 1 || (LiveRef(db, path[0]) && Leads(db, RefsAt(db, path[0]), path[1..])))
  }

  function RefsAt(db: Db, r: Reference): seq<Reference>
    requires LiveRef(db, r)
  {
    db.At(r.subject, r.version).schema.references
  }

  /** Every version that the references lead to is live. */
  ghost predicate LeadsToLive(db: Db, refs: seq<Reference>) {
    forall path :: Leads(db, refs, path) ==> LiveRef(db, path[|path| - 1])
  }

  lemma LeadsOn(db: Db, refs: seq<Reference>, r: Reference)
    requires LeadsToLive(db, refs) && r in refs
    ensures LiveRef(db, r) && LeadsToLive(db, RefsAt(db, r))
  {
    assert Leads(db, refs, [r]);
    forall path | Leads(db, RefsAt(db, r), path) ensures LiveRef(db, path[|path| - 1]) {
      var longer := [r] + path;
      assert longer[1..] == path;
      assert Leads(db, refs, longer);
    }
  }

  lemma {:induction false} ResolvedLeads(db: Db, refs: seq<Reference>, path: seq<Reference>)
    requires Interned(db) && Resolvable(db, refs) && Leads(db, refs, path)
    requires forall r :: r in refs ==> r.version != LATEST
    ensures LiveRef(db, path[|path| - 1])
    decreases |path|
  {
    var r := path[0];
    ResolvableParts(db, refs, r);
    if |path| > 1 {
      var schema := db.At(r.subject, r.version).schema;
      forall x | x in schema.references ensures x.version != LATEST { NotLatest(schema, x); }
      ResolvedLeads(db, schema.references, path[1..]);
    }
  }

  ghost predicate RankedBelow(db: Db, refs: seq<Reference>, rank: Rank, d: nat) {
    forall r :: r in refs && LiveRef(db, r) ==> rank(r.subject, r.version) < d
  }

  lemma {:induction false} LeadsResolve(db: Db, ref: Reference, rank: Rank, bound: nat, d: nat)
    requires Interned(db) && Ranks(db, rank, bound) && ref.version != LATEST && LiveRef(db, ref)
    requires rank(ref.subject, ref.version) < d && LeadsToLive(db, RefsAt(db, ref))
    ensures Resolve(db, ref, d).Some?
    decreases d, 0, 0
  {
    var schema := db.At(ref.subject, ref.version).schema;
    assert Settled(schema) && Pinned(db, ref) == ref;
    forall r | r in schema.references ensures r.version != LATEST { NotLatest(schema, r); }
    LeadsResolveAll(db, schema.references, rank, bound, d - 1);
  }

  lemma {:induction false} LeadsResolveAll(db: Db, refs: seq<Reference>, rank: Rank, bound: nat, d: nat)
    requires Interned(db) && Ranks(db, rank, bound) && LeadsToLive(db, refs) && RankedBelow(db, refs, rank, d)
    requires forall r :: r in refs ==> r.version != LATEST
    ensures ResolveAll(db, refs, d).Some?
    decreases d, 1, |refs|
  {
    if refs != [] {
      var init, r := refs[..|refs| - 1], refs[|refs| - 1];
      forall path | Leads(db, init, path) ensures LiveRef(db, path[|path| - 1]) { assert Leads(db, refs, path); }
      LeadsResolveAll(db, init, rank, bound, d);
      LeadsOn(db, refs, r);
      LeadsResolve(db, r, rank, bound, d);
    }
  }

  /** On every registry-written log, references that name versions can be resolved if and only if every version they
      lead to is live. */
  lemma ResolvableIff(log: seq<Record>, refs: seq<Reference>)
    requires RegistryWritten(log) && forall r :: r in refs ==> r.version != LATEST
    ensures Resolvable(Replay(log), refs) <==> LeadsToLive(Replay(log), refs)
  {
    var db := Replay(log);
    ReplayInv(log);
    if Resolvable(db, refs) {
      forall path | Leads(db, refs, path) ensures LiveRef(db, path[|path| - 1]) { ResolvedLeads(db, refs, path); }
    }
    if LeadsToLive(db, refs) {
      LiveReferencesAcyclic(log);
      var rank, bound :| Ranks(db, rank, bound);
      LeadsResolveAll(db, refs, rank, bound, bound);
    }
  }

  // ---------------------------------------------------------------- carrying a resolution over

  lemma {:induction false} ResolveCarried(db: Db, db': Db, ref: Reference, d: nat)
    requires Interned(db) && Follows(db, db') && NoneCutOff(db, db')
    requires ref.version != LATEST && db'.Live(ref.subject, ref.version) && Resolve(db, ref, d).Some?
    ensures Resolve(db', ref, d).Some?
    decreases d, 0, 0
  {
    assert Pinned(db, ref) == ref && Pinned(db', ref) == ref;
    var schema := db.At(ref.subject, ref.version).schema;
    assert Settled(schema) && db'.At(ref.subject, ref.version).schema == schema;
    forall r | r in schema.references ensures Carried(db', r) {
      LinkCarried(db, db', ref.subject, ref.version, r, d - 1);
    }
    ResolveAllCarried(db, db', schema.references, d - 1);
  }

  ghost predicate Carried(db': Db, r: Reference) { r.version != LATEST && db'.Live(r.subject, r.version) }

  lemma LinkCarried(db: Db, db': Db, s: Subject, v: int, r: Reference, d: nat)
    requires NoneCutOff(db, db') && db'.Live(s, v) && r in db'.At(s, v).schema.references
    requires Settled(db'.At(s, v).schema) && ResolveAll(db, db'.At(s, v).schema.references, d).Some?
    ensures Carried(db', r)
  {
    var refs := db'.At(s, v).schema.references;
    NotLatest(db'.At(s, v).schema, r);
    ResolvableParts(db, refs, r);
    assert !Retired(db, db', r.subject, r.version);
  }

  lemma {:induction false} ResolveAllCarried(db: Db, db': Db, refs: seq<Reference>, d: nat)
    requires Interned(db) && Follows(db, db') && NoneCutOff(db, db')
    requires (forall r :: r in refs ==> Carried(db', r)) && ResolveAll(db, refs, d).Some?
    ensures ResolveAll(db', refs, d).Some?
    decreases d, 1, |refs|
  {
    if refs != [] {
      ResolveAllCarried(db, db', refs[..|refs| - 1], d);
      assert Carried(db', refs[|refs| - 1]);
      ResolveCarried(db, db', refs[|refs| - 1], d);
    }
  }

  // ---------------------------------------------------------------- both directions

  lemma KeptIfNoneCutOff(db: Db, db': Db)
    requires Interned(db) && Interned(db') && AllResolvable(db) && Follows(db, db') && NoneCutOff(db, db')
    ensures AllResolvable(db')
  {
    forall s, v | db'.Live(s, v) ensures Resolvable(db', db'.At(s, v).schema.references) {
      var refs := db'.At(s, v).schema.references;
      assert Resolvable(db, refs);
      var d: nat :| ResolveAll(db, refs, d).Some?;
      forall r | r in refs ensures Carried(db', r) {
        LinkCarried(db, db', s, v, r, d);
      }
      ResolveAllCarried(db, db', refs, d);
    }
  }

  lemma NoneCutOffIfKept(db: Db, db': Db)
    requires Interned(db') && AllResolvable(db')
    ensures NoneCutOff(db, db')
  {
    forall s, v, r | db'.Live(s, v) && r in db'.At(s, v).schema.references
      ensures !Retired(db, db', r.subject, r.version)
    {
      NotLatest(db'.At(s, v).schema, r);
      ResolvableParts(db', db'.At(s, v).schema.references, r);
    }
  }

  lemma ApplyFollows(db: Db, r: Record)
    requires Inv(db) && Legit(db, r)
    ensures Follows(db, Apply(db, r))
  {
    match r
    case SchemaRecord(s, v, id, schema, deleted) =>
      UnderstoodSettled(db, schema);
      if Accepted(db, r) {
        InsertFrame(db, s, id, v, deleted, schema);
        assert db.Cached(schema).references == schema.references by { assert db.Cached(schema).Fp() == schema.Fp(); }
        assert schema.references == [] ==> ResolveAll(db, schema.references, 0).Some?;
      }
    case Tombstone(s, v) => HardDeleteFrame(db, s, v);
    case DeleteSubjectRecord(s, v) => DeleteSubjectFrame(db, s, v);
    case ConfigRecord(target, mode) => ConfigureFrame(db, target, mode);
    case Noop =>
  }

  // ---------------------------------------------------------------- told from the record

  /** The record soft-deletes this live version: by itself, or with its subject. */
  predicate Retires(db: Db, r: Record, s: Subject, v: int) {
    db.Live(s, v) &&
    match r
    case SchemaRecord(t, w, _, _, deleted) => deleted && (t, w) == (s, v)
    case DeleteSubjectRecord(t, w) => t == s && v <= w
    case _ => false
  }

  /** A live version that the record does not soft-delete references one that it does. */
  ghost predicate CutsOff(db: Db, r: Record) {
    exists s, v, ref :: db.Live(s, v) && !Retires(db, r, s, v) && ref in db.At(s, v).schema.references &&
      Retires(db, r, ref.subject, ref.version)
  }

  ghost predicate LiveSame(db: Db, r: Record, db': Db, s: Subject, v: int) {
    db'.Live(s, v) <==>
      (r.SchemaRecord? && !r.deleted && (r.subject, r.version) == (s, v)) || (db.Live(s, v) && !Retires(db, r, s, v))
  }

  /** What is live after a record that is accepted: the version it opens, and whatever it does not soft-delete. */
  lemma LiveAfterRecord(db: Db, r: Record, s: Subject, v: int)
    requires Inv(db) && Legit(db, r) && Accepted(db, r)
    ensures LiveSame(db, r, Apply(db, r), s, v)
  {
    match r
    case SchemaRecord(_, _, _, _, _) => LiveAfterSchema(db, r, s, v);
    case Tombstone(t, w) => HardDeleteFrame(db, t, w);
    case DeleteSubjectRecord(t, w) => DeleteSubjectFrame(db, t, w);
    case ConfigRecord(target, mode) =>
      ConfigureFrame(db, target, mode);
      assert Apply(db, r).Versions(s) == db.Versions(s);
    case Noop =>
  }

  lemma LiveAfterSchema(db: Db, r: Record, s: Subject, v: int)
    requires Legit(db, r) && Accepted(db, r) && r.SchemaRecord?
    ensures LiveSame(db, r, Apply(db, r), s, v)
  {
    UnderstoodSettled(db, r.schema);
    InsertFrame(db, r.subject, r.id, r.version, r.deleted, r.schema);
  }

  /** While all live versions are resolvable, the record of a soft delete is accepted. */
  lemma SoftDeleteAccepted(db: Db, r: Record)
    requires Legit(db, r) && AllResolvable(db) && (r.SchemaRecord? ==> r.deleted)
    ensures Accepted(db, r)
  {
  }

  lemma NoneCutOffMeans(db: Db, r: Record)
    requires Inv(db) && Legit(db, r) && AllResolvable(db)
    ensures NoneCutOff(db, Apply(db, r)) <==> !CutsOff(db, r)
  {
    var db' := Apply(db, r);
    if Accepted(db, r) {
      forall s, v ensures LiveSame(db, r, db', s, v) { LiveAfterRecord(db, r, s, v); }
      ApplyFollows(db, r);
      if CutsOff(db, r) {
        var s, v, ref :| db.Live(s, v) && !Retires(db, r, s, v) && ref in db.At(s, v).schema.references &&
          Retires(db, r, ref.subject, ref.version);
        CutOffSeen(db, r, db', s, v, ref);
      } else {
        forall s, v, ref | db'.Live(s, v) && ref in db'.At(s, v).schema.references
          ensures !Retired(db, db', ref.subject, ref.version)
        {
          NotCutOff(db, r, db', s, v, ref);
        }
      }
    } else {
      assert r.SchemaRecord? && !r.deleted by { if r.SchemaRecord? && r.deleted { SoftDeleteAccepted(db, r); } }
      assert db' == db;
    }
  }

  lemma CutOffSeen(db: Db, r: Record, db': Db, s: Subject, v: int, ref: Reference)
    requires Follows(db, db') && LiveSame(db, r, db', s, v) && LiveSame(db, r, db', ref.subject, ref.version)
    requires db.Live(s, v) && !Retires(db, r, s, v) && ref in db.At(s, v).schema.references
    requires Retires(db, r, ref.subject, ref.version)
    ensures !NoneCutOff(db, db')
  {
    assert db'.Live(s, v) && ref in db'.At(s, v).schema.references;
    assert Retired(db, db', ref.subject, ref.version);
  }

  lemma NotCutOff(db: Db, r: Record, db': Db, s: Subject, v: int, ref: Reference)
    requires !CutsOff(db, r) && Follows(db, db') && LiveSame(db, r, db', s, v)
    requires LiveSame(db, r, db', ref.subject, ref.version)
    requires db'.Live(s, v) && ref in db'.At(s, v).schema.references
    ensures !Retired(db, db', ref.subject, ref.version)
  {
  }

  /** A record the registry writes leaves every live version resolvable if and only if it soft-deletes no version that
      a live version it does not soft-delete references. */
  lemma ResolvableKeptIff(db: Db, r: Record)
    requires Inv(db) && Legit(db, r) && AllResolvable(db)
    ensures AllResolvable(Apply(db, r)) <==> !CutsOff(db, r)
  {
    var db' := Apply(db, r);
    ApplyKeepsInv(db, r);
    ApplyFollows(db, r);
    NoneCutOffMeans(db, r);
    if NoneCutOff(db, db') { KeptIfNoneCutOff(db, db'); }
    if AllResolvable(db') { NoneCutOffIfKept(db, db'); }
  }

  ghost predicate CutsOffAt(log: seq<Record>, i: nat)
    requires i < |log|
  {
    CutsOff(Replay(log[..i]), log[i])
  }

  ghost predicate NeverCutsOff(log: seq<Record>) { forall i: nat :: i < |log| ==> !CutsOffAt(log, i) }

  ghost predicate ResolvableAt(log: seq<Record>, i: nat)
    requires i <= |log|
  {
    AllResolvable(Replay(log[..i]))
  }

  /** At every point of the log every live version is resolvable. */
  ghost predicate AlwaysResolvable(log: seq<Record>) { forall i: nat :: i <= |log| ==> ResolvableAt(log, i) }

  lemma NeverSnoc(log: seq<Record>, r: Record)
    ensures NeverCutsOff(log + [r]) <==> NeverCutsOff(log) && !CutsOff(Replay(log), r)
  {
    var more := log + [r];
    assert more[..|log|] == log && CutsOffAt(more, |log|) == CutsOff(Replay(log), r);
    forall i: nat | i < |log| ensures CutsOffAt(more, i) == CutsOffAt(log, i) { assert more[..i] == log[..i]; }
  }

  lemma AlwaysSnoc(log: seq<Record>, r: Record)
    ensures AlwaysResolvable(log + [r]) <==> AlwaysResolvable(log) && AllResolvable(Replay(log + [r]))
    ensures AlwaysResolvable(log) ==> AllResolvable(Replay(log))
  {
    var more := log + [r];
    assert more[..|more|] == more && log[..|log|] == log;
    assert ResolvableAt(more, |more|) == AllResolvable(Replay(more));
    assert ResolvableAt(log, |log|) == AllResolvable(Replay(log));
    forall i: nat | i <= |log| ensures ResolvableAt(more, i) == ResolvableAt(log, i) { assert more[..i] == log[..i]; }
  }

  /** Along a whole log every live version is resolvable at every point, if and only if no record cuts one off. */
  lemma {:induction false} ResolvableAlong(log: seq<Record>)
    requires RegistryWritten(log)
    ensures AlwaysResolvable(log) <==> NeverCutsOff(log)
  {
    if log == [] {
      assert ResolvableAt(log, 0);
    } else {
      var n := |log| - 1;
      var init, r := log[..n], log[n];
      WrittenPrefix(log, n);
      ResolvableAlong(init);
      ReplayInv(init);
      assert LegitAt(log, n) && log == init + [r];
      ReplaySnoc(init, r);
      NeverSnoc(init, r);
      AlwaysSnoc(init, r);
      if AllResolvable(Replay(init)) { ResolvableKeptIff(Replay(init), r); }
    }
  }
}
