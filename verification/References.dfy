/** Reference resolution has no cycle check (schema_reader.py); the registry keeps the graph of live
    versions acyclic, so it always ends. */
module References {
  import opened SchemaModels
  import opened Database
  import opened SchemaReader
  import opened SchemaRegistry
  import opened RegistryInvariant

  type Rank = (Subject, int) -> nat

  /** A live version ranks above every live version it references, and below `bound`. */
  ghost predicate Ranks(db: Db, rank: Rank, bound: nat) {
    && (forall s, v :: db.Live(s, v) ==> rank(s, v) < bound)
    && (forall s, v, r :: db.Live(s, v) && r in db.At(s, v).schema.references && db.Live(r.subject, r.version) ==>
          rank(r.subject, r.version) < rank(s, v))
  }

  ghost predicate Acyclic(db: Db) { exists rank, bound :: Ranks(db, rank, bound) }

  // ---------------------------------------------------------------- resolving to some depth

  lemma {:induction false} ResolveDeeper(db: Db, ref: Reference, d: nat, e: nat)
    requires d <= e && Resolve(db, ref, d).Some?
    ensures Resolve(db, ref, e) == Resolve(db, ref, d)
    decreases d, 0, 0
  {
    var r := Pinned(db, ref);
    ResolveAllDeeper(db, db.At(r.subject, r.version).schema.references, d - 1, e - 1);
  }

  lemma {:induction false} ResolveAllDeeper(db: Db, refs: seq<Reference>, d: nat, e: nat)
    requires d <= e && ResolveAll(db, refs, d).Some?
    ensures ResolveAll(db, refs, e) == ResolveAll(db, refs, d)
    decreases d, 1, |refs|
  {
    if refs != [] {
      ResolveAllDeeper(db, refs[..|refs| - 1], d, e);
      ResolveDeeper(db, refs[|refs| - 1], d, e);
    }
  }

  lemma {:induction false} ResolveAllParts(db: Db, refs: seq<Reference>, d: nat, i: nat)
    requires ResolveAll(db, refs, d).Some? && i < |refs|
    ensures Resolve(db, refs[i], d).Some?
    decreases |refs|
  {
    if i < |refs| - 1 { ResolveAllParts(db, refs[..|refs| - 1], d, i); }
  }

  ghost predicate Reaches(db: Db, s: Subject, v: int) {
    db.Live(s, v) && Resolvable(db, db.At(s, v).schema.references)
  }

  /** Whatever resolvable references name is live and resolvable itself. */
  lemma ResolvableParts(db: Db, refs: seq<Reference>, r: Reference)
    requires Resolvable(db, refs) && r in refs && r.version != LATEST
    ensures Reaches(db, r.subject, r.version)
  {
    var d: nat :| ResolveAll(db, refs, d).Some?;
    var i :| 0 <= i < |refs| && refs[i] == r;
    ResolveAllParts(db, refs, d, i);
    assert Pinned(db, r) == r;
    assert ResolveAll(db, db.At(r.subject, r.version).schema.references, d - 1).Some?;
  }

  // ---------------------------------------------------------------- every record keeps the graph acyclic

  /** Fewer live versions, none of them changed: the same ranks do. */
  lemma ShrinkKeepsRanks(db: Db, db': Db, rank: Rank, bound: nat)
    requires Ranks(db, rank, bound)
    requires forall s, v :: db'.Live(s, v) ==> db.Live(s, v) && db'.At(s, v).schema == db.At(s, v).schema
    ensures Ranks(db', rank, bound)
  {
  }

  /** Ranks after a new live version: what can be resolved keeps its rank, the new version comes above
      that, and whatever had a dangling reference moves above the new version. */
  ghost function Raised(db: Db, rank: Rank, bound: nat, s: Subject, v: int): Rank {
    (t: Subject, w: int) =>
      if (t, w) == (s, v) then bound else if Reaches(db, t, w) then rank(t, w) else rank(t, w) + bound + 1
  }

  lemma InsertKeepsRanks(db: Db, s: Subject, id: int, v: int, schema: TypedSchema, rank: Rank, bound: nat)
    requires Inv(db) && Ranks(db, rank, bound) && !db.Stored(s, v) && Settled(schema)
    requires Resolvable(db, schema.references)
    ensures Ranks(db.InsertSchemaVersion(s, id, v, false, schema), Raised(db, rank, bound, s, v), 2 * bound + 1)
  {
    var db', rank' := db.InsertSchemaVersion(s, id, v, false, schema), Raised(db, rank, bound, s, v);
    InsertFrame(db, s, id, v, false, schema);
    assert db.Cached(schema).references == schema.references by { assert db.Cached(schema).Fp() == schema.Fp(); }
    forall t, w | db'.Live(t, w) ensures rank'(t, w) < 2 * bound + 1 {
      if (t, w) != (s, v) { assert db.Live(t, w); }
    }
    forall t, w, r | db'.Live(t, w) && r in db'.At(t, w).schema.references && db'.Live(r.subject, r.version)
      ensures rank'(r.subject, r.version) < rank'(t, w)
    {
      if (t, w) == (s, v) {
        NotLatest(schema, r);
        ResolvableParts(db, schema.references, r);
      } else {
        assert db.Live(t, w) && db.At(t, w) == db'.At(t, w);
        var refs := db.At(t, w).schema.references;
        NotLatest(db.At(t, w).schema, r);
        if Reaches(db, t, w) { ResolvableParts(db, refs, r); }
      }
    }
  }

  lemma NotLatest(schema: TypedSchema, r: Reference)
    requires Settled(schema) && r in schema.references
    ensures r.version != LATEST
  {
  }

  lemma ApplyKeepsAcyclic(db: Db, r: Record)
    requires Inv(db) && Legit(db, r) && Acyclic(db)
    ensures Acyclic(Apply(db, r))
  {
    var rank, bound :| Ranks(db, rank, bound);
    match r
    case SchemaRecord(s, v, id, schema, deleted) =>
      UnderstoodSettled(db, schema);
      if Accepted(db, r) {
        InsertFrame(db, s, id, v, deleted, schema);
        if deleted {
          ShrinkKeepsRanks(db, Apply(db, r), rank, bound);
        } else {
          assert schema.references == [] ==> ResolveAll(db, schema.references, 0).Some?;
          InsertKeepsRanks(db, s, id, v, schema, rank, bound);
        }
      }
    case Tombstone(s, v) =>
      HardDeleteFrame(db, s, v);
      ShrinkKeepsRanks(db, Apply(db, r), rank, bound);
    case DeleteSubjectRecord(s, v) =>
      DeleteSubjectFrame(db, s, v);
      ShrinkKeepsRanks(db, Apply(db, r), rank, bound);
    case ConfigRecord(target, mode) =>
      ConfigureFrame(db, target, mode);
      ShrinkKeepsRanks(db, Apply(db, r), rank, bound);
    case Noop =>
  }

  /** In every database a registry-written log leads to, references among live versions form no cycle. */
  lemma {:induction false} LiveReferencesAcyclic(log: seq<Record>)
    requires RegistryWritten(log)
    ensures Acyclic(Replay(log))
  {
    if log == [] {
      assert Ranks(EMPTY, (s, v) => 0, 0);
    } else {
      var init := log[..|log| - 1];
      WrittenPrefix(log, |log| - 1);
      assert LegitAt(log, |log| - 1);
      LiveReferencesAcyclic(init);
      ReplayInv(init);
      ApplyKeepsAcyclic(Replay(init), log[|log| - 1]);
    }
  }

  // ---------------------------------------------------------------- the recursion itself

  /** `_resolve_reference` with `_resolve_and_validate`: recursion on the references of the target. */
  method ResolveReference(db: Db, ref: Reference, ghost rank: Rank, ghost bound: nat, ghost total: nat)
    returns (d: Option<Dependency>)
    requires Inv(db) && Ranks(db, rank, total)
    requires var r := Pinned(db, ref); db.Live(r.subject, r.version) ==> rank(r.subject, r.version) < bound
    ensures d.Some? ==> exists depth: nat :: Resolve(db, ref, depth) == d
    ensures d.None? ==> forall depth: nat :: Resolve(db, ref, depth).None?
    decreases bound, 0
  {
    var r := Pinned(db, ref);
    if !db.Live(r.subject, r.version) {
      return None;
    }
    var schema := db.At(r.subject, r.version).schema;
    assert Settled(schema);
    forall x | x in schema.references && db.Live(x.subject, x.version)
      ensures Pinned(db, x) == x && rank(x.subject, x.version) < rank(r.subject, r.version)
    {
      NotLatest(schema, x);
    }
    assert forall x :: x in schema.references ==> Pinned(db, x) == x;
    var deps := ResolveReferences(db, schema.references, rank, rank(r.subject, r.version), total);
    match deps
    case None =>
      d := None;
    case Some(ds) =>
      d := Some(Dependency(r, schema, ds));
      ghost var depth: nat :| ResolveAll(db, schema.references, depth) == deps;
      assert Resolve(db, ref, depth + 1) == d;
  }

  /** `resolve_references`: one reference after the other, stopping at the first that fails. */
  method ResolveReferences(db: Db, refs: seq<Reference>, ghost rank: Rank, ghost bound: nat, ghost total: nat)
    returns (deps: Option<seq<Dependency>>)
    requires Inv(db) && Ranks(db, rank, total)
    requires forall x :: x in refs && db.Live(Pinned(db, x).subject, Pinned(db, x).version) ==>
               rank(Pinned(db, x).subject, Pinned(db, x).version) < bound
    ensures deps.Some? ==> exists depth: nat :: ResolveAll(db, refs, depth) == deps
    ensures deps.None? ==> forall depth: nat :: ResolveAll(db, refs, depth).None?
    decreases bound, 1
  {
    var found: seq<Dependency> := [];
    ghost var depth: nat := 0;
    for i := 0 to |refs|
      invariant ResolveAll(db, refs[..i], depth) == Some(found)
    {
      var d := ResolveReference(db, refs[i], rank, bound, total);
      assert refs[..i + 1][..i] == refs[..i] && refs[..i + 1][i] == refs[i];
      if d.None? {
        forall e: nat ensures ResolveAll(db, refs, e).None? {
          if ResolveAll(db, refs, e).Some? { ResolveAllParts(db, refs, e, i); }
        }
        return None;
      }
      ghost var e: nat :| Resolve(db, refs[i], e) == d;
      ghost var both := if depth < e then e else depth;
      ResolveAllDeeper(db, refs[..i], depth, both);
      ResolveDeeper(db, refs[i], e, both);
      depth := both;
      found := PutByName(found, d.value);
    }
    assert refs[..|refs|] == refs;
    deps := Some(found);
  }

  /** Resolution ends on every database reached by a registry-written log, whatever is asked for,
      and answers exactly when every reference can be resolved. */
  method ResolveInRegistry(ghost log: seq<Record>, db: Db, refs: seq<Reference>) returns (deps: Option<seq<Dependency>>)
    requires RegistryWritten(log) && db == Replay(log)
    ensures deps.Some? <==> Resolvable(db, refs)
    ensures deps.Some? ==> exists depth: nat :: ResolveAll(db, refs, depth) == deps
  {
    ReplayInv(log);
    LiveReferencesAcyclic(log);
    ghost var rank, bound :| Ranks(db, rank, bound);
    deps := ResolveReferences(db, refs, rank, bound, bound);
  }
}
