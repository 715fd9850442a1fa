/** The schemas topic is created with `cleanup.policy=compact`: what a reader that starts from a
    compacted topic ends up with. */
module Compaction {
  import opened SchemaModels
  import opened Database
  import opened SchemaReader
  import opened SchemaRegistry
  import opened RegistryInvariant

  /** The key of a record, as the broker sees it. */
  datatype TopicKey =
    | SchemaKey(subject: Subject, version: int)
    | DeleteSubjectKey(subject: Subject)
    | ConfigKey(target: Option<Subject>)
    | NoopKey

  function KeyOf(r: Record): TopicKey {
    match r
    case SchemaRecord(s, v, _, _, _) => SchemaKey(s, v)
    case Tombstone(s, v) => SchemaKey(s, v)
    case DeleteSubjectRecord(s, _) => DeleteSubjectKey(s)
    case ConfigRecord(target, _) => ConfigKey(target)
    case Noop => NoopKey
  }

  predicate NoValue(r: Record) { r.Tombstone? || (r.ConfigRecord? && r.mode.None?) }

  ghost predicate LastOfKey(log: seq<Record>, i: nat) {
    i < |log| && forall j :: i < j < |log| ==> KeyOf(log[j]) != KeyOf(log[i])
  }

  /** A record may go once a later one has its key; one without value also once nothing earlier with its
      key is left. Order is kept, and any superseded record may still be there. */
  ghost predicate IsCompaction(log: seq<Record>, keep: seq<bool>) {
    && |keep| == |log|
    && forall i :: 0 <= i < |log| && !keep[i] && LastOfKey(log, i) ==>
         NoValue(log[i]) && forall j :: 0 <= j < i && KeyOf(log[j]) == KeyOf(log[i]) ==> !keep[j]
  }

  function Kept(log: seq<Record>, keep: seq<bool>): seq<Record>
    requires |keep| == |log|
  {
    if log == [] then []
    else
      var n := |log| - 1;
      Kept(log[..n], keep[..n]) + if keep[n] then [log[n]] else []
  }

  /** The database of a reader that has seen the kept records among the first `m`. */
  ghost function Seen(log: seq<Record>, keep: seq<bool>, m: nat): Db
    requires |keep| == |log| && m <= |log|
  {
    if m == 0 then EMPTY
    else if keep[m - 1] then Apply(Seen(log, keep, m - 1), log[m - 1])
    else Seen(log, keep, m - 1)
  }

  lemma {:induction false} SeenIsReplay(log: seq<Record>, keep: seq<bool>, m: nat)
    requires |keep| == |log| && m <= |log|
    ensures Seen(log, keep, m) == Replay(Kept(log[..m], keep[..m]))
  {
    if m > 0 {
      SeenIsReplay(log, keep, m - 1);
      assert log[..m][..m - 1] == log[..m - 1] && keep[..m][..m - 1] == keep[..m - 1];
      if keep[m - 1] {
        ReplaySnoc(Kept(log[..m - 1], keep[..m - 1]), log[m - 1]);
      } else {
        assert Kept(log[..m], keep[..m]) == Kept(log[..m - 1], keep[..m - 1]);
      }
    }
  }

  ghost function All(n: nat): seq<bool> { seq(n, _ => true) }

  lemma {:induction false} SeenAll(log: seq<Record>, m: nat)
    requires m <= |log|
    ensures Seen(log, All(|log|), m) == Replay(log[..m])
  {
    if m > 0 {
      SeenAll(log, m - 1);
      assert log[..m] == log[..m - 1] + [log[m - 1]];
      ReplaySnoc(log[..m - 1], log[m - 1]);
    }
  }

  // ---------------------------------------------------------------- one version, from the records alone

  /** The record soft-deletes version `v` of `s` along with its subject. */
  predicate Covers(r: Record, s: Subject, v: int) {
    r.DeleteSubjectRecord? && r.subject == s && v <= r.version
  }

  /** A record with another key leaves a version alone, unless it deletes the subject. */
  lemma ApplyOther(db: Db, r: Record, s: Subject, v: int)
    requires KeyOf(r) != SchemaKey(s, v)
    ensures Apply(db, r).Stored(s, v) <==> db.Stored(s, v)
    ensures db.Stored(s, v) ==>
              Apply(db, r).At(s, v) == if Covers(r, s, v) then db.At(s, v).(deleted := true) else db.At(s, v)
  {
    match r
    case SchemaRecord(t, w, id, schema, deleted) =>
      if Accepted(db, r) { InsertFrame(db, t, id, w, deleted, Understood(db, schema)); }
    case Tombstone(t, w) => HardDeleteFrame(db, t, w);
    case DeleteSubjectRecord(t, w) => if t in db.subjects { DeleteSubjectFrame(db, t, w); }
    case ConfigRecord(target, mode) =>
      ConfigureFrame(db, target, mode);
      assert Apply(db, r).Versions(s) == db.Versions(s);
    case Noop =>
  }

  /** Some kept record between `p` and `m` soft-deletes version `v` with its subject. */
  ghost predicate CoveredBetween(log: seq<Record>, keep: seq<bool>, p: nat, m: nat, s: Subject, v: int)
    requires |keep| == |log| && m <= |log|
  {
    exists q :: p < q < m && keep[q] && Covers(log[q], s, v)
  }

  /** A kept record of the version that is not turned down. */
  ghost predicate Counts(log: seq<Record>, keep: seq<bool>, j: nat, s: Subject, v: int)
    requires |keep| == |log| && j < |log|
  {
    keep[j] && KeyOf(log[j]) == SchemaKey(s, v) && (log[j].Tombstone? || Accepted(Seen(log, keep, j), log[j]))
  }

  /** While no record after `p` counts, a version stays as it is after `p`, apart from subject deletes. */
  lemma {:induction false} VersionStays(log: seq<Record>, keep: seq<bool>, p: nat, m: nat, s: Subject, v: int)
    requires |keep| == |log| && p < m <= |log|
    requires forall j :: p < j < m ==> !Counts(log, keep, j, s, v)
    ensures SameBut(Seen(log, keep, p + 1), Seen(log, keep, m), s, v, CoveredBetween(log, keep, p, m, s, v))
    decreases m
  {
    if p + 1 < m {
      VersionStays(log, keep, p, m - 1, s, v);
      assert !Counts(log, keep, m - 1, s, v);
      if keep[m - 1] && KeyOf(log[m - 1]) != SchemaKey(s, v) {
        ApplyOther(Seen(log, keep, m - 1), log[m - 1], s, v);
      }
      assert CoveredBetween(log, keep, p, m, s, v) <==>
             || CoveredBetween(log, keep, p, m - 1, s, v)
             || (keep[m - 1] && Covers(log[m - 1], s, v));
    }
  }

  /** The version is in `b` as in `a`, but soft-deleted if `covered`. */
  ghost predicate SameBut(a: Db, b: Db, s: Subject, v: int, covered: bool) {
    && (b.Stored(s, v) <==> a.Stored(s, v))
    && (a.Stored(s, v) ==>
          && b.At(s, v).id == a.At(s, v).id && b.At(s, v).schema == a.At(s, v).schema
          && (b.At(s, v).deleted <==> a.At(s, v).deleted || covered))
  }

  /** If the kept schema record at `p` is accepted and no later one of its version up to `m` counts, the version is
      stored with that record's id, text and references, and it is soft-deleted exactly when the
      record says so or a later kept subject delete covers it. */
  lemma VersionFromRecord(log: seq<Record>, keep: seq<bool>, p: nat, m: nat)
    requires |keep| == |log| && p < m <= |log| && log[p].SchemaRecord? && keep[p]
    requires Settled(log[p].schema) && Accepted(Seen(log, keep, p), log[p])
    requires forall j :: p < j < m ==> !Counts(log, keep, j, log[p].subject, log[p].version)
    ensures var db, r := Seen(log, keep, m), log[p];
            && db.Stored(r.subject, r.version)
            && db.At(r.subject, r.version).id == r.id
            && db.At(r.subject, r.version).schema == Seen(log, keep, p).Cached(r.schema)
            && (db.At(r.subject, r.version).deleted <==>
                  r.deleted || CoveredBetween(log, keep, p, m, r.subject, r.version))
  {
    var r, before := log[p], Seen(log, keep, p);
    UnderstoodSettled(before, r.schema);
    InsertFrame(before, r.subject, r.id, r.version, r.deleted, r.schema);
    VersionStays(log, keep, p, m, r.subject, r.version);
  }

  /** If no record of a version counts since its last tombstone, the version is absent. */
  lemma {:induction false} VersionAbsent(log: seq<Record>, keep: seq<bool>, p: nat, m: nat, s: Subject, v: int)
    requires |keep| == |log| && p <= m <= |log|
    requires p == 0 || (keep[p - 1] && log[p - 1] == Tombstone(s, v))
    requires forall j :: p <= j < m ==> !Counts(log, keep, j, s, v)
    ensures !Seen(log, keep, m).Stored(s, v)
    decreases m
  {
    if m == p {
      if p > 0 { HardDeleteFrame(Seen(log, keep, p - 1), s, v); }
    } else {
      VersionAbsent(log, keep, p, m - 1, s, v);
      assert !Counts(log, keep, m - 1, s, v);
      if keep[m - 1] && KeyOf(log[m - 1]) != SchemaKey(s, v) {
        ApplyOther(Seen(log, keep, m - 1), log[m - 1], s, v);
      }
    }
  }

  // ---------------------------------------------------------------- the last subject delete is enough

  /** A version is live after a record only if it was before or the record opens it above all stored ones. */
  lemma LiveAfter(db: Db, r: Record, s: Subject, w: int)
    requires Legit(db, r) && Apply(db, r).Live(s, w)
    ensures db.Live(s, w) || forall v :: db.Stored(s, v) ==> v < w
  {
    if KeyOf(r) != SchemaKey(s, w) {
      ApplyOther(db, r, s, w);
    } else if r.Tombstone? {
      HardDeleteFrame(db, s, w);
    } else if Accepted(db, r) {
      InsertFrame(db, s, r.id, w, r.deleted, Understood(db, r.schema));
    }
  }

  /** Once a subject delete has covered version `v`, whatever is live in the subject is newer than `v`,
      as long as `v` is not written again. */
  lemma {:induction false} LiveAbove(log: seq<Record>, q: nat, m: nat, s: Subject, v: int)
    requires RegistryWritten(log) && q < m <= |log| && Covers(log[q], s, v)
    requires Replay(log[..q]).Stored(s, v)
    requires forall j :: q < j < m ==> KeyOf(log[j]) != SchemaKey(s, v)
    ensures Replay(log[..m]).Stored(s, v)
    ensures forall w :: Replay(log[..m]).Live(s, w) ==> v < w
    decreases m
  {
    var db, r := Replay(log[..m - 1]), log[m - 1];
    assert log[..m] == log[..m - 1] + [r];
    ReplaySnoc(log[..m - 1], r);
    assert LegitAt(log, m - 1);
    ApplyOther(db, r, s, v);
    if m == q + 1 {
      DeleteSubjectFrame(db, s, r.version);
    } else {
      LiveAbove(log, q, m - 1, s, v);
      forall w | Apply(db, r).Live(s, w) ensures v < w {
        LiveAfter(db, r, s, w);
      }
    }
  }

  /** In a registry-written log, a version covered once is covered by every later subject delete too. */
  lemma LaterDeletesCover(log: seq<Record>, q: nat, q': nat, s: Subject, v: int)
    requires RegistryWritten(log) && q < q' < |log| && Covers(log[q], s, v)
    requires Replay(log[..q]).Stored(s, v)
    requires forall j :: q < j < q' ==> KeyOf(log[j]) != SchemaKey(s, v)
    requires log[q'].DeleteSubjectRecord? && log[q'].subject == s
    ensures Covers(log[q'], s, v)
  {
    LiveAbove(log, q, q', s, v);
    assert LegitAt(log, q');
  }

  /** The last record with the key of record `i`. */
  lemma {:induction false} LastWithKey(log: seq<Record>, i: nat) returns (j: nat)
    requires i < |log|
    ensures i <= j && LastOfKey(log, j) && KeyOf(log[j]) == KeyOf(log[i])
    decreases |log| - i
  {
    if k :| i < k < |log| && KeyOf(log[k]) == KeyOf(log[i]) {
      j := LastWithKey(log, k);
    } else {
      j := i;
    }
  }

  /** A reader of the whole log has the version of a last record: it takes it from that record, or keeps what the soft
      delete that it refuses was for. */
  lemma StoredUntil(log: seq<Record>, p: nat, m: nat)
    requires RegistryWritten(log) && p < m <= |log| && LastOfKey(log, p) && log[p].SchemaRecord?
    requires AcceptedAt(log, p) || log[p].deleted
    ensures Replay(log[..m]).Stored(log[p].subject, log[p].version)
  {
    SeenAll(log, p);
    SeenAll(log, m);
    assert LegitAt(log, p);
    if AcceptedAt(log, p) {
      VersionFromRecord(log, All(|log|), p, m);
    } else {
      VersionStays(log, All(|log|), p, m, log[p].subject, log[p].version);
    }
  }

  /** Whatever covers a version in the whole log, something covers it in a compaction, and conversely. */
  lemma CoveredAlike(log: seq<Record>, keep: seq<bool>, p: nat)
    requires RegistryWritten(log) && IsCompaction(log, keep) && LastOfKey(log, p) && log[p].SchemaRecord?
    requires AcceptedAt(log, p) || log[p].deleted
    ensures CoveredBetween(log, keep, p, |log|, log[p].subject, log[p].version) <==>
            CoveredBetween(log, All(|log|), p, |log|, log[p].subject, log[p].version)
  {
    var s, v := log[p].subject, log[p].version;
    if q :| p < q < |log| && Covers(log[q], s, v) {
      assert All(|log|)[q];
      var q' := LastWithKey(log, q);
      if q < q' {
        StoredUntil(log, p, q);
        LaterDeletesCover(log, q, q', s, v);
      }
      assert keep[q'] && Covers(log[q'], s, v);
    }
  }

  // ---------------------------------------------------------------- the version table

  /** Of each key, the last record was accepted when it was first read. */
  ghost predicate LastAccepted(log: seq<Record>) {
    forall i: nat :: LastOfKey(log, i) ==> AcceptedAt(log, i)
  }

  ghost predicate AcceptedAt(log: seq<Record>, i: nat)
    requires i < |log|
  {
    Accepted(Replay(log[..i]), log[i])
  }

  /** Every schema record the compaction keeps for good is accepted when the compacted log is read. */
  ghost predicate KeptAccepted(log: seq<Record>, keep: seq<bool>)
    requires |keep| == |log|
  {
    forall i :: 0 <= i < |log| && keep[i] && LastOfKey(log, i) ==> Accepted(Seen(log, keep, i), log[i])
  }

  ghost predicate SameVersion(a: Db, b: Db, s: Subject, v: int) {
    && (a.Stored(s, v) <==> b.Stored(s, v))
    && (a.Stored(s, v) ==>
          && a.At(s, v).id == b.At(s, v).id
          && a.At(s, v).deleted == b.At(s, v).deleted
          && a.At(s, v).schema.Fp() == b.At(s, v).schema.Fp())
  }

  /** The same versions with the same ids, texts, references and deleted flags. */
  ghost predicate SameTable(a: Db, b: Db) { forall s, v :: SameVersion(a, b, s, v) }

  ghost predicate WellKeyed(db: Db) { forall fp :: fp in db.cache ==> db.cache[fp].Fp() == fp }

  lemma CachedFp(log: seq<Record>, keep: seq<bool>, m: nat, schema: TypedSchema)
    requires |keep| == |log| && m <= |log|
    ensures Seen(log, keep, m).Cached(schema).Fp() == schema.Fp()
  {
    CacheWellKeyed(log, keep, m);
  }

  lemma {:induction false} CacheWellKeyed(log: seq<Record>, keep: seq<bool>, m: nat)
    requires |keep| == |log| && m <= |log|
    ensures WellKeyed(Seen(log, keep, m))
  {
    if m > 0 {
      CacheWellKeyed(log, keep, m - 1);
      if keep[m - 1] { ApplyCacheWellKeyed(Seen(log, keep, m - 1), log[m - 1]); }
    }
  }

  lemma ApplyCacheWellKeyed(db: Db, r: Record)
    requires WellKeyed(db)
    ensures WellKeyed(Apply(db, r))
  {
  }

  /** The kept record that decides over a version: the last of the first `m` that counts. */
  ghost function Decider(log: seq<Record>, keep: seq<bool>, m: nat, s: Subject, v: int): (p: Option<nat>)
    requires |keep| == |log| && m <= |log|
    ensures p.Some? ==> p.value < m && Counts(log, keep, p.value, s, v)
    ensures forall j :: 0 <= j < m && (p.None? || p.value < j) ==> !Counts(log, keep, j, s, v)
  {
    if m == 0 then None else if Counts(log, keep, m - 1, s, v) then Some(m - 1) else Decider(log, keep, m - 1, s, v)
  }

  datatype Entry = Absent | Entry(id: int, fp: Fingerprint, deleted: bool)

  /** A version as its deciding record and the subject deletes kept after it have it. */
  ghost function EntryOf(log: seq<Record>, keep: seq<bool>, s: Subject, v: int): Entry
    requires |keep| == |log|
  {
    match Decider(log, keep, |log|, s, v)
    case None => Absent
    case Some(p) =>
      if log[p].Tombstone? then Absent
      else Entry(log[p].id, log[p].schema.Fp(), log[p].deleted || CoveredBetween(log, keep, p, |log|, s, v))
  }

  ghost function EntryIn(db: Db, s: Subject, v: int): Entry {
    if db.Stored(s, v) then Entry(db.At(s, v).id, db.At(s, v).schema.Fp(), db.At(s, v).deleted) else Absent
  }

  lemma EntrySeen(log: seq<Record>, keep: seq<bool>, s: Subject, v: int)
    requires RegistryWritten(log) && |keep| == |log|
    ensures EntryIn(Seen(log, keep, |log|), s, v) == EntryOf(log, keep, s, v)
  {
    var n := |log|;
    match Decider(log, keep, n, s, v)
    case None => VersionAbsent(log, keep, 0, n, s, v);
    case Some(p) =>
      if log[p].Tombstone? {
        VersionAbsent(log, keep, p + 1, n, s, v);
      } else {
        assert LegitAt(log, p);
        VersionFromRecord(log, keep, p, n);
        CachedFp(log, keep, p, log[p].schema);
      }
  }

  /** Whatever a registry-written log went through, and whichever of its records are left: a reader of these has a
      version as a reader of the whole log has it if and only if the records deciding over it, each with the subject
      deletes after it, give the same id, text, references and deleted flag. */
  lemma VersionKeptIff(log: seq<Record>, keep: seq<bool>, s: Subject, v: int)
    requires RegistryWritten(log) && |keep| == |log|
    ensures SameVersion(Replay(log), Replay(Kept(log, keep)), s, v) <==>
            EntryOf(log, All(|log|), s, v) == EntryOf(log, keep, s, v)
  {
    var n := |log|;
    SeenIsReplay(log, keep, n);
    SeenAll(log, n);
    assert log[..n] == log && keep[..n] == keep;
    EntrySeen(log, keep, s, v);
    EntrySeen(log, All(n), s, v);
  }

  /** Both readers accept the last record of the version. */
  ghost predicate BothAccept(log: seq<Record>, keep: seq<bool>, p: nat)
    requires |keep| == |log| && p < |log|
  {
    AcceptedAt(log, p) && Accepted(Seen(log, keep, p), log[p])
  }

  lemma RecordAlike(log: seq<Record>, keep: seq<bool>, p: nat)
    requires RegistryWritten(log) && IsCompaction(log, keep)
    requires LastOfKey(log, p) && log[p].SchemaRecord? && BothAccept(log, keep, p)
    ensures SameVersion(Seen(log, All(|log|), |log|), Seen(log, keep, |log|), log[p].subject, log[p].version)
  {
    var r, n, all := log[p], |log|, All(|log|);
    assert keep[p] && LegitAt(log, p);
    SeenAll(log, p);
    VersionFromRecord(log, all, p, n);
    VersionFromRecord(log, keep, p, n);
    CoveredAlike(log, keep, p);
    CachedFp(log, all, p, r.schema);
    CachedFp(log, keep, p, r.schema);
  }

  lemma TombstoneAlike(log: seq<Record>, keep: seq<bool>, p: nat)
    requires IsCompaction(log, keep) && LastOfKey(log, p) && log[p].Tombstone?
    ensures SameVersion(Seen(log, All(|log|), |log|), Seen(log, keep, |log|), log[p].subject, log[p].version)
  {
    var r, n := log[p], |log|;
    VersionAbsent(log, All(n), p + 1, n, r.subject, r.version);
    if keep[p] {
      VersionAbsent(log, keep, p + 1, n, r.subject, r.version);
    } else {
      assert forall j :: 0 <= j < n && keep[j] ==> KeyOf(log[j]) != KeyOf(r);
      VersionAbsent(log, keep, 0, n, r.subject, r.version);
    }
  }

  /** In any compaction, a version differs only if its last record is a schema record that one of the readers refuses.
      */
  lemma DiffersOnlyByRefusal(log: seq<Record>, keep: seq<bool>, s: Subject, v: int)
    requires RegistryWritten(log) && IsCompaction(log, keep)
    requires !SameVersion(Replay(log), Replay(Kept(log, keep)), s, v)
    ensures exists p: nat :: LastOfKey(log, p) && KeyOf(log[p]) == SchemaKey(s, v) && log[p].SchemaRecord? &&
              keep[p] && !BothAccept(log, keep, p)
  {
    var n := |log|;
    SeenIsReplay(log, keep, n);
    SeenAll(log, n);
    assert log[..n] == log && keep[..n] == keep;
    if i :| 0 <= i < n && KeyOf(log[i]) == SchemaKey(s, v) {
      var p := LastWithKey(log, i);
      if log[p].Tombstone? { TombstoneAlike(log, keep, p); }
      if log[p].SchemaRecord? && BothAccept(log, keep, p) { RecordAlike(log, keep, p); }
      assert keep[p];
    } else {
      VersionAbsent(log, All(n), 0, n, s, v);
      VersionAbsent(log, keep, 0, n, s, v);
    }
  }

  /** Of the key of this record nothing earlier is left. */
  ghost predicate OnlyLastKept(log: seq<Record>, keep: seq<bool>, p: nat)
    requires |keep| == |log| && p < |log|
  {
    forall j :: 0 <= j < p && keep[j] ==> KeyOf(log[j]) != KeyOf(log[p])
  }

  /** The deleted flag is set, now or by a later subject delete that the reader sees. */
  ghost predicate EndsDeleted(log: seq<Record>, keep: seq<bool>, p: nat)
    requires |keep| == |log| && p < |log| && log[p].SchemaRecord?
  {
    log[p].deleted || CoveredBetween(log, keep, p, |log|, log[p].subject, log[p].version)
  }

  lemma LeftEntry(log: seq<Record>, keep: seq<bool>, p: nat)
    requires RegistryWritten(log) && IsCompaction(log, keep) && LastOfKey(log, p) && log[p].SchemaRecord?
    requires OnlyLastKept(log, keep, p)
    ensures var r := log[p];
            EntryIn(Seen(log, keep, |log|), r.subject, r.version) ==
              if Accepted(Seen(log, keep, p), r) then Entry(r.id, r.schema.Fp(), EndsDeleted(log, keep, p)) else Absent
  {
    var r, n := log[p], |log|;
    assert keep[p] && LegitAt(log, p);
    if Accepted(Seen(log, keep, p), r) {
      VersionFromRecord(log, keep, p, n);
      CachedFp(log, keep, p, r.schema);
    } else {
      VersionAbsent(log, keep, 0, n, r.subject, r.version);
    }
  }

  lemma RefusedEntry(log: seq<Record>, p: nat)
    requires RegistryWritten(log) && LastOfKey(log, p) && log[p].SchemaRecord? && !AcceptedAt(log, p)
    ensures var r, all := log[p], All(|log|);
            EntryIn(Seen(log, all, |log|), r.subject, r.version) ==
              if r.deleted
              then Entry(r.id, r.schema.Fp(), CoveredBetween(log, all, p, |log|, r.subject, r.version))
              else Absent
  {
    var r, n, all := log[p], |log|, All(|log|);
    SeenAll(log, p);
    assert LegitAt(log, p) && Seen(log, all, p + 1) == Seen(log, all, p);
    VersionStays(log, all, p, n, r.subject, r.version);
  }

  lemma WholeEntry(log: seq<Record>, p: nat)
    requires RegistryWritten(log) && LastOfKey(log, p) && log[p].SchemaRecord?
    ensures var r, all := log[p], All(|log|);
            EntryIn(Seen(log, all, |log|), r.subject, r.version) ==
              if AcceptedAt(log, p) then Entry(r.id, r.schema.Fp(), EndsDeleted(log, all, p))
              else if r.deleted
              then Entry(r.id, r.schema.Fp(), CoveredBetween(log, all, p, |log|, r.subject, r.version))
              else Absent
  {
    var r, n, all := log[p], |log|, All(|log|);
    SeenAll(log, p);
    assert LegitAt(log, p);
    if AcceptedAt(log, p) {
      VersionFromRecord(log, all, p, n);
      CachedFp(log, all, p, r.schema);
    } else {
      RefusedEntry(log, p);
    }
  }

  /** For any compaction that has left only the last record of a version: the version differs if and only if that is a
      soft delete that the compaction's reader refuses, or that the first reader refused without a later subject delete;
      or a registration that one of them accepts and the other refuses. */
  lemma DiffersIff(log: seq<Record>, keep: seq<bool>, p: nat)
    requires RegistryWritten(log) && IsCompaction(log, keep) && LastOfKey(log, p) && log[p].SchemaRecord?
    requires OnlyLastKept(log, keep, p)
    ensures var r := log[p];
            var first, second := AcceptedAt(log, p), Accepted(Seen(log, keep, p), r);
            SameVersion(Replay(log), Replay(Kept(log, keep)), r.subject, r.version) <==>
              if r.deleted
              then second && (first || CoveredBetween(log, All(|log|), p, |log|, r.subject, r.version))
              else first == second
  {
    var r, n := log[p], |log|;
    SeenIsReplay(log, keep, n);
    SeenAll(log, n);
    assert log[..n] == log && keep[..n] == keep;
    LeftEntry(log, keep, p);
    WholeEntry(log, p);
    if AcceptedAt(log, p) || r.deleted { CoveredAlike(log, keep, p); }
  }

  lemma VersionAlike(log: seq<Record>, keep: seq<bool>, p: nat)
    requires RegistryWritten(log) && LastAccepted(log) && IsCompaction(log, keep) && KeptAccepted(log, keep)
    requires LastOfKey(log, p) && (log[p].SchemaRecord? || log[p].Tombstone?)
    ensures SameVersion(Replay(log), Seen(log, keep, |log|), log[p].subject, log[p].version)
  {
    SeenAll(log, |log|);
    assert log[..|log|] == log;
    if log[p].SchemaRecord? {
      assert AcceptedAt(log, p) && keep[p];
      RecordAlike(log, keep, p);
    } else {
      TombstoneAlike(log, keep, p);
    }
  }

  /** A reader of any compaction that accepts what the compaction keeps for good has the version table of a
      reader of the whole log. */
  lemma CompactionKeepsTable(log: seq<Record>, keep: seq<bool>)
    requires RegistryWritten(log) && LastAccepted(log) && IsCompaction(log, keep) && KeptAccepted(log, keep)
    ensures SameTable(Replay(log), Replay(Kept(log, keep)))
  {
    var n := |log|;
    SeenIsReplay(log, keep, n);
    assert log[..n] == log && keep[..n] == keep;
    forall s, v ensures SameVersion(Replay(log), Seen(log, keep, n), s, v) {
      if i :| 0 <= i < n && KeyOf(log[i]) == SchemaKey(s, v) {
        var p := LastWithKey(log, i);
        VersionAlike(log, keep, p);
      } else {
        SeenAll(log, n);
        VersionAbsent(log, All(n), 0, n, s, v);
        VersionAbsent(log, keep, 0, n, s, v);
      }
    }
  }

  /** Schema records that agree in text and references agree in type. */
  ghost predicate OneTypeLog(log: seq<Record>) {
    forall i, j :: (&& 0 <= i < |log| && 0 <= j < |log| && log[i].SchemaRecord? && log[j].SchemaRecord?
                    && log[i].schema.Fp() == log[j].schema.Fp()) ==> log[i].schema == log[j].schema
  }

  ghost predicate OnlyWritten(log: seq<Record>, db: Db) {
    && (forall fp :: fp in db.cache ==> Written(log, db.cache[fp]))
    && (forall s, v :: db.Stored(s, v) ==> Written(log, db.At(s, v).schema))
  }

  lemma {:induction false} SeenOnlyWritten(log: seq<Record>, keep: seq<bool>, m: nat)
    requires RegistryWritten(log) && |keep| == |log| && m <= |log|
    ensures OnlyWritten(log, Seen(log, keep, m))
  {
    if m > 0 {
      SeenOnlyWritten(log, keep, m - 1);
      assert LegitAt(log, m - 1);
      if keep[m - 1] { ApplyOnlyWritten(log, Seen(log, keep, m - 1), log[m - 1]); }
    }
  }

  lemma ApplyOnlyWritten(log: seq<Record>, db: Db, r: Record)
    requires OnlyWritten(log, db) && (r.SchemaRecord? ==> Settled(r.schema) && Written(log, r.schema))
    ensures OnlyWritten(log, Apply(db, r))
  {
    var db' := Apply(db, r);
    if r.SchemaRecord? && Accepted(db, r) {
      UnderstoodSettled(db, r.schema);
      InsertFrame(db, r.subject, r.id, r.version, r.deleted, r.schema);
    } else {
      forall s, v | db'.Stored(s, v) ensures Written(log, db'.At(s, v).schema) {
        if KeyOf(r) != SchemaKey(s, v) { ApplyOther(db, r, s, v); } else if r.Tombstone? { HardDeleteFrame(db, s, v); }
      }
    }
  }

  /** Where no two schema types share text and references, the schemas themselves are the same too. */
  lemma CompactionKeepsSchemas(log: seq<Record>, keep: seq<bool>, s: Subject, v: int)
    requires RegistryWritten(log) && LastAccepted(log) && IsCompaction(log, keep) && KeptAccepted(log, keep) &&
             OneTypeLog(log)
    requires Replay(log).Stored(s, v)
    ensures Replay(Kept(log, keep)).Stored(s, v)
    ensures Replay(Kept(log, keep)).At(s, v).schema == Replay(log).At(s, v).schema
  {
    var n := |log|;
    CompactionKeepsTable(log, keep);
    assert SameVersion(Replay(log), Replay(Kept(log, keep)), s, v);
    SeenIsReplay(log, keep, n);
    SeenAll(log, n);
    assert log[..n] == log && keep[..n] == keep;
    SeenOnlyWritten(log, keep, n);
    SeenOnlyWritten(log, All(n), n);
  }

  ghost predicate ReferenceFree(log: seq<Record>) {
    forall i :: 0 <= i < |log| && log[i].SchemaRecord? ==> log[i].schema.references == []
  }

  /** Without references, every compaction of a registry-written log leads to the same version table. */
  lemma ReferenceFreeCompaction(log: seq<Record>, keep: seq<bool>)
    requires RegistryWritten(log) && ReferenceFree(log) && IsCompaction(log, keep)
    ensures SameTable(Replay(log), Replay(Kept(log, keep)))
  {
    forall i, db | 0 <= i < |log| ensures Accepted(db, log[i]) {
      if log[i].SchemaRecord? { assert ResolveAll(db, log[i].schema.references, 0).Some?; }
    }
    CompactionKeepsTable(log, keep);
  }

  /** At most one record is left of each key. */
  ghost predicate Complete(log: seq<Record>, keep: seq<bool>)
    requires |keep| == |log|
  {
    forall i, j :: 0 <= i < j < |log| && keep[i] && keep[j] ==> KeyOf(log[i]) != KeyOf(log[j])
  }

  /** A kept record that the reader rejects is a version lost. */
  lemma RejectedIsLost(log: seq<Record>, keep: seq<bool>, p: nat)
    requires RegistryWritten(log) && LastAccepted(log) && |keep| == |log| && Complete(log, keep)
    requires LastOfKey(log, p) && keep[p] && !Accepted(Seen(log, keep, p), log[p])
    ensures !SameTable(Replay(log), Seen(log, keep, |log|))
  {
    var r, n := log[p], |log|;
    assert forall j :: 0 <= j < n && keep[j] && KeyOf(log[j]) == KeyOf(r) ==> j == p;
    VersionAbsent(log, keep, 0, n, r.subject, r.version);
    StoredUntil(log, p, n);
    assert log[..n] == log;
    assert !SameVersion(Replay(log), Seen(log, keep, n), r.subject, r.version);
  }

  /** With references, a complete compaction leads to the same version table exactly when its reader accepts
      every schema record in it. */
  lemma CompleteCompactionIff(log: seq<Record>, keep: seq<bool>)
    requires RegistryWritten(log) && LastAccepted(log) && IsCompaction(log, keep) && Complete(log, keep)
    ensures SameTable(Replay(log), Replay(Kept(log, keep))) <==> KeptAccepted(log, keep)
  {
    var n := |log|;
    SeenIsReplay(log, keep, n);
    assert log[..n] == log && keep[..n] == keep;
    if KeptAccepted(log, keep) {
      CompactionKeepsTable(log, keep);
    } else {
      var p :| 0 <= p < n && keep[p] && LastOfKey(log, p) && !Accepted(Seen(log, keep, p), log[p]);
      RejectedIsLost(log, keep, p);
    }
  }
}
