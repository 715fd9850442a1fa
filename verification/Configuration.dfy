/** Which compatibility mode is in force: the last one configured for the subject, or else the last one configured
    globally. */
module Configuration {
  import opened SchemaModels
  import opened Database
  import opened SchemaReader
  import opened SchemaRegistry
  import opened RegistryInvariant
  import opened RegistryRuns

  // ---------------------------------------------------------------- the mode of a subject

  /** The record hard-deletes the last version of the subject, with which its configuration goes. */
  ghost predicate Drops(db: Db, r: Record, s: Subject) {
    r.Tombstone? && r.subject == s && db.Stored(s, r.version) && forall w :: db.Stored(s, w) ==> w == r.version
  }

  ghost predicate DropsAt(log: seq<Record>, j: nat, s: Subject)
    requires j < |log|
  {
    Drops(Replay(log[..j]), log[j], s)
  }

  predicate Sets(r: Record, s: Subject) { r.ConfigRecord? && r.target == Some(s) }

  ghost predicate Configured(db: Db, s: Subject, m: Mode) {
    s in db.subjects && db.subjects[s].compatibility == Some(m)
  }

  /** Record `i` configures the mode and nothing later configures the subject or takes it away. */
  ghost predicate InForceAt(log: seq<Record>, i: nat, s: Subject, m: Mode) {
    && i < |log| && log[i] == ConfigRecord(Some(s), Some(m))
    && forall j: nat :: i < j < |log| ==> !Sets(log[j], s) && !DropsAt(log, j, s)
  }

  ghost predicate InForce(log: seq<Record>, s: Subject, m: Mode) { exists i: nat :: InForceAt(log, i, s, m) }

  lemma LastPopped(db: Db, s: Subject, v: int)
    requires DictsOk(db) && db.Stored(s, v)
    ensures db.DeleteSubjectSchema(s, v).Versions(s).entries == map[] <==> forall w :: db.Stored(s, w) ==> w == v
  {
    var left := db.DeleteSubjectSchema(s, v).Versions(s).entries;
    assert forall w :: w in left <==> db.Stored(s, w) && w != v;
    if forall w :: db.Stored(s, w) ==> w == v {
      assert forall w :: w !in left;
      assert left == map[];
    } else {
      var w :| db.Stored(s, w) && w != v;
      assert w in left;
    }
  }

  lemma HardDeleteMode(db: Db, s: Subject, v: int, t: Subject, m: Mode)
    requires DictsOk(db)
    ensures Configured(HardDelete(db, s, v), t, m) <==> Configured(db, t, m) && !Drops(db, Tombstone(s, v), t)
  {
    if db.Stored(s, v) { LastPopped(db, s, v); }
  }

  lemma InsertMode(db: Db, r: Record, s: Subject, m: Mode)
    requires r.SchemaRecord?
    ensures Configured(Apply(db, r), s, m) <==> Configured(db, s, m)
  {
  }

  /** A record decides the mode of the subject it configures or takes away, and leaves all others alone. */
  lemma ModeAfterRecord(db: Db, r: Record, s: Subject, m: Mode)
    requires DictsOk(db)
    ensures Configured(Apply(db, r), s, m) <==>
            if Sets(r, s) then r.mode == Some(m) else Configured(db, s, m) && !Drops(db, r, s)
  {
    match r
    case SchemaRecord(_, _, _, _, _) => InsertMode(db, r, s, m);
    case Tombstone(t, v) => HardDeleteMode(db, t, v, s, m);
    case _ =>
  }

  lemma InForceSnoc(log: seq<Record>, r: Record, s: Subject, m: Mode)
    ensures InForce(log + [r], s, m) <==>
            if Sets(r, s) then r.mode == Some(m) else InForce(log, s, m) && !Drops(Replay(log), r, s)
  {
    var more, n := log + [r], |log|;
    assert more[n] == r && more[..n] == log;
    forall j: nat | j < n ensures more[j] == log[j] && DropsAt(more, j, s) == DropsAt(log, j, s) {
      assert more[..j] == log[..j];
    }
    if Sets(r, s) {
      if r.mode == Some(m) { assert InForceAt(more, n, s, m); }
      if i: nat :| InForceAt(more, i, s, m) { assert i == n; }
    } else {
      if i: nat :| InForceAt(more, i, s, m) {
        assert i < n && InForceAt(log, i, s, m) && !DropsAt(more, n, s);
      }
      if i: nat :| InForceAt(log, i, s, m) && !Drops(Replay(log), r, s) { assert InForceAt(more, i, s, m); }
    }
  }

  /** Along every registry-written log a subject has a mode of its own if and only if a record configured it and no
      later one configured the subject again, deconfigured it, or took it away with its last version. */
  lemma {:induction false} SubjectModeIff(log: seq<Record>, s: Subject, m: Mode)
    requires RegistryWritten(log)
    ensures Configured(Replay(log), s, m) <==> InForce(log, s, m)
  {
    if log != [] {
      var n := |log| - 1;
      WrittenPrefix(log, n);
      SubjectModeIff(log[..n], s, m);
      ReplayInv(log[..n]);
      assert log == log[..n] + [log[n]];
      ModeAfterRecord(Replay(log[..n]), log[n], s, m);
      InForceSnoc(log[..n], log[n], s, m);
    }
  }

  // ---------------------------------------------------------------- the global mode

  predicate SetsGlobal(r: Record) { r.ConfigRecord? && r.target == None && r.mode.Some? }

  /** The last record that sets the global mode, or the mode configured at the start. */
  ghost predicate GlobalIs(start: Mode, log: seq<Record>, m: Mode) {
    || (m == start && forall i :: 0 <= i < |log| ==> !SetsGlobal(log[i]))
    || exists i :: && 0 <= i < |log| && log[i] == ConfigRecord(None, Some(m))
                   && forall j :: i < j < |log| ==> !SetsGlobal(log[j])
  }

  function ModeAfter(start: Mode, log: seq<Record>): Mode {
    if log == [] then start else GlobalMode(ModeAfter(start, log[..|log| - 1]), log[|log| - 1])
  }

  lemma {:induction false} GlobalModeIff(start: Mode, log: seq<Record>, m: Mode)
    ensures ModeAfter(start, log) == m <==> GlobalIs(start, log, m)
  {
    if log != [] {
      var n := |log| - 1;
      GlobalModeIff(start, log[..n], m);
      GlobalSnoc(start, log[..n], log[n], m);
      assert log == log[..n] + [log[n]];
    }
  }

  lemma GlobalSnoc(start: Mode, log: seq<Record>, r: Record, m: Mode)
    ensures GlobalIs(start, log + [r], m) <==> if SetsGlobal(r) then r.mode == Some(m) else GlobalIs(start, log, m)
  {
    var more, n := log + [r], |log|;
    assert more[n] == r && forall i :: 0 <= i < n ==> more[i] == log[i];
    if i :| 0 <= i < |log| && log[i] == ConfigRecord(None, Some(m)) && forall j :: i < j < |log| ==>
        !SetsGlobal(log[j]) {
      assert more[i] == ConfigRecord(None, Some(m));
    }
    if i :| 0 <= i < n + 1 && more[i] == ConfigRecord(None, Some(m)) && forall j :: i < j < n + 1 ==>
        !SetsGlobal(more[j]) {
      assert i < n ==> log[i] == more[i];
    }
  }

  lemma {:induction false} ModeAppend(start: Mode, a: seq<Record>, b: seq<Record>)
    ensures ModeAfter(start, a + b) == ModeAfter(ModeAfter(start, a), b)
  {
    if b == [] {
      assert a + b == a;
    } else {
      ModeAppend(start, a, b[..|b| - 1]);
      assert (a + b)[..|a + b| - 1] == a + b[..|b| - 1];
    }
  }

  lemma {:induction false} HandledMode(st: State, rs: seq<Record>)
    ensures HandleAll(st, rs).mode == ModeAfter(st.mode, rs)
  {
    if rs != [] { HandledMode(st, rs[..|rs| - 1]); }
  }

  lemma {:induction false} RunMode(canRead: CanRead, mode: Mode, requests: seq<Request>)
    ensures Run(canRead, mode, requests).st.mode == ModeAfter(mode, Run(canRead, mode, requests).log)
  {
    if requests != [] {
      var init, request := requests[..|requests| - 1], requests[|requests| - 1];
      var w := Run(canRead, mode, init);
      var plan := PlanOf(canRead, w.st, request);
      RunMode(canRead, mode, init);
      HandledMode(w.st.(counter := plan.counter), plan.records);
      ModeAppend(mode, w.log, plan.records);
    }
  }

  // ---------------------------------------------------------------- both

  /** Along every run, the mode a registration is checked under is the one in force for its subject, and where there is
      none the one set globally last. */
  lemma ModeInForce(canRead: CanRead, mode: Mode, requests: seq<Request>, s: Subject, m: Mode)
    ensures var w := Run(canRead, mode, requests);
            ModeFor(w.st, s) == m <==>
              InForce(w.log, s, m) || (GlobalIs(mode, w.log, m) && forall other :: !InForce(w.log, s, other))
  {
    RunOk(canRead, mode, requests);
    var w := Run(canRead, mode, requests);
    forall other: Mode ensures Configured(w.st.db, s, other) <==> InForce(w.log, s, other) {
      SubjectModeIff(w.log, s, other);
    }
    RunMode(canRead, mode, requests);
    GlobalModeIff(mode, w.log, m);
    if s in w.st.db.subjects && w.st.db.subjects[s].compatibility.Some? {
      assert Configured(w.st.db, s, w.st.db.subjects[s].compatibility.value);
    }
  }

  lemma ConfigHandled(st: State, target: Option<Subject>, mode: Option<Mode>)
    ensures HandleAll(st, [ConfigRecord(target, mode)]) == HandleMsg(st, ConfigRecord(target, mode))
  {
    assert [ConfigRecord(target, mode)][..0] == [] && HandleAll(st, []) == st;
  }

  /** A configuration request takes effect at once, for its subject or globally. */
  lemma ConfigureTakesEffect(canRead: CanRead, mode: Mode, requests: seq<Request>, s: Subject, m: Mode)
    ensures var w := Run(canRead, mode, requests);
            && ModeFor(Exec(canRead, w, SchemaRegistry.Configure(Some(s), Some(m))).st, s) == m
            && ModeFor(Exec(canRead, w, SchemaRegistry.Configure(Some(s), None)).st, s) == w.st.mode
            && Exec(canRead, w, SchemaRegistry.Configure(None, Some(m))).st.mode == m
  {
    var w := Run(canRead, mode, requests);
    ConfigHandled(w.st, Some(s), Some(m));
    ConfigHandled(w.st, Some(s), None);
    ConfigHandled(w.st, None, Some(m));
  }
}
