/** Catching up: a node that acts has handled everything any other node has sent. */
module ClusterFence {
  import opened Election
  import opened Mastership
  import opened Cluster
  import opened ClusterTiming

  // ---------------------------------------------------------------- the invariant

  /** Whoever sent a record was acting then. */
  ghost predicate SenderOk(c: Cluster, e: Sent) {
    e.sender in c.nodes && c.nodes[e.sender].lastAct.Some? && e.at <= c.nodes[e.sender].lastAct.value
  }

  ghost predicate Traced(u: Setup, c: Cluster) {
    && (forall i :: 0 <= i < |c.log| ==> SenderOk(c, c.log[i]))
    && (forall k :: 0 <= k < |c.inflight| ==> SenderOk(c, c.inflight[k]) && c.now <= c.inflight[k].at + u.wait)
  }

  ghost predicate ReaderOk(c: Cluster, n: Node) {
    && n.processed <= |c.log|
    && (n.checking.Some? ==> !n.readerReady && n.processed <= n.checking.value <= |c.log|)
  }

  /** What others sent up to time `t`: delivered, and among the first `m` records. */
  ghost predicate Within(c: Cluster, n: NodeId, t: real, m: nat) {
    && (forall k :: 0 <= k < |c.inflight| && c.inflight[k].sender != n ==> c.inflight[k].at > t)
    && (forall i :: 0 <= i < |c.log| && c.log[i].sender != n && c.log[i].at <= t ==> i < m)
  }

  /** Everything others ever sent is delivered, and among the first `m` records. */
  ghost predicate AllWithin(c: Cluster, n: NodeId, m: nat) {
    && (forall k :: 0 <= k < |c.inflight| ==> c.inflight[k].sender == n)
    && (forall i :: 0 <= i < |c.log| && c.log[i].sender != n ==> i < m)
  }

  ghost predicate Fenced(c: Cluster, n: NodeId, node: Node) {
    node.standing.Flagged() && node.standing.waiting.Elapsed? ==>
      && AllWithin(c, n, |c.log|)
      && (node.readerReady ==> AllWithin(c, n, node.processed))
      && (node.checking.Some? ==> AllWithin(c, n, node.checking.value))
  }

  ghost predicate CaughtUp(c: Cluster, n: NodeId, node: Node) {
    node.lastAct.Some? ==> Within(c, n, node.lastAct.value, node.processed)
  }

  ghost predicate Sealed(u: Setup, c: Cluster) {
    && Traced(u, c)
    && forall n :: n in c.nodes ==> ReaderOk(c, c.nodes[n]) && Fenced(c, n, c.nodes[n]) && CaughtUp(c, n, c.nodes[n])
  }

  // ---------------------------------------------------------------- the steps

  lemma ObserveSealed(u: Setup, c: Cluster)
    requires Timed(u, c) && Sealed(u, c)
    ensures Sealed(u, Observe(u, c))
  {
    var d := Observe(u, c);
    forall n | n in d.nodes ensures ReaderOk(d, d.nodes[n]) && Fenced(d, n, d.nodes[n]) && CaughtUp(d, n, d.nodes[n]) {
      assert ReaderOk(c, c.nodes[n]) && Fenced(c, n, c.nodes[n]) && CaughtUp(c, n, c.nodes[n]);
      if Acting(u, c, n) { assert AllWithin(c, n, c.nodes[n].processed); }
    }
    forall e | SenderOk(c, e) ensures SenderOk(d, e) {
      assert NodeOk(u, c.now, c.nodes[e.sender]);
    }
  }

  /** A node whose wait is over finds everything of the others in the log. */
  lemma WaitOver(u: Setup, c: Cluster, n: NodeId)
    requires Timed(u, c) && Traced(u, c) && n in c.nodes && c.nodes[n].standing.Flagged()
    requires c.nodes[n].standing.waiting.Since? && c.now > c.nodes[n].standing.waiting.at + u.wait
    ensures AllWithin(c, n, |c.log|)
  {
    forall k | 0 <= k < |c.inflight| ensures c.inflight[k].sender == n {
      var e := c.inflight[k];
      assert SenderOk(c, e) && c.now <= e.at + u.wait;
      assert e.sender != n ==> PairOk(u, c.now, c.nodes[n], c.nodes[e.sender]);
    }
  }

  /** A node that may skip the wait has handled everything of the others. */
  lemma SkipCaughtUp(u: Setup, c: Cluster, n: NodeId)
    requires u.wait >= 0.0 && Timed(u, c) && Observed(u, c) && Sealed(u, c) && n in c.nodes
    requires !Stale(Noted(u, c, c.nodes[n]).standing, c.now, u.wait)
    ensures AllWithin(c, n, c.nodes[n].processed)
  {
    var node := c.nodes[n];
    assert NodeOk(u, c.now, node) && CaughtUp(c, n, node) && Fenced(c, n, node);
    if Acting(u, c, n) {
      assert AllWithin(c, n, node.processed);
    } else {
      var led := node.standing.lastLed.time;
      forall e | SenderOk(c, e) && e.sender != n ensures e.at <= node.lastAct.value {
        assert PairOk(u, c.now, node, c.nodes[e.sender]) && NodeOk(u, c.now, c.nodes[e.sender]);
      }
      forall k | 0 <= k < |c.inflight| ensures c.inflight[k].sender == n { assert SenderOk(c, c.inflight[k]); }
      forall i | 0 <= i < |c.log| && c.log[i].sender != n ensures i < node.processed { assert SenderOk(c, c.log[i]); }
    }
  }

  /** The bookkeeping before a rejoin keeps what a node has sealed. */
  lemma NotedFenced(u: Setup, c: Cluster, n: NodeId)
    requires Timed(u, c) && Sealed(u, c) && n in c.nodes
    ensures Fenced(c, n, Noted(u, c, c.nodes[n])) && Fenced(c, n, After(c.nodes[n], Ask(u, c, c.nodes[n])))
  {
    var node := c.nodes[n];
    assert ReaderOk(c, node) && Fenced(c, n, node);
    if Ask(u, c, node).unready { WaitOver(u, c, n); }
  }

  lemma JoinedFenced(u: Setup, c: Cluster, n: NodeId, a: Assignment)
    requires u.wait >= 0.0 && Timed(u, c) && Observed(u, c) && Sealed(u, c) && n in c.nodes
    ensures Fenced(c, n, Joined(u, c, c.nodes[n], a)) && ReaderOk(c, Joined(u, c, c.nodes[n], a))
  {
    NotedFenced(u, c, n);
    assert ReaderOk(c, c.nodes[n]);
    if !Stale(Noted(u, c, c.nodes[n]).standing, c.now, u.wait) { SkipCaughtUp(u, c, n); }
  }

  /** Steps that leave log, in-flight records and clock alone. */
  lemma QuietSealed(u: Setup, c: Cluster, d: Cluster)
    requires Sealed(u, c) && d == c.(nodes := d.nodes)
    requires forall n :: n in c.nodes ==>
               n in d.nodes && d.nodes[n].lastAct == c.nodes[n].lastAct && d.nodes[n].processed == c.nodes[n].processed
    requires forall n :: n in d.nodes && n !in c.nodes ==> d.nodes[n].lastAct.None?
    requires forall n :: n in d.nodes ==> ReaderOk(c, d.nodes[n]) && Fenced(c, n, d.nodes[n])
    ensures Sealed(u, d)
  {
    forall n | n in d.nodes ensures ReaderOk(d, d.nodes[n]) && Fenced(d, n, d.nodes[n]) && CaughtUp(d, n, d.nodes[n]) {
      if n in c.nodes { assert CaughtUp(c, n, c.nodes[n]); }
    }
    assert forall e :: SenderOk(c, e) ==> SenderOk(d, e);
  }

  lemma ReadersSealed(u: Setup, c: Cluster, a: Action)
    requires Timed(u, c) && Sealed(u, c) && Enabled(u, c, a) && (a.ReadEnd? || a.SetReady?)
    ensures Sealed(u, Do(u, c, a))
  {
    var d := Do(u, c, a);
    forall n | n in d.nodes ensures ReaderOk(c, d.nodes[n]) && Fenced(c, n, d.nodes[n]) {
      assert ReaderOk(c, c.nodes[n]) && Fenced(c, n, c.nodes[n]);
    }
    QuietSealed(u, c, d);
  }

  lemma ElectSealed(u: Setup, c: Cluster, a: Action)
    requires u.wait >= 0.0 && Timed(u, c) && Observed(u, c) && Sealed(u, c) && Enabled(u, c, a) && a.Elect?
    ensures Sealed(u, Do(u, c, a))
  {
    var d := Do(u, c, a);
    forall n | n in d.nodes ensures ReaderOk(c, d.nodes[n]) && Fenced(c, n, d.nodes[n]) {
      assert ReaderOk(c, c.nodes[n]) && Fenced(c, n, c.nodes[n]);
      JoinedFenced(u, c, n, Assignment(n, a.master, c.nodes[a.master].identity));
    }
    QuietSealed(u, c, d);
  }

  predicate ChangesStanding(a: Action) { a.Start? || a.Query? || a.TryRejoin? || a.LoseCoordinator? || a.Leave? }

  lemma StandingSealed(u: Setup, c: Cluster, a: Action, n: NodeId)
    requires u.wait >= 0.0 && Timed(u, c) && Observed(u, c) && Sealed(u, c) && Enabled(u, c, a)
    requires ChangesStanding(a) && n in Do(u, c, a).nodes
    ensures ReaderOk(c, Do(u, c, a).nodes[n]) && Fenced(c, n, Do(u, c, a).nodes[n])
  {
    if n in c.nodes {
      assert ReaderOk(c, c.nodes[n]) && Fenced(c, n, c.nodes[n]);
      NotedFenced(u, c, n);
    }
  }

  lemma StandingsSealed(u: Setup, c: Cluster, a: Action)
    requires u.wait >= 0.0 && Timed(u, c) && Observed(u, c) && Sealed(u, c) && Enabled(u, c, a) && ChangesStanding(a)
    ensures Sealed(u, Do(u, c, a))
  {
    var d := Do(u, c, a);
    forall n | n in d.nodes ensures ReaderOk(c, d.nodes[n]) && Fenced(c, n, d.nodes[n]) {
      StandingSealed(u, c, a, n);
    }
    QuietSealed(u, c, d);
  }

  lemma ConsumeSealed(u: Setup, c: Cluster, a: Action)
    requires Sealed(u, c) && Enabled(u, c, a) && a.Consume?
    ensures Sealed(u, Do(u, c, a))
  {
    var d := Do(u, c, a);
    forall n | n in d.nodes ensures ReaderOk(d, d.nodes[n]) && Fenced(d, n, d.nodes[n]) && CaughtUp(d, n, d.nodes[n]) {
      assert ReaderOk(c, c.nodes[n]) && Fenced(c, n, c.nodes[n]) && CaughtUp(c, n, c.nodes[n]);
    }
    assert forall e :: SenderOk(c, e) ==> SenderOk(d, e);
  }

  lemma WriteSealed(u: Setup, c: Cluster, a: Action)
    requires u.wait >= 0.0 && Timed(u, c) && Observed(u, c) && Sealed(u, c) && Enabled(u, c, a) && a.Write?
    ensures Sealed(u, Do(u, c, a))
  {
    var d, w := Do(u, c, a), a.node;
    forall k | 0 <= k < |d.inflight|
      ensures d.inflight[k].sender == w && SenderOk(d, d.inflight[k]) && d.now <= d.inflight[k].at + u.wait
    {
      if k < |c.inflight| {
        assert d.inflight[k] == c.inflight[k] && SenderOk(c, c.inflight[k]);
        assert Fenced(c, w, c.nodes[w]);
      }
    }
    forall i | 0 <= i < |d.log| ensures SenderOk(d, d.log[i]) { assert SenderOk(c, c.log[i]); }
    forall n | n in d.nodes ensures ReaderOk(d, d.nodes[n]) && Fenced(d, n, d.nodes[n]) && CaughtUp(d, n, d.nodes[n]) {
      assert ReaderOk(c, c.nodes[n]) && Fenced(c, n, c.nodes[n]) && CaughtUp(c, n, c.nodes[n]);
      if n != w {
        assert PairOk(u, c.now, c.nodes[w], c.nodes[n]);
        forall k | 0 <= k < |d.inflight| && d.nodes[n].lastAct.Some?
          ensures d.inflight[k].at > d.nodes[n].lastAct.value
        {
          if k < |c.inflight| { assert c.inflight[k] == d.inflight[k] && c.inflight[k].sender != n; }
        }
      }
    }
  }

  lemma DeliverSealed(u: Setup, c: Cluster, a: Action)
    requires Sealed(u, c) && Enabled(u, c, a) && a.Deliver?
    ensures Sealed(u, Do(u, c, a))
  {
    var d, x := Do(u, c, a), a.index;
    forall k | 0 <= k < |d.inflight| ensures d.inflight[k] in c.inflight {
      assert d.inflight[k] == c.inflight[if k < x then k else k + 1];
    }
    forall e | e in c.inflight ensures SenderOk(d, e) && d.now <= e.at + u.wait {
      var k :| 0 <= k < |c.inflight| && c.inflight[k] == e;
      assert SenderOk(c, c.inflight[k]);
    }
    forall i | 0 <= i < |d.log| ensures SenderOk(d, d.log[i]) {
      if i < |c.log| {
        assert d.log[i] == c.log[i] && SenderOk(c, c.log[i]);
      } else {
        assert d.log[i] == c.inflight[x];
      }
    }
    forall n | n in d.nodes ensures ReaderOk(d, d.nodes[n]) && Fenced(d, n, d.nodes[n]) && CaughtUp(d, n, d.nodes[n]) {
      assert ReaderOk(c, c.nodes[n]) && Fenced(c, n, c.nodes[n]) && CaughtUp(c, n, c.nodes[n]);
      assert d.log[|c.log|] == c.inflight[x];
      assert forall i :: 0 <= i < |c.log| ==> d.log[i] == c.log[i];
    }
  }

  lemma TickSealed(u: Setup, c: Cluster, a: Action)
    requires Sealed(u, c) && Enabled(u, c, a) && a.Tick?
    ensures Sealed(u, Do(u, c, a))
  {
    var d := Do(u, c, a);
    forall n | n in d.nodes ensures ReaderOk(d, d.nodes[n]) && Fenced(d, n, d.nodes[n]) && CaughtUp(d, n, d.nodes[n]) {
      assert ReaderOk(c, c.nodes[n]) && Fenced(c, n, c.nodes[n]) && CaughtUp(c, n, c.nodes[n]);
    }
    assert forall e :: SenderOk(c, e) ==> SenderOk(d, e);
  }

  lemma DoSealed(u: Setup, c: Cluster, a: Action)
    requires u.wait >= 0.0 && Timed(u, c) && Observed(u, c) && Sealed(u, c) && Enabled(u, c, a)
    ensures Sealed(u, Do(u, c, a))
  {
    match a
    case Tick(_) => TickSealed(u, c, a);
    case ReadEnd(_) => ReadersSealed(u, c, a);
    case SetReady(_) => ReadersSealed(u, c, a);
    case Consume(_) => ConsumeSealed(u, c, a);
    case Write(_, _) => WriteSealed(u, c, a);
    case Deliver(_) => DeliverSealed(u, c, a);
    case Elect(_, _) => ElectSealed(u, c, a);
    case _ => StandingsSealed(u, c, a);
  }

  lemma {:induction false} RunSealed(u: Setup, actions: seq<Action>)
    requires u.wait >= 0.0
    ensures Sealed(u, Reached(u, actions))
  {
    if actions != [] {
      var c, a := Reached(u, actions[..|actions| - 1]), actions[|actions| - 1];
      RunSealed(u, actions[..|actions| - 1]);
      RunTimed(u, actions[..|actions| - 1]);
      if Enabled(u, c, a) {
        DoSealed(u, c, a);
        DoTimed(u, c, a);
        ObserveSealed(u, Do(u, c, a));
      }
    }
  }

  /** Whenever a node acts, it has handled every record that any other node has ever sent. */
  lemma ActingIsCaughtUp(u: Setup, actions: seq<Action>, n: NodeId)
    requires u.wait >= 0.0 && Acting(u, Reached(u, actions), n)
    ensures AllWithin(Reached(u, actions), n, Reached(u, actions).nodes[n].processed)
  {
    RunSealed(u, actions);
    var c := Reached(u, actions);
    assert Fenced(c, n, c.nodes[n]);
  }

  // ---------------------------------------------------------------- the end offset read after the wait

  /** In a tenure that began with a wait, the end offset that makes the reader ready is read after it. */
  ghost predicate TenureOk(u: Setup, now: real, n: Node) {
    n.standing.Flagged() ==>
      && !n.tenure.NoTenure?
      && (n.tenure.Waited? && n.standing.waiting.Since? ==> n.standing.waiting.at == n.tenure.elected)
      && (n.tenure.Waited? && n.standing.waiting.Elapsed? ==>
            && now > n.tenure.elected + u.wait
            && (n.readerReady ==> ReadSince(n, n.tenure.elected + u.wait) && n.lastRead.value.1 <= n.processed)
            && (n.checking.Some? ==> ReadSince(n, n.tenure.elected + u.wait) && n.lastRead.value.1 == n.checking.value))
  }

  ghost predicate ReadSince(n: Node, t: real) { n.lastRead.Some? && n.lastRead.value.0 > t }

  ghost predicate Tenures(u: Setup, c: Cluster) {
    forall n :: n in c.nodes ==> TenureOk(u, c.now, c.nodes[n])
  }

  lemma JoinedTenure(u: Setup, c: Cluster, n: NodeId, a: Assignment)
    requires Timed(u, c) && Sealed(u, c) && Tenures(u, c) && n in c.nodes
    ensures TenureOk(u, c.now, Joined(u, c, c.nodes[n], a)) && TenureOk(u, c.now, Noted(u, c, c.nodes[n]))
    ensures TenureOk(u, c.now, After(c.nodes[n], Ask(u, c, c.nodes[n])))
  {
    assert TenureOk(u, c.now, c.nodes[n]) && ReaderOk(c, c.nodes[n]) && NodeOk(u, c.now, c.nodes[n]);
  }

  lemma DoTenures(u: Setup, c: Cluster, a: Action)
    requires Timed(u, c) && Sealed(u, c) && Tenures(u, c) && Enabled(u, c, a)
    ensures Tenures(u, Do(u, c, a))
  {
    var d := Do(u, c, a);
    match a
    case Start(_, _) =>
    case Tick(_) =>
    case Deliver(_) =>
    case Elect(_, _) =>
      forall n | n in d.nodes ensures TenureOk(u, d.now, d.nodes[n]) {
        JoinedTenure(u, c, n, Assignment(n, a.master, c.nodes[a.master].identity));
      }
    case _ => OneNodeTenure(u, c, a);
  }

  lemma NodeTenure(u: Setup, c: Cluster, a: Action)
    requires Timed(u, c) && Sealed(u, c) && Tenures(u, c) && Enabled(u, c, a) && Single(a) && a.node in c.nodes
    ensures TenureOk(u, c.now, Do(u, c, a).nodes[a.node])
  {
    assert TenureOk(u, c.now, c.nodes[a.node]) && ReaderOk(c, c.nodes[a.node]);
    JoinedTenure(u, c, a.node, Assignment(a.node, a.node, c.nodes[a.node].identity));
  }

  lemma OneNodeTenure(u: Setup, c: Cluster, a: Action)
    requires Timed(u, c) && Sealed(u, c) && Tenures(u, c) && Enabled(u, c, a) && Single(a)
    ensures Tenures(u, Do(u, c, a))
  {
    OneNodeShape(u, c, a);
    NodeTenure(u, c, a);
    assert forall m :: m in c.nodes && m != a.node ==> Do(u, c, a).nodes[m] == c.nodes[m];
  }

  lemma StepTenures(u: Setup, c: Cluster, a: Action)
    requires Timed(u, c) && Sealed(u, c) && Tenures(u, c)
    ensures Tenures(u, Step(u, c, a))
  {
    if Enabled(u, c, a) { DoTenures(u, c, a); }
  }

  lemma {:induction false} RunTenures(u: Setup, actions: seq<Action>)
    requires u.wait >= 0.0
    ensures Tenures(u, Reached(u, actions))
  {
    if actions != [] {
      RunTenures(u, actions[..|actions| - 1]);
      RunTimed(u, actions[..|actions| - 1]);
      RunSealed(u, actions[..|actions| - 1]);
      StepTenures(u, Reached(u, actions[..|actions| - 1]), actions[|actions| - 1]);
    }
  }

  /** Whenever a node acts in a tenure that did not skip the wait, its reader has handled every record below an
      end offset that it read after the whole wait had passed. */
  lemma ActsAfterReread(u: Setup, actions: seq<Action>, n: NodeId)
    requires u.wait >= 0.0 && Acting(u, Reached(u, actions), n) && !Reached(u, actions).nodes[n].tenure.Skipped?
    ensures var node := Reached(u, actions).nodes[n];
            && node.tenure.Waited? && node.lastRead.Some?
            && node.lastRead.value.0 > node.tenure.elected + u.wait
            && node.lastRead.value.1 <= node.processed
  {
    RunTenures(u, actions);
  }
}
