/** A master gets to act: whatever has happened before, once its wait is over and its reader has caught up; and at once
    if it led within the wait. */
module ClusterProgress {
  import opened SchemaModels
  import opened Election
  import opened Mastership
  import opened Cluster
  import opened ClusterTiming
  import opened ClusterIds

  // ---------------------------------------------------------------- going on from a cluster

  ghost function Onward(u: Setup, c: Cluster, actions: seq<Action>): Cluster {
    if actions == [] then c else Step(u, Onward(u, c, actions[..|actions| - 1]), actions[|actions| - 1])
  }

  lemma {:induction false} OnwardReached(u: Setup, actions: seq<Action>, more: seq<Action>)
    ensures Onward(u, Reached(u, actions), more) == Reached(u, actions + more)
  {
    if more == [] {
      assert actions + more == actions;
    } else {
      OnwardReached(u, actions, more[..|more| - 1]);
      assert (actions + more)[..|actions + more| - 1] == actions + more[..|more| - 1];
    }
  }

  lemma {:induction false} OnwardAppend(u: Setup, c: Cluster, a: seq<Action>, b: seq<Action>)
    ensures Onward(u, c, a + b) == Onward(u, Onward(u, c, a), b)
  {
    if b == [] {
      assert a + b == a;
    } else {
      OnwardAppend(u, c, a, b[..|b| - 1]);
      assert (a + b)[..|a + b| - 1] == a + b[..|b| - 1];
    }
  }

  lemma OnwardOne(u: Setup, c: Cluster, a: Action)
    requires Enabled(u, c, a)
    ensures Onward(u, c, [a]) == Observe(u, Do(u, c, a))
  {
    assert [a][..0] == [] && Onward(u, c, []) == c;
  }

  /** What has to happen for a node to act: records arrive, time passes, and the node itself is asked, reads and catches
      up. No election, no other node. */
  predicate Natural(n: NodeId, a: Action) {
    match a
    case Deliver(_) => true
    case Tick(_) => true
    case Query(m) => m == n
    case ReadEnd(m) => m == n
    case SetReady(m) => m == n
    case Consume(m) => m == n
    case _ => false
  }

  predicate AllNatural(n: NodeId, actions: seq<Action>) { forall i :: 0 <= i < |actions| ==> Natural(n, actions[i]) }

  /** The node in both clusters with the same coordinator state; only its history of acting may differ. */
  ghost predicate KeepsNode(c: Cluster, d: Cluster, n: NodeId, ready: bool, checking: Option<nat>, processed: nat) {
    && n in c.nodes && n in d.nodes && d.nodes[n].standing == c.nodes[n].standing
    && d.nodes[n].readerReady == ready && d.nodes[n].checking == checking && d.nodes[n].processed == processed
  }

  lemma ObserveKeepsNode(u: Setup, c: Cluster, n: NodeId)
    requires n in c.nodes
    ensures var d, m := Observe(u, c), c.nodes[n];
            && n in d.nodes && d.now == c.now && d.log == c.log && d.inflight == c.inflight
            && KeepsNode(c, d, n, m.readerReady, m.checking, m.processed)
  {
  }

  // ---------------------------------------------------------------- records arrive

  lemma {:induction false} Drain(u: Setup, c: Cluster, n: NodeId) returns (more: seq<Action>)
    requires n in c.nodes
    ensures AllNatural(n, more)
    ensures var d, m := Onward(u, c, more), c.nodes[n];
            && d.inflight == [] && d.now == c.now && |d.log| == |c.log| + |c.inflight|
            && KeepsNode(c, d, n, m.readerReady, m.checking, m.processed)
    decreases |c.inflight|
  {
    if c.inflight == [] {
      more := [];
    } else {
      var a := Deliver(0);
      var d := Do(u, c, a);
      assert |d.inflight| == |c.inflight| - 1 && |d.log| == |c.log| + 1 && d.nodes == c.nodes;
      OnwardOne(u, c, a);
      ObserveKeepsNode(u, d, n);
      var rest := Drain(u, Observe(u, d), n);
      more := [a] + rest;
      OnwardAppend(u, c, [a], rest);
    }
  }

  // ---------------------------------------------------------------- the reader catches up

  /** The reader is ready, has nothing pending and has handled the whole log; nothing is in flight. */
  ghost predicate Caught(c: Cluster, n: NodeId) {
    && n in c.nodes && c.inflight == []
    && c.nodes[n].readerReady && c.nodes[n].checking == None && c.nodes[n].processed == |c.log|
  }

  /** Same time and log, same coordinator state of the node. */
  ghost predicate Beside(c: Cluster, d: Cluster, n: NodeId) {
    && d.now == c.now && d.log == c.log && d.inflight == c.inflight && n in c.nodes && n in d.nodes
    && d.nodes[n].standing == c.nodes[n].standing
  }

  lemma SettleCheck(u: Setup, c: Cluster, n: NodeId) returns (more: seq<Action>)
    requires n in c.nodes
    ensures AllNatural(n, more)
    ensures var d := Onward(u, c, more);
            Beside(c, d, n) && d.nodes[n].checking == None && d.nodes[n].processed == c.nodes[n].processed
  {
    if c.nodes[n].checking.Some? {
      more := [SetReady(n)];
      OnwardOne(u, c, SetReady(n));
      ObserveKeepsNode(u, Do(u, c, SetReady(n)), n);
    } else {
      more := [];
    }
  }

  lemma {:induction false} ReadLog(u: Setup, c: Cluster, n: NodeId) returns (more: seq<Action>)
    requires n in c.nodes && c.nodes[n].checking == None && c.nodes[n].processed <= |c.log|
    ensures AllNatural(n, more)
    ensures var d := Onward(u, c, more);
            && Beside(c, d, n) && d.nodes[n].checking == None && d.nodes[n].processed == |d.log|
            && d.nodes[n].readerReady == c.nodes[n].readerReady
    decreases |c.log| - c.nodes[n].processed
  {
    if c.nodes[n].processed == |c.log| {
      more := [];
    } else {
      var a := Consume(n);
      var d := Do(u, c, a);
      OnwardOne(u, c, a);
      ObserveKeepsNode(u, d, n);
      var rest := ReadLog(u, Observe(u, d), n);
      more := [a] + rest;
      OnwardAppend(u, c, [a], rest);
    }
  }

  lemma BecomeReady(u: Setup, c: Cluster, n: NodeId) returns (more: seq<Action>)
    requires n in c.nodes && c.inflight == [] && c.nodes[n].checking == None && c.nodes[n].processed == |c.log|
    ensures AllNatural(n, more)
    ensures var d := Onward(u, c, more); Beside(c, d, n) && Caught(d, n)
  {
    if c.nodes[n].readerReady {
      more := [];
    } else {
      var b := Observe(u, Do(u, c, ReadEnd(n)));
      OnwardOne(u, c, ReadEnd(n));
      ObserveKeepsNode(u, Do(u, c, ReadEnd(n)), n);
      OnwardOne(u, b, SetReady(n));
      ObserveKeepsNode(u, Do(u, b, SetReady(n)), n);
      more := [ReadEnd(n)] + [SetReady(n)];
      OnwardAppend(u, c, [ReadEnd(n)], [SetReady(n)]);
    }
  }

  lemma CatchUp(u: Setup, c: Cluster, n: NodeId) returns (more: seq<Action>)
    requires n in c.nodes && c.inflight == [] && c.nodes[n].processed <= |c.log|
    ensures AllNatural(n, more)
    ensures var d := Onward(u, c, more); Beside(c, d, n) && Caught(d, n)
  {
    var x := SettleCheck(u, c, n);
    var b := Onward(u, c, x);
    var y := ReadLog(u, b, n);
    var d := Onward(u, b, y);
    var z := BecomeReady(u, d, n);
    more := x + y + z;
    OnwardAppend(u, c, x, y);
    OnwardAppend(u, c, x + y, z);
  }

  // ---------------------------------------------------------------- the wait is over

  /** Asked after its wait, a flagged node stops waiting and has its reader check once more. */
  lemma WaitEnds(u: Setup, c: Cluster, n: NodeId, to: real) returns (more: seq<Action>)
    requires Caught(c, n) && c.nodes[n].standing.Flagged() && c.nodes[n].standing.joined
    requires c.nodes[n].standing.waiting.Since? && to >= c.now && to > c.nodes[n].standing.waiting.at + u.wait
    ensures AllNatural(n, more)
    ensures var d := Onward(u, c, more);
            && d.now == to && n in d.nodes && d.inflight == [] && d.nodes[n].processed <= |d.log|
            && d.nodes[n].standing == c.nodes[n].standing.(waiting := Elapsed)
  {
    var b := Observe(u, Do(u, c, Tick(to)));
    OnwardOne(u, c, Tick(to));
    ObserveKeepsNode(u, Do(u, c, Tick(to)), n);
    OnwardOne(u, b, Query(n));
    ObserveKeepsNode(u, Do(u, b, Query(n)), n);
    more := [Tick(to)] + [Query(n)];
    OnwardAppend(u, c, [Tick(to)], [Query(n)]);
  }

  lemma ReadyActs(u: Setup, c: Cluster, n: NodeId)
    requires Caught(c, n) && c.nodes[n].standing.Flagged() && c.nodes[n].standing.joined
    requires c.nodes[n].standing.waiting.Elapsed?
    ensures Acting(u, c, n)
  {
  }

  /** After every run: a node flagged master that still waits acts at any time after its wait, once records in flight
      have arrived, time has come to that, and it has been asked and has caught up; nothing else has to happen. */
  lemma WaitingMasterActs(u: Setup, actions: seq<Action>, n: NodeId, to: real) returns (more: seq<Action>)
    requires u.wait >= 0.0 && n in Reached(u, actions).nodes
    requires var c := Reached(u, actions); var s := c.nodes[n].standing;
             s.Flagged() && s.waiting.Since? && to >= c.now && to > s.waiting.at + u.wait
    ensures AllNatural(n, more)
    ensures var d := Reached(u, actions + more); d.now == to && Acting(u, d, n)
  {
    var c := Reached(u, actions);
    RunTimed(u, actions);
    RunIds(u, actions);
    assert NodeOk(u, c.now, c.nodes[n]) && MemoryOk(c, c.nodes[n]);
    var x := Drain(u, c, n);
    var c1 := Onward(u, c, x);
    var y := CatchUp(u, c1, n);
    var c2 := Onward(u, c1, y);
    var z := WaitEnds(u, c2, n, to);
    var c3 := Onward(u, c2, z);
    var t := CatchUp(u, c3, n);
    ReadyActs(u, Onward(u, c3, t), n);
    more := x + y + z + t;
    OnwardAppend(u, c, x, y);
    OnwardAppend(u, c, x + y, z);
    OnwardAppend(u, c, x + y + z, t);
    OnwardReached(u, actions, more);
  }

  /** So does one that has waited already, without any more time passing. */
  lemma WaitedMasterActs(u: Setup, actions: seq<Action>, n: NodeId) returns (more: seq<Action>)
    requires u.wait >= 0.0 && n in Reached(u, actions).nodes
    requires Reached(u, actions).nodes[n].standing.Flagged()
    requires Reached(u, actions).nodes[n].standing.waiting.Elapsed?
    ensures AllNatural(n, more)
    ensures var d := Reached(u, actions + more); d.now == Reached(u, actions).now && Acting(u, d, n)
  {
    var c := Reached(u, actions);
    RunTimed(u, actions);
    RunIds(u, actions);
    assert NodeOk(u, c.now, c.nodes[n]) && MemoryOk(c, c.nodes[n]);
    var x := Drain(u, c, n);
    var c1 := Onward(u, c, x);
    var y := CatchUp(u, c1, n);
    ReadyActs(u, Onward(u, c1, y), n);
    more := x + y;
    OnwardAppend(u, c, x, y);
    OnwardReached(u, actions, more);
  }

  // ---------------------------------------------------------------- elected again

  /** The election makes this node master: it is chosen and eligible. */
  ghost predicate Elects(u: Setup, c: Cluster, a: Action, n: NodeId) {
    a.Elect? && Enabled(u, c, a) && a.master == n && n in c.nodes && c.nodes[n].identity.eligible
  }

  lemma ElectedNode(u: Setup, c: Cluster, a: Action, n: NodeId)
    requires Elects(u, c, a, n)
    ensures var d := Observe(u, Do(u, c, a));
            var m := Joined(u, c, c.nodes[n], Assignment(n, n, c.nodes[n].identity));
            && n in d.nodes && d.now == c.now && d.nodes[n].standing == m.standing
            && d.nodes[n].readerReady == m.readerReady
  {
    ObserveKeepsNode(u, Do(u, c, a), n);
  }

  /** After every run: a node that acts and is elected again goes on acting. */
  lemma ReelectedActs(u: Setup, actions: seq<Action>, a: Action, n: NodeId)
    requires u.wait >= 0.0 && Acting(u, Reached(u, actions), n) && Elects(u, Reached(u, actions), a, n)
    ensures Acting(u, Reached(u, actions + [a]), n)
  {
    var c := Reached(u, actions);
    ElectedNode(u, c, a, n);
    OnwardOne(u, c, a);
    OnwardReached(u, actions, [a]);
  }

  /** And one that led within the wait, but was not flagged any more, acts at once if its reader is ready. */
  lemma ReturningActs(u: Setup, actions: seq<Action>, a: Action, n: NodeId)
    requires u.wait >= 0.0 && Elects(u, Reached(u, actions), a, n)
    requires var c := Reached(u, actions); var m := c.nodes[n];
             && !m.standing.Flagged() && m.standing.areWeMaster.Some? && m.readerReady
             && m.standing.lastLed.At? && m.standing.lastLed.time + u.wait >= c.now
    ensures Acting(u, Reached(u, actions + [a]), n)
  {
    var c := Reached(u, actions);
    RunTimed(u, actions);
    assert NodeOk(u, c.now, c.nodes[n]);
    ElectedNode(u, c, a, n);
    OnwardOne(u, c, a);
    OnwardReached(u, actions, [a]);
  }

  /** A node that acts, leaves the group, and is elected again no later than the wait after that, acts at once. */
  lemma BackWithinWaitActs(u: Setup, actions: seq<Action>, n: NodeId, to: real, a: Action)
    requires u.wait >= 0.0 && Acting(u, Reached(u, actions), n)
    requires Reached(u, actions).now <= to <= Reached(u, actions).now + u.wait
    requires Enabled(u, Reached(u, actions + [Leave(n)]), Tick(to))
    requires Elects(u, Reached(u, actions + [Leave(n)] + [Tick(to)]), a, n)
    ensures Acting(u, Reached(u, actions + [Leave(n)] + [Tick(to)] + [a]), n)
  {
    var c := Reached(u, actions);
    OnwardOne(u, c, Leave(n));
    OnwardReached(u, actions, [Leave(n)]);
    ObserveKeepsNode(u, Do(u, c, Leave(n)), n);
    var b := Reached(u, actions + [Leave(n)]);
    assert b.nodes[n].standing == Left(u, c, c.nodes[n]).standing && b.nodes[n].readerReady;
    OnwardOne(u, b, Tick(to));
    OnwardReached(u, actions + [Leave(n)], [Tick(to)]);
    ObserveKeepsNode(u, Do(u, b, Tick(to)), n);
    ReturningActs(u, actions + [Leave(n)] + [Tick(to)], a, n);
  }

  /** Otherwise it waits: flagged, from the time of the election on, with a reader that has to check again. */
  lemma NewMasterWaits(u: Setup, actions: seq<Action>, a: Action, n: NodeId)
    requires u.wait >= 0.0 && Elects(u, Reached(u, actions), a, n)
    requires var c := Reached(u, actions); !Acting(u, c, n) && Stale(c.nodes[n].standing, c.now, u.wait)
    ensures var d := Reached(u, actions + [a]);
            && n in d.nodes && d.nodes[n].standing.Flagged() && d.nodes[n].standing.waiting == Since(d.now)
            && !d.nodes[n].readerReady && !Acting(u, d, n)
  {
    var c := Reached(u, actions);
    ElectedNode(u, c, a, n);
    OnwardOne(u, c, a);
    OnwardReached(u, actions, [a]);
  }

  // ---------------------------------------------------------------- from the start

  lemma FirstElection(u: Setup, n: NodeId, identity: Identity)
    requires u.wait >= 0.0 && identity.eligible
    ensures var c := Reached(u, [Start(n, identity)]); Elects(u, c, Elect([n], n), n)
    ensures var c := Reached(u, [Start(n, identity)]);
            !Acting(u, c, n) && n in c.nodes && Stale(c.nodes[n].standing, c.now, u.wait)
  {
    var a := Start(n, identity);
    var c := Reached(u, [a]);
    OnwardOne(u, NOBODY, a);
    OnwardReached(u, [], [a]);
    assert [] + [a] == [a];
    ObserveKeepsNode(u, Do(u, NOBODY, a), n);
    assert c.nodes.Keys == {n} && c.nodes[n].identity == identity;
    var m := Member(n, identity);
    assert MembersOf(c, [n]) == [m];
    BeforeTotal(u.highest, Url(identity), Url(identity));
    assert IsMaster([m], u.highest, m);
  }

  /** From an empty cluster, one eligible node gets to act. */
  lemma SomeoneActs(u: Setup, n: NodeId, identity: Identity) returns (actions: seq<Action>)
    requires u.wait >= 0.0 && identity.eligible
    ensures Acting(u, Reached(u, actions), n)
  {
    var start := [Start(n, identity)];
    FirstElection(u, n, identity);
    NewMasterWaits(u, start, Elect([n], n), n);
    var elected := start + [Elect([n], n)];
    var c := Reached(u, elected);
    var more := WaitingMasterActs(u, elected, n, c.now + u.wait + 1.0);
    actions := elected + more;
  }
}
