/** Mastership over time: at any moment at most one node acts, and a different one only after the wait. */
module ClusterTiming {
  import opened SchemaModels
  import opened Election
  import opened Mastership
  import opened Cluster

  // ---------------------------------------------------------------- the invariant

  ghost predicate NodeOk(u: Setup, now: real, n: Node) {
    var s := n.standing;
    && (n.lastAct.Some? ==> n.lastAct.value <= now)
    && (s.waiting.Since? ==> s.waiting.at <= now)
    && (s.Flagged() ==> s.joined && !s.waiting.NotElected?)
    && (s.lastLed.At? ==> n.lastAct.Some? && s.lastLed.time <= n.lastAct.value)
    && (s.lastLed.At? ==> s.waiting.Elapsed? || (s.waiting.Since? && s.lastLed.time + u.wait < s.waiting.at))
    && (n.tenure.Skipped? ==> s.waiting.Elapsed?)
  }

  /** Of two nodes: at most one is flagged master; one that still waits was elected after the other acted last;
      one that has waited is more than the wait later; and so is either of the times it led and the other acted. */
  ghost predicate PairOk(u: Setup, now: real, n: Node, m: Node) {
    var s := n.standing;
    && !(s.Flagged() && m.standing.Flagged())
    && (m.lastAct.Some? ==>
          && (s.Flagged() && s.waiting.Since? ==> m.lastAct.value <= s.waiting.at)
          && (s.Flagged() && s.waiting.Elapsed? ==> m.lastAct.value + u.wait < now)
          && (s.lastLed.At? ==> m.lastAct.value + u.wait < s.lastLed.time || s.lastLed.time + u.wait < m.lastAct.value))
  }

  ghost predicate Timed(u: Setup, c: Cluster) {
    && (forall n :: n in c.nodes ==> NodeOk(u, c.now, c.nodes[n]))
    && (forall n, m :: n in c.nodes && m in c.nodes && n != m ==> PairOk(u, c.now, c.nodes[n], c.nodes[m]))
  }

  ghost predicate Observed(u: Setup, c: Cluster) {
    forall n :: Acting(u, c, n) ==> c.nodes[n].lastAct == Some(c.now)
  }

  // ---------------------------------------------------------------- one node at a time

  lemma ObservedPairOk(u: Setup, c: Cluster, n: NodeId, m: NodeId)
    requires u.wait >= 0.0 && n in c.nodes && m in c.nodes && NodeOk(u, c.now, c.nodes[n])
    requires PairOk(u, c.now, c.nodes[n], c.nodes[m]) && PairOk(u, c.now, c.nodes[m], c.nodes[n])
    ensures PairOk(u, c.now, Observe(u, c).nodes[n], Observe(u, c).nodes[m])
  {
  }

  lemma ObserveKeeps(u: Setup, c: Cluster)
    requires u.wait >= 0.0 && Timed(u, c)
    ensures Timed(u, Observe(u, c)) && Observed(u, Observe(u, c))
  {
    var d := Observe(u, c);
    assert d.nodes.Keys == c.nodes.Keys && d.now == c.now;
    forall n | n in d.nodes ensures NodeOk(u, d.now, d.nodes[n]) {
      assert NodeOk(u, c.now, c.nodes[n]);
    }
    forall n, m | n in d.nodes && m in d.nodes && n != m ensures PairOk(u, d.now, d.nodes[n], d.nodes[m]) {
      assert PairOk(u, c.now, c.nodes[n], c.nodes[m]) && PairOk(u, c.now, c.nodes[m], c.nodes[n]);
      assert NodeOk(u, c.now, c.nodes[n]);
      ObservedPairOk(u, c, n, m);
    }
    assert forall n :: Acting(u, d, n) ==> Acting(u, c, n);
  }

  /** A change of one node that raises no flag and leaves its last act alone. */
  lemma LocalChange(u: Setup, c: Cluster, n: NodeId, node: Node)
    requires Timed(u, c) && n in c.nodes && NodeOk(u, c.now, node)
    requires node.lastAct == c.nodes[n].lastAct && (node.standing.Flagged() ==> c.nodes[n].standing.Flagged())
    requires forall m :: m in c.nodes && m != n ==> PairOk(u, c.now, node, c.nodes[m])
    ensures Timed(u, c.(nodes := c.nodes[n := node]))
  {
    var d := c.(nodes := c.nodes[n := node]);
    forall a, b | a in d.nodes && b in d.nodes && a != b ensures PairOk(u, d.now, d.nodes[a], d.nodes[b]) {
      assert PairOk(u, c.now, c.nodes[a], c.nodes[b]);
    }
  }

  lemma AskOk(u: Setup, c: Cluster, n: Node, m: Node)
    requires NodeOk(u, c.now, n) && PairOk(u, c.now, n, m)
    ensures NodeOk(u, c.now, After(n, Ask(u, c, n))) && PairOk(u, c.now, After(n, Ask(u, c, n)), m)
  {
  }

  lemma NotedOk(u: Setup, c: Cluster, n: Node, m: Node)
    requires NodeOk(u, c.now, n) && PairOk(u, c.now, n, m)
    requires Ask(u, c, n).answer ==> n.lastAct == Some(c.now)
    ensures NodeOk(u, c.now, Noted(u, c, n)) && PairOk(u, c.now, Noted(u, c, n), m)
  {
  }

  lemma NotedNodeOk(u: Setup, c: Cluster, n: Node)
    requires NodeOk(u, c.now, n)
    requires Ask(u, c, n).answer ==> n.lastAct == Some(c.now)
    ensures NodeOk(u, c.now, Noted(u, c, n))
  {
  }

  /** A node that skips the wait has none running: `_initial_election_sec` is None already. */
  lemma SkipHasWaited(u: Setup, now: real, n: Node)
    requires NodeOk(u, now, n) && !Stale(n.standing, now, u.wait)
    ensures n.standing.waiting.Elapsed?
  {
  }

  lemma JoinedOk(u: Setup, c: Cluster, n: Node, a: Assignment)
    requires u.wait >= 0.0 && NodeOk(u, c.now, n)
    requires Ask(u, c, n).answer ==> n.lastAct == Some(c.now)
    ensures NodeOk(u, c.now, Joined(u, c, n, a))
  {
    NotedNodeOk(u, c, n);
    if !Stale(Noted(u, c, n).standing, c.now, u.wait) { SkipHasWaited(u, c.now, Noted(u, c, n)); }
  }

  /** Two members of a new generation, of which at most one is the master. */
  lemma JoinedPairOk(u: Setup, c: Cluster, n: Node, m: Node, a: Assignment, b: Assignment)
    requires u.wait >= 0.0 && NodeOk(u, c.now, n) && NodeOk(u, c.now, m) && PairOk(u, c.now, n, m) &&
             !(Believes(a) && Believes(b))
    requires Ask(u, c, n).answer ==> n.lastAct == Some(c.now)
    ensures PairOk(u, c.now, Joined(u, c, n, a), Joined(u, c, m, b))
    ensures !m.standing.Flagged() ==> PairOk(u, c.now, Joined(u, c, n, a), m)
    ensures !n.standing.Flagged() ==> PairOk(u, c.now, n, Joined(u, c, m, b))
  {
    NotedOk(u, c, n, m);
    var noted := Noted(u, c, n);
    if !Stale(noted.standing, c.now, u.wait) { SkipHasWaited(u, c.now, noted); }
  }

  lemma ElectOk(u: Setup, c: Cluster, a: Action)
    requires u.wait >= 0.0 && Timed(u, c) && Observed(u, c) && a.Elect? && Enabled(u, c, a)
    ensures Timed(u, Do(u, c, a))
  {
    var d := Do(u, c, a);
    var who := c.nodes[a.master].identity;
    forall n | n in d.nodes ensures NodeOk(u, d.now, d.nodes[n]) {
      assert NodeOk(u, c.now, c.nodes[n]) && (Acting(u, c, n) ==> c.nodes[n].lastAct == Some(c.now));
      JoinedOk(u, c, c.nodes[n], Assignment(n, a.master, who));
    }
    forall n, m | n in d.nodes && m in d.nodes && n != m ensures PairOk(u, d.now, d.nodes[n], d.nodes[m]) {
      assert PairOk(u, c.now, c.nodes[n], c.nodes[m]) && (Acting(u, c, n) ==> c.nodes[n].lastAct == Some(c.now));
      assert NodeOk(u, c.now, c.nodes[n]) && NodeOk(u, c.now, c.nodes[m]);
      JoinedPairOk(u, c, c.nodes[n], c.nodes[m], Assignment(n, a.master, who), Assignment(m, a.master, who));
    }
  }

  /** Every step keeps the invariant. */
  lemma DoTimed(u: Setup, c: Cluster, a: Action)
    requires u.wait >= 0.0 && Timed(u, c) && Observed(u, c) && Enabled(u, c, a)
    ensures Timed(u, Do(u, c, a))
  {
    match a
    case Start(n, identity) =>
    case Tick(to) =>
      forall n, m | n in c.nodes && m in c.nodes && n != m ensures PairOk(u, to, c.nodes[n], c.nodes[m]) {
        assert PairOk(u, c.now, c.nodes[n], c.nodes[m]);
      }
      assert forall n :: n in c.nodes ==> NodeOk(u, c.now, c.nodes[n]);
    case Elect(_, _) => ElectOk(u, c, a);
    case Deliver(_) => assert Do(u, c, a).nodes == c.nodes && Do(u, c, a).now == c.now;
    case _ => OneNodeTimed(u, c, a);
  }

  /** The actions that change one node and neither the clock nor who acted when. */
  predicate Single(a: Action) { !a.Start? && !a.Tick? && !a.Elect? && !a.Deliver? }

  lemma OneNodeShape(u: Setup, c: Cluster, a: Action)
    requires Enabled(u, c, a) && Single(a)
    ensures a.node in c.nodes && a.node in Do(u, c, a).nodes && Do(u, c, a).now == c.now
    ensures Do(u, c, a).nodes == c.nodes[a.node := Do(u, c, a).nodes[a.node]]
    ensures Do(u, c, a).nodes[a.node].lastAct == c.nodes[a.node].lastAct
  {
  }

  lemma OneNodeOk(u: Setup, c: Cluster, a: Action)
    requires Enabled(u, c, a) && Single(a) && a.node in c.nodes && NodeOk(u, c.now, c.nodes[a.node])
    requires Acting(u, c, a.node) ==> c.nodes[a.node].lastAct == Some(c.now)
    ensures NodeOk(u, c.now, Do(u, c, a).nodes[a.node])
    ensures Do(u, c, a).nodes[a.node].standing.Flagged() ==> c.nodes[a.node].standing.Flagged()
  {
    NotedNodeOk(u, c, c.nodes[a.node]);
  }

  lemma OneNodePairOk(u: Setup, c: Cluster, a: Action, m: Node)
    requires Enabled(u, c, a) && Single(a) && a.node in c.nodes && NodeOk(u, c.now, c.nodes[a.node])
    requires Acting(u, c, a.node) ==> c.nodes[a.node].lastAct == Some(c.now)
    requires PairOk(u, c.now, c.nodes[a.node], m)
    ensures PairOk(u, c.now, Do(u, c, a).nodes[a.node], m)
  {
    AskOk(u, c, c.nodes[a.node], m);
    NotedOk(u, c, c.nodes[a.node], m);
  }

  lemma OneNodeTimed(u: Setup, c: Cluster, a: Action)
    requires u.wait >= 0.0 && Timed(u, c) && Observed(u, c) && Enabled(u, c, a) && Single(a)
    ensures Timed(u, Do(u, c, a))
  {
    OneNodeShape(u, c, a);
    var n, d := a.node, Do(u, c, a);
    assert NodeOk(u, c.now, c.nodes[n]) && (Acting(u, c, n) ==> c.nodes[n].lastAct == Some(c.now));
    OneNodeOk(u, c, a);
    forall m | m in c.nodes && m != n ensures PairOk(u, c.now, d.nodes[n], c.nodes[m]) {
      assert PairOk(u, c.now, c.nodes[n], c.nodes[m]);
      OneNodePairOk(u, c, a, c.nodes[m]);
    }
    LocalChange(u, c, n, d.nodes[n]);
    var e := c.(nodes := c.nodes[n := d.nodes[n]]);
    assert e.nodes == d.nodes && e.now == d.now;
  }

  lemma StepTimed(u: Setup, c: Cluster, a: Action)
    requires u.wait >= 0.0 && Timed(u, c) && Observed(u, c)
    ensures Timed(u, Step(u, c, a)) && Observed(u, Step(u, c, a))
  {
    if Enabled(u, c, a) {
      DoTimed(u, c, a);
      ObserveKeeps(u, Do(u, c, a));
    }
  }

  lemma {:induction false} RunTimed(u: Setup, actions: seq<Action>)
    requires u.wait >= 0.0
    ensures Timed(u, Reached(u, actions)) && Observed(u, Reached(u, actions))
  {
    if actions != [] {
      RunTimed(u, actions[..|actions| - 1]);
      StepTimed(u, Reached(u, actions[..|actions| - 1]), actions[|actions| - 1]);
    }
  }

  // ---------------------------------------------------------------- what it gives

  /** Time, and with it each node's last act, only moves forward. */
  lemma DoForward(u: Setup, c: Cluster, a: Action, n: NodeId)
    requires Enabled(u, c, a) && n in c.nodes
    ensures Do(u, c, a).now >= c.now && n in Do(u, c, a).nodes && Do(u, c, a).nodes[n].lastAct == c.nodes[n].lastAct
  {
  }

  lemma StepForward(u: Setup, c: Cluster, a: Action, n: NodeId)
    requires Timed(u, c) && n in c.nodes
    ensures var d := Step(u, c, a);
            && d.now >= c.now && n in d.nodes
            && (c.nodes[n].lastAct.Some? ==>
                 d.nodes[n].lastAct.Some? && d.nodes[n].lastAct.value >= c.nodes[n].lastAct.value)
  {
    assert NodeOk(u, c.now, c.nodes[n]);
    if Enabled(u, c, a) { DoForward(u, c, a, n); }
  }

  lemma {:induction false} LaterAct(u: Setup, actions: seq<Action>, i: nat, n: NodeId)
    requires u.wait >= 0.0 && i <= |actions| && n in Reached(u, actions[..i]).nodes
    ensures var c, d := Reached(u, actions[..i]), Reached(u, actions);
            && d.now >= c.now && n in d.nodes
            && (c.nodes[n].lastAct.Some? ==>
                 d.nodes[n].lastAct.Some? && d.nodes[n].lastAct.value >= c.nodes[n].lastAct.value)
    decreases |actions|
  {
    if i == |actions| {
      assert actions[..i] == actions;
    } else {
      var init := actions[..|actions| - 1];
      assert init[..i] == actions[..i];
      LaterAct(u, init, i, n);
      RunTimed(u, init);
      StepForward(u, Reached(u, init), actions[|actions| - 1], n);
    }
  }

  /** If two different nodes act as master, the later does so more than the wait after the earlier. */
  lemma ActingApart(u: Setup, actions: seq<Action>, i: nat, n: NodeId, m: NodeId)
    requires u.wait >= 0.0 && i <= |actions| && n != m
    requires Acting(u, Reached(u, actions[..i]), n) && Acting(u, Reached(u, actions), m)
    ensures Reached(u, actions).now > Reached(u, actions[..i]).now + u.wait
  {
    var c, d := Reached(u, actions[..i]), Reached(u, actions);
    RunTimed(u, actions[..i]);
    RunTimed(u, actions);
    LaterAct(u, actions, i, n);
    assert c.nodes[n].lastAct == Some(c.now);
    assert PairOk(u, d.now, d.nodes[m], d.nodes[n]) && NodeOk(u, d.now, d.nodes[m]);
  }

  /** After any run, a node whose mastership began without a wait has none running. */
  lemma SkipOnlyAfterWait(u: Setup, actions: seq<Action>, n: NodeId)
    requires u.wait >= 0.0 && n in Reached(u, actions).nodes
    ensures Reached(u, actions).nodes[n].tenure.Skipped? ==> Reached(u, actions).nodes[n].standing.waiting.Elapsed?
  {
    RunTimed(u, actions);
    assert NodeOk(u, Reached(u, actions).now, Reached(u, actions).nodes[n]);
  }

  /** So a master elected without a wait takes over only when no other node has acted for longer than the wait. */
  lemma SkipIsSafe(u: Setup, actions: seq<Action>, n: NodeId, m: NodeId)
    requires u.wait >= 0.0 && n in Reached(u, actions).nodes && m in Reached(u, actions).nodes && n != m
    requires Reached(u, actions).nodes[n].tenure.Skipped? && Reached(u, actions).nodes[n].standing.Flagged()
    ensures var d := Reached(u, actions);
            d.nodes[m].lastAct.Some? ==> d.nodes[m].lastAct.value + u.wait < d.now
  {
    var d := Reached(u, actions);
    SkipOnlyAfterWait(u, actions, n);
    RunTimed(u, actions);
    assert PairOk(u, d.now, d.nodes[n], d.nodes[m]);
  }
}
