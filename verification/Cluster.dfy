/** A cluster of registry nodes over one topic, as a timed transition system: elections, waiting,
    catching up, writes by whichever node is acting, records delivered within the waiting time. */
module Cluster {
  import opened SchemaModels
  import opened Database
  import opened SchemaReader
  import opened SchemaRegistry
  import opened Election
  import opened Mastership

  type NodeId = string

  /** A record with its sender and the time it was sent. */
  datatype Sent = Sent(record: Record, sender: NodeId, at: real)

  /** How the current mastership of a node began: with a full wait, or skipping it. */
  datatype Tenure = NoTenure | Waited(elected: real) | Skipped

  /** A process: its coordinator, its memory, and its reader. `processed` counts the records handled;
      `checking` is an end offset that the reader has fetched and not yet compared with. The last three
      fields only record history: when the node last acted, its tenure, and its last end offset with its time. */
  datatype Node = Node(
    identity: Identity,
    standing: Standing,
    st: State,
    processed: nat,
    readerReady: bool,
    checking: Option<nat>,
    lastAct: Option<real>,
    tenure: Tenure,
    lastRead: Option<(real, nat)>)

  datatype Cluster = Cluster(now: real, log: seq<Sent>, inflight: seq<Sent>, nodes: map<NodeId, Node>)

  /** What stays fixed along a run: the waiting time, the election strategy, the initial global mode, and
      the verdicts of the compatibility checkers. */
  datatype Setup = Setup(wait: real, highest: bool, mode: Mode, canRead: CanRead)

  datatype Action =
    | Start(node: NodeId, identity: Identity)
    | Tick(to: real)
    | Query(node: NodeId)
    | Elect(members: seq<NodeId>, master: NodeId)
    | TryRejoin(node: NodeId)
    | LoseCoordinator(node: NodeId)
    | Leave(node: NodeId)
    | ReadEnd(node: NodeId)
    | SetReady(node: NodeId)
    | Consume(node: NodeId)
    | Write(node: NodeId, request: Request)
    | Deliver(index: nat)

  function Ask(u: Setup, c: Cluster, n: Node): Call { AreWeMaster(n.standing, n.readerReady, c.now, u.wait) }

  /** `are_we_master()` would answer True now. */
  predicate Acting(u: Setup, c: Cluster, n: NodeId) {
    n in c.nodes && Ask(u, c, c.nodes[n]).answer
  }

  // ---------------------------------------------------------------- the steps

  function After(n: Node, call: Call): Node {
    n.(standing := call.after, readerReady := n.readerReady && !call.unready)
  }

  function Noted(u: Setup, c: Cluster, n: Node): Node {
    After(n, NoteLeader(n.standing, n.readerReady, c.now, u.wait))
  }

  /** Leaving the group: note the time if leading, then step down. */
  function Left(u: Setup, c: Cluster, n: Node): Node {
    var noted := Noted(u, c, n);
    noted.(standing := StepDown(noted.standing), tenure := NoTenure)
  }

  /** One generation change at one member: the bookkeeping before the rejoin, then the assignment. */
  function Joined(u: Setup, c: Cluster, n: Node, assignment: Assignment): Node {
    var noted := Noted(u, c, n);
    var joined := After(noted, OnJoinComplete(noted.standing, assignment, c.now, u.wait));
    joined.(tenure := if !Believes(assignment) then NoTenure
                      else if Stale(noted.standing, c.now, u.wait) then Waited(c.now) else Skipped)
  }

  function MembersOf(c: Cluster, ids: seq<NodeId>): seq<Member>
    requires forall i :: 0 <= i < |ids| ==> ids[i] in c.nodes
  {
    seq(|ids|, i requires 0 <= i < |ids| => Member(ids[i], c.nodes[ids[i]].identity))
  }

  function SentBy(rs: seq<Record>, n: NodeId, at: real): seq<Sent> {
    seq(|rs|, i requires 0 <= i < |rs| => Sent(rs[i], n, at))
  }

  ghost predicate Enabled(u: Setup, c: Cluster, a: Action) {
    match a
    case Start(n, _) => n !in c.nodes
    case Tick(to) => to >= c.now && forall i :: 0 <= i < |c.inflight| ==> to <= c.inflight[i].at + u.wait
    case Query(n) => n in c.nodes
    case Elect(ids, master) =>
      && (forall i :: 0 <= i < |ids| ==> ids[i] in c.nodes)
      && (forall i, j :: 0 <= i < j < |ids| ==> ids[i] != ids[j])
      && master in ids
      && IsMaster(MembersOf(c, ids), u.highest, Member(master, c.nodes[master].identity))
      && (forall n :: n in c.nodes && n !in ids ==> !c.nodes[n].standing.Flagged())
    case TryRejoin(n) => n in c.nodes
    case LoseCoordinator(n) => n in c.nodes
    case Leave(n) => n in c.nodes
    case ReadEnd(n) => n in c.nodes && !c.nodes[n].readerReady && c.nodes[n].checking.None?
    case SetReady(n) => n in c.nodes && c.nodes[n].checking.Some?
    case Consume(n) => n in c.nodes && c.nodes[n].processed < |c.log| && c.nodes[n].checking.None?
    case Write(n, _) => Acting(u, c, n)
    case Deliver(i) => i < |c.inflight|
  }

  function Fresh(u: Setup, identity: Identity): Node {
    Node(identity, Mastership.INITIAL, State(EMPTY, 0, u.mode), 0, false, None, None, NoTenure, None)
  }

  ghost function Do(u: Setup, c: Cluster, a: Action): Cluster
    requires Enabled(u, c, a)
  {
    match a
    case Start(n, identity) => c.(nodes := c.nodes[n := Fresh(u, identity)])
    case Tick(to) => c.(now := to)
    case Query(n) => c.(nodes := c.nodes[n := After(c.nodes[n], Ask(u, c, c.nodes[n]))])
    case Elect(ids, master) =>
      c.(nodes := map n | n in c.nodes ::
           if n in ids then Joined(u, c, c.nodes[n], Assignment(n, master, c.nodes[master].identity)) else c.nodes[n])
    case TryRejoin(n) => c.(nodes := c.nodes[n := Noted(u, c, c.nodes[n])])
    case LoseCoordinator(n) =>
      c.(nodes := c.nodes[n := c.nodes[n].(standing := StepDown(c.nodes[n].standing), tenure := NoTenure)])
    case Leave(n) => c.(nodes := c.nodes[n := Left(u, c, c.nodes[n])])
    case ReadEnd(n) =>
      c.(nodes := c.nodes[n := c.nodes[n].(checking := Some(|c.log|), lastRead := Some((c.now, |c.log|)))])
    case SetReady(n) =>
      var node := c.nodes[n];
      c.(nodes := c.nodes[n := node.(readerReady := node.processed >= node.checking.value, checking := None)])
    case Consume(n) =>
      var node := c.nodes[n];
      c.(nodes := c.nodes[n := node.(st := HandleMsg(node.st, c.log[node.processed].record),
        processed := node.processed + 1)])
    case Write(n, request) =>
      var plan := PlanOf(u.canRead, c.nodes[n].st, request);
      c.(nodes := c.nodes[n := c.nodes[n].(st := c.nodes[n].st.(counter := plan.counter))],
         inflight := c.inflight + SentBy(plan.records, n, c.now))
    case Deliver(i) =>
      c.(log := c.log + [c.inflight[i]], inflight := c.inflight[..i] + c.inflight[i + 1..])
  }

  /** Notes the time for every node that acts. */
  function Observe(u: Setup, c: Cluster): Cluster {
    c.(nodes := map n | n in c.nodes :: if Acting(u, c, n) then c.nodes[n].(lastAct := Some(c.now)) else c.nodes[n])
  }

  /** One step; an action that is not enabled changes nothing. */
  ghost function Step(u: Setup, c: Cluster, a: Action): Cluster {
    if Enabled(u, c, a) then Observe(u, Do(u, c, a)) else c
  }

  const NOBODY := Cluster(0.0, [], [], map[])

  /** A run, from a cluster without nodes and an empty topic. */
  ghost function Reached(u: Setup, actions: seq<Action>): Cluster {
    if actions == [] then NOBODY
    else Step(u, Reached(u, actions[..|actions| - 1]), actions[|actions| - 1])
  }
}
