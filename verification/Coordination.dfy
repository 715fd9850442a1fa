/** The coordinator object, each method against the rules of `Mastership`. */
module Coordination {
  import opened SchemaModels
  import opened Election
  import opened Mastership

  /** The part of the schema reader the coordinator talks to. */
  class ReaderFlag {
    var ready: bool

    constructor () ensures !ready { ready := false; }

    method SetNotReady()
      modifies this
      ensures !ready
    {
      ready := false;
    }
  }

  const DEFAULT_GENERATION_ID := -1
  const UNKNOWN_MEMBER_ID := ""

  class SchemaCoordinator {
    const reader: ReaderFlag
    const wait: real
    var areWeMaster: Option<bool>
    var joined: bool
    var waiting: Waiting
    var lastLed: LastLed
    var masterUrl: Option<string>
    var generation: int
    var memberId: string
    var coordinatorKnown: bool
    var rejoinNeeded: bool

    function State(): Standing
      reads this
    {
      Standing(areWeMaster, joined, waiting, lastLed)
    }

    constructor (reader: ReaderFlag, wait: real)
      ensures State() == INITIAL && this.reader == reader && this.wait == wait
      ensures generation == DEFAULT_GENERATION_ID && memberId == UNKNOWN_MEMBER_ID && masterUrl == None
    {
      this.reader, this.wait := reader, wait;
      areWeMaster, joined, waiting, lastLed := Some(false), false, NotElected, Never;
      masterUrl, generation, memberId := None, DEFAULT_GENERATION_ID, UNKNOWN_MEMBER_ID;
      coordinatorKnown, rejoinNeeded := false, false;
    }

    method AreWeMaster(now: real) returns (answer: bool)
      modifies this`waiting, reader
      ensures var call := Mastership.AreWeMaster(old(State()), old(reader.ready), now, wait);
              State() == call.after && answer == call.answer && reader.ready == (old(reader.ready) && !call.unready)
      ensures answer <==> old(areWeMaster == Some(true) && joined && waiting == Elapsed && reader.ready)
      ensures var over := old(areWeMaster == Some(true) && joined && reader.ready && waiting.Since?) &&
                          now > old(waiting).at + wait;
              && waiting == (if over then Elapsed else old(waiting)) && reader.ready == (old(reader.ready) && !over)
    {
      if areWeMaster.None? {
        return false;
      }
      if !joined || !reader.ready {
        return false;
      }
      if areWeMaster.value && !waiting.Elapsed? {
        if waiting.Since? && now > waiting.at + wait {
          waiting := Elapsed;
          reader.SetNotReady();
          return false;
        }
        return false;
      }
      answer := areWeMaster.value;
    }

    /** The bookkeeping at the start of a rejoin in the coordination routine. */
    method BeforeRejoin(now: real)
      modifies this`waiting, this`lastLed, reader
      ensures var call := NoteLeader(old(State()), old(reader.ready), now, wait);
              State() == call.after && reader.ready == (old(reader.ready) && !call.unready)
      ensures lastLed == if old(areWeMaster == Some(true) && joined && waiting == Elapsed && reader.ready) then At(now)
                         else old(lastLed)
    {
      var leading := AreWeMaster(now);
      if leading {
        lastLed := At(now);
      }
    }

    /** The group leader does not know the master while it computes the assignment. */
    method PerformAssignment(members: seq<Member>, highest: bool)
      returns (assignments: seq<Assignment>, ghost master: Member)
      requires members != []
      modifies this`areWeMaster
      ensures areWeMaster == None
      ensures IsMaster(members, highest, master) && |assignments| == |members|
      ensures forall i :: 0 <= i < |members| ==> assignments[i] == Assignment(members[i].id, master.id, master.identity)
    {
      areWeMaster := None;
      assignments, master := Election.PerformAssignment(members, highest);
    }

    method OnJoinComplete(assignment: Assignment, now: real)
      requires assignment.member == memberId
      modifies this`areWeMaster, this`joined, this`waiting, this`masterUrl, reader
      ensures var call := Mastership.OnJoinComplete(old(State()), assignment, now, wait);
              State() == call.after && reader.ready == (old(reader.ready) && !call.unready)
      ensures masterUrl == if assignment.masterIdentity.eligible then Some(Url(assignment.masterIdentity)) else None
      ensures joined && areWeMaster == Some(assignment.master == memberId && assignment.masterIdentity.eligible)
      ensures var waits := areWeMaster == Some(true) && (lastLed == Never || lastLed.time < now - wait);
              && waiting == (if waits then Since(now) else old(waiting)) &&
                 reader.ready == (old(reader.ready) && !waits)
    {
      var url := Url(assignment.masterIdentity);
      if assignment.master == memberId && assignment.masterIdentity.eligible {
        masterUrl := Some(url);
        areWeMaster := Some(true);
        var neverLed := lastLed.Never?;
        if neverLed || lastLed.time + wait < now {
          reader.SetNotReady();
          waiting := Since(now);
        }
      } else if !assignment.masterIdentity.eligible {
        masterUrl := None;
        areWeMaster := Some(false);
      } else {
        masterUrl := Some(url);
        areWeMaster := Some(false);
      }
      joined := true;
    }

    method CoordinatorDead()
      modifies this`areWeMaster, this`coordinatorKnown, this`rejoinNeeded
      ensures State() == if old(coordinatorKnown) then StepDown(old(State())) else old(State())
      ensures !coordinatorKnown && rejoinNeeded == (old(rejoinNeeded) || old(coordinatorKnown))
    {
      if coordinatorKnown {
        areWeMaster := Some(false);
        coordinatorKnown := false;
        rejoinNeeded := true;
      }
    }

    method ResetGeneration()
      modifies this`areWeMaster, this`generation, this`memberId, this`rejoinNeeded
      ensures State() == StepDown(old(State())) && rejoinNeeded
      ensures generation == DEFAULT_GENERATION_ID && memberId == UNKNOWN_MEMBER_ID
    {
      areWeMaster := Some(false);
      generation := DEFAULT_GENERATION_ID;
      memberId := UNKNOWN_MEMBER_ID;
      rejoinNeeded := true;
    }

    /** The local half of `_maybe_leave_group`. */
    method LeaveGroup(now: real)
      modifies this`areWeMaster, this`waiting, this`lastLed, this`generation, this`memberId, this`rejoinNeeded, reader
      ensures var call := NoteLeader(old(State()), old(reader.ready), now, wait);
              State() == StepDown(call.after) && reader.ready == (old(reader.ready) && !call.unready)
    {
      BeforeRejoin(now);
      ResetGeneration();
    }
  }
}
