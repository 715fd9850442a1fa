/** The state a node keeps about its mastership and what each event makes of it (schema_coordinator.py). */
module Mastership {
  import opened SchemaModels
  import opened Election

  /** `_initial_election_sec`: infinity, the time of the election, or None. */
  datatype Waiting = NotElected | Since(at: real) | Elapsed

  /** `_last_time_i_was_leader`: minus infinity, or a time. */
  datatype LastLed = Never | At(time: real)

  datatype Standing = Standing(areWeMaster: Option<bool>, joined: bool, waiting: Waiting, lastLed: LastLed) {
    predicate Flagged() { areWeMaster == Some(true) }
  }

  const INITIAL := Standing(Some(false), false, NotElected, Never)

  /** Outcome of a call: the new state, its answer, and whether it told the reader that it is not ready. */
  datatype Call = Call(after: Standing, answer: bool, unready: bool)

  /** `are_we_master`; `wait` is `waiting_time_before_acting_as_master_ms`. */
  function AreWeMaster(m: Standing, readerReady: bool, now: real, wait: real): Call {
    if m.areWeMaster.None? then Call(m, false, false)
    else if !m.joined || !readerReady then Call(m, false, false)
    else if m.areWeMaster.value && !m.waiting.Elapsed? then
      if m.waiting.Since? && now > m.waiting.at + wait then Call(m.(waiting := Elapsed), false, true)
      else Call(m, false, false)
    else Call(m, m.areWeMaster.value, false)
  }

  /** The check before a rejoin or on leaving: `if self.are_we_master(): self._last_time_i_was_leader = ...`. */
  function NoteLeader(m: Standing, readerReady: bool, now: real, wait: real): Call {
    var call := AreWeMaster(m, readerReady, now, wait);
    if call.answer then call.(after := call.after.(lastLed := At(now))) else call
  }

  /** Another master could have been elected since this node last led. */
  predicate Stale(m: Standing, now: real, wait: real) {
    m.lastLed.Never? || m.lastLed.time + wait < now
  }

  /** `_on_join_complete` for an assignment. */
  function OnJoinComplete(m: Standing, assignment: Assignment, now: real, wait: real): Call {
    if Believes(assignment) then
      if Stale(m, now, wait) then Call(Standing(Some(true), true, Since(now), m.lastLed), true, true)
      else Call(m.(areWeMaster := Some(true), joined := true), true, false)
    else Call(m.(areWeMaster := Some(false), joined := true), false, false)
  }

  /** `coordinator_dead` and `reset_generation`, as far as mastership goes. */
  function StepDown(m: Standing): Standing { m.(areWeMaster := Some(false)) }
}
