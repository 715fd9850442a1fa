/** The reader's loop over delivered messages and the offset watcher a sender waits on: when a send
    returns, what has the local handler seen? */
module ReadYourWrites {
  import opened JsonValues
  import opened SchemaModels

  type Object = map<string, Json>

  /** What `consume_messages` can make of a message.
      `Failure`: a Kafka error in its place.
      `KeyUndecodable`, `ValueUndecodable`: decoding raises an error the loop does not catch, as for bytes in no
      Unicode encoding.
      `KeyNotObject`: the key is JSON and no object.
      `ValueNotJson`: the value is not JSON, or is neither an object nor null nor the empty string. */
  datatype Body =
    | Failure(authorization: bool)
    | Placeholder
    | KeyMissing
    | KeyUndecodable
    | KeyNotJson
    | KeyNotObject
    | ValueUndecodable
    | ValueNotJson
    | Message(key: Object, value: Option<Object>)
  {
    /** The loop moves the offset for it. */
    predicate Moves() { !(Failure? || KeyUndecodable? || KeyNotObject? || ValueUndecodable?) }
  }

  datatype Delivery = Delivery(offset: nat, body: Body)

  /** `Refused`: one of the errors the loop catches; `Raised`: any other. */
  datatype Verdict = Accepted | Refused | Raised

  datatype Outcome<S> = Outcome(state: S, verdict: Verdict)

  /** `handle_msg` on whatever state it keeps; it may have changed that state before it raises. */
  type Handler<!S> = (S, Object, Option<Object>) -> Outcome<S>

  /** A message, and whether the reader is ready and the batch watched when the lock is taken after it. */
  datatype Turn = Turn(msg: Delivery, watched: bool)

  /** `dealt` lists the messages that moved the offset. */
  datatype Reader<S> = Reader(state: S, offset: int, greatest: int, dealt: seq<Delivery>)

  /** How a turn ends: with the next message, with an exception that drops the rest of the batch, or with
      a shutdown. */
  datatype Fate = Next | Cut | Stop

  const UNSEEN: int := -1

  // ---------------------------------------------------------------- one turn

  function StateAfter<S>(handle: Handler<S>, s: S, m: Delivery): S {
    if m.body.Message? then handle(s, m.body.key, m.body.value).state else s
  }

  function FateOf<S>(handle: Handler<S>, strict: bool, s: S, m: Delivery): Fate {
    match m.body
    case Failure(authorization) => if !authorization then Cut else if strict then Stop else Next
    case KeyUndecodable | KeyNotObject | ValueUndecodable => Cut
    case Placeholder => Next
    case KeyMissing | KeyNotJson | ValueNotJson => if strict then Stop else Next
    case Message(key, value) =>
      match handle(s, key, value).verdict
      case Accepted => Next
      case Refused => if strict then Stop else Next
      case Raised => Cut
  }

  /** The handler accepts the message while its offset is watched. */
  predicate Advances<S>(handle: Handler<S>, s: S, t: Turn) {
    t.watched && t.msg.body.Message? && handle(s, t.msg.body.key, t.msg.body.value).verdict.Accepted?
  }

  function Take<S>(handle: Handler<S>, r: Reader<S>, t: Turn): Reader<S> {
    if !t.msg.body.Moves() then r
    else
      Reader(StateAfter(handle, r.state, t.msg), t.msg.offset,
             if Advances(handle, r.state, t) && r.greatest < t.msg.offset then t.msg.offset else r.greatest,
             r.dealt + [t.msg])
  }

  // ---------------------------------------------------------------- batches

  type Batch = seq<Turn>

  /** `consume_messages` */
  function Consume<S>(handle: Handler<S>, strict: bool, r: Reader<S>, b: Batch): (Reader<S>, Fate)
    decreases |b|
  {
    if b == [] then (r, Next)
    else
      var fate := FateOf(handle, strict, r.state, b[0].msg);
      if fate != Next then (Take(handle, r, b[0]), fate) else Consume(handle, strict, Take(handle, r, b[0]), b[1..])
  }

  /** Batch after batch until a shutdown; after any other exception the reader goes on with the next batch.
      Also, whether it is still running. */
  function Loop<S>(handle: Handler<S>, strict: bool, r: Reader<S>, batches: seq<Batch>): (Reader<S>, bool)
    decreases |batches|
  {
    if batches == [] then (r, true)
    else
      var (d, fate) := Consume(handle, strict, r, batches[0]);
      if fate == Stop then (d, false) else Loop(handle, strict, d, batches[1..])
  }

  // ---------------------------------------------------------------- what was delivered

  /** The messages that are not errors, which alone have an offset. */
  function Delivered(b: Batch): seq<Delivery> {
    if b == [] then [] else (if b[0].msg.body.Failure? then [] else [b[0].msg]) + Delivered(b[1..])
  }

  function AllDelivered(batches: seq<Batch>): seq<Delivery> {
    if batches == [] then [] else Delivered(batches[0]) + AllDelivered(batches[1..])
  }

  ghost predicate Rising(ds: seq<Delivery>) { forall i, j :: 0 <= i < j < |ds| ==> ds[i].offset < ds[j].offset }

  /** Ends the batch for every reader. */
  predicate Fatal<S>(handle: Handler<S>, s: S, m: Delivery) {
    || m.body == Failure(false) || m.body in {KeyUndecodable, KeyNotObject, ValueUndecodable}
    || (m.body.Message? && handle(s, m.body.key, m.body.value).verdict == Raised)
  }

  /** Shuts a strict reader down, and is passed over by any other. */
  predicate Improper<S>(handle: Handler<S>, s: S, m: Delivery) {
    || m.body == Failure(true) || m.body in {KeyMissing, KeyNotJson, ValueNotJson}
    || (m.body.Message? && handle(s, m.body.key, m.body.value).verdict == Refused)
  }

  /** No message of the batch ends it, when it comes in the state that the ones before have left. */
  predicate Survives<S>(handle: Handler<S>, strict: bool, s: S, b: Batch)
    decreases |b|
  {
    b == [] || (&& !Fatal(handle, s, b[0].msg) && !(strict && Improper(handle, s, b[0].msg))
                && Survives(handle, strict, StateAfter(handle, s, b[0].msg), b[1..]))
  }

  /** The loop comes to the end of a batch exactly when no message ends it, and has then dealt with every message that
      is not an error. Only a strict reader is ever shut down. */
  lemma {:induction false} BatchFinishedIff<S>(handle: Handler<S>, strict: bool, r: Reader<S>, b: Batch)
    ensures var (d, fate) := Consume(handle, strict, r, b);
            && (fate == Next <==> Survives(handle, strict, r.state, b))
            && (fate == Next ==> d.dealt == r.dealt + Delivered(b))
            && (fate == Stop ==> strict)
    decreases |b|
  {
    if b != [] && FateOf(handle, strict, r.state, b[0].msg) == Next {
      BatchFinishedIff(handle, strict, Take(handle, r, b[0]), b[1..]);
    }
  }

  /** The state after handing these messages to the handler in turn. */
  function Folded<S>(handle: Handler<S>, state: S, ds: seq<Delivery>): S {
    if ds == [] then state else StateAfter(handle, Folded(handle, state, ds[..|ds| - 1]), ds[|ds| - 1])
  }

  // ---------------------------------------------------------------- along a run

  ghost predicate Among(offset: int, ds: seq<Delivery>) { exists i :: 0 <= i < |ds| && ds[i].offset == offset }

  /** The state is that of the messages dealt with; the offset is the last of theirs; the greatest one seen
      is among them. */
  ghost predicate Sound<S>(handle: Handler<S>, start: S, r: Reader<S>) {
    && r.state == Folded(handle, start, r.dealt)
    && (r.dealt != [] ==> r.offset == r.dealt[|r.dealt| - 1].offset)
    && (r.greatest == UNSEEN || Among(r.greatest, r.dealt))
  }

  ghost predicate Grown<S>(r: Reader<S>, d: Reader<S>) { r.greatest <= d.greatest && r.dealt <= d.dealt }

  lemma AmongSnoc(offset: int, ds: seq<Delivery>, m: Delivery)
    ensures Among(offset, ds) || offset == m.offset ==> Among(offset, ds + [m])
  {
    if i :| 0 <= i < |ds| && ds[i].offset == offset { assert (ds + [m])[i] == ds[i]; }
    assert (ds + [m])[|ds|] == m;
  }

  lemma TakeSound<S>(handle: Handler<S>, start: S, r: Reader<S>, t: Turn)
    requires Sound(handle, start, r)
    ensures Sound(handle, start, Take(handle, r, t)) && Grown(r, Take(handle, r, t))
  {
    AmongSnoc(Take(handle, r, t).greatest, r.dealt, t.msg);
    assert (r.dealt + [t.msg])[..|r.dealt|] == r.dealt;
  }

  lemma {:induction false} ConsumeSound<S>(handle: Handler<S>, strict: bool, start: S, r: Reader<S>, b: Batch)
    requires Sound(handle, start, r)
    ensures Sound(handle, start, Consume(handle, strict, r, b).0) && Grown(r, Consume(handle, strict, r, b).0)
    decreases |b|
  {
    if b != [] {
      TakeSound(handle, start, r, b[0]);
      if FateOf(handle, strict, r.state, b[0].msg) == Next {
        ConsumeSound(handle, strict, start, Take(handle, r, b[0]), b[1..]);
      }
    }
  }

  /** Along every run the state is that of the messages dealt with, the greatest offset never decreases, and
      it is one of theirs. */
  lemma {:induction false} LoopSound<S>(handle: Handler<S>, strict: bool, start: S, r: Reader<S>, batches: seq<Batch>)
    requires Sound(handle, start, r)
    ensures Sound(handle, start, Loop(handle, strict, r, batches).0) && Grown(r, Loop(handle, strict, r, batches).0)
    decreases |batches|
  {
    if batches != [] {
      var (d, fate) := Consume(handle, strict, r, batches[0]);
      ConsumeSound(handle, strict, start, r, batches[0]);
      if fate != Stop { LoopSound(handle, strict, start, d, batches[1..]); }
    }
  }

  // ---------------------------------------------------------------- a batch, told by its state alone

  /** State and fate when the batch ends. */
  function Ended<S>(handle: Handler<S>, strict: bool, s: S, b: Batch): (S, Fate) {
    if b == [] then (s, Next)
    else
      var fate, next := FateOf(handle, strict, s, b[0].msg), StateAfter(handle, s, b[0].msg);
      if fate != Next then (next, fate) else Ended(handle, strict, next, b[1..])
  }

  /** What an exception drops of the batch. */
  function Dropped<S>(handle: Handler<S>, strict: bool, s: S, b: Batch): Batch {
    if b == [] then []
    else if FateOf(handle, strict, s, b[0].msg) != Next then b[1..]
    else Dropped(handle, strict, StateAfter(handle, s, b[0].msg), b[1..])
  }

  /** The batch raises the watcher: a message before any exception is accepted while watched. */
  predicate BatchAdvances<S>(handle: Handler<S>, strict: bool, s: S, b: Batch) {
    b != [] &&
    (Advances(handle, s, b[0]) ||
     (FateOf(handle, strict, s, b[0].msg) == Next &&
       BatchAdvances(handle, strict, StateAfter(handle, s, b[0].msg), b[1..])))
  }

  /** One of these batches does, before a shutdown. */
  predicate LaterAdvances<S>(handle: Handler<S>, strict: bool, s: S, batches: seq<Batch>) {
    batches != [] &&
    (BatchAdvances(handle, strict, s, batches[0]) ||
     (Ended(handle, strict, s, batches[0]).1 != Stop &&
      LaterAdvances(handle, strict, Ended(handle, strict, s, batches[0]).0, batches[1..])))
  }

  /** A message for the handler is among those dropped. */
  ghost predicate LosesMessage<S>(handle: Handler<S>, strict: bool, s: S, b: Batch) {
    exists m :: m in Delivered(Dropped(handle, strict, s, b)) && m.body.Message?
  }

  /** Once an exception has dropped a message for the handler, no later batch raises the watcher. */
  ghost predicate NoneOvertaken<S>(handle: Handler<S>, strict: bool, s: S, batches: seq<Batch>) {
    batches != [] ==>
      var (next, fate) := Ended(handle, strict, s, batches[0]);
      fate != Stop ==>
        && (LosesMessage(handle, strict, s, batches[0]) ==> !LaterAdvances(handle, strict, next, batches[1..]))
        && NoneOvertaken(handle, strict, next, batches[1..])
  }

  // ---------------------------------------------------------------- what a batch does to the reader

  /** From `r` to `d` over the messages `seen`: all messages for the handler among them were dealt with and
      nothing else; the watcher moved exactly if `advanced`, to the offset of one of them. */
  ghost predicate Went<S>(r: Reader<S>, d: Reader<S>, seen: seq<Delivery>, advanced: bool) {
    && (forall m :: m in seen && m.body.Message? ==> m in d.dealt)
    && (forall m :: m in d.dealt ==> m in r.dealt || m in seen)
    && (forall m :: m in r.dealt ==> m in d.dealt)
    && r.greatest <= d.greatest
    && (d.greatest == r.greatest || exists m :: m in seen && m.offset == d.greatest)
    && (advanced ==> exists m :: m in seen && m.offset <= d.greatest)
    && (!advanced ==> d.greatest == r.greatest)
  }

  lemma WentOn<S>(r: Reader<S>, mid: Reader<S>, d: Reader<S>, a: seq<Delivery>, b: seq<Delivery>, x: bool, y: bool)
    requires Went(r, mid, a, x) && Went(mid, d, b, y)
    ensures Went(r, d, a + b, x || y)
  {
    if d.greatest != r.greatest {
      if d.greatest == mid.greatest {
        var m :| m in a && m.offset == mid.greatest;
        assert m in a + b;
      } else {
        var m :| m in b && m.offset == d.greatest;
        assert m in a + b;
      }
    }
    if x {
      var m :| m in a && m.offset <= mid.greatest;
      assert m in a + b;
    } else if y {
      var m :| m in b && m.offset <= d.greatest;
      assert m in a + b;
    }
  }

  function One(t: Turn): seq<Delivery> { if t.msg.body.Failure? then [] else [t.msg] }

  lemma TakeWent<S>(handle: Handler<S>, r: Reader<S>, t: Turn)
    ensures Went(r, Take(handle, r, t), One(t), Advances(handle, r.state, t))
    ensures Take(handle, r, t).state == StateAfter(handle, r.state, t.msg)
  {
    assert t.msg in [t.msg];
    assert t.msg in r.dealt + [t.msg];
  }

  /** The part of a batch that the loop turns to. */
  function Turned<S>(handle: Handler<S>, strict: bool, s: S, b: Batch): seq<Delivery> {
    if b == [] then []
    else if FateOf(handle, strict, s, b[0].msg) != Next then One(b[0])
    else One(b[0]) + Turned(handle, strict, StateAfter(handle, s, b[0].msg), b[1..])
  }

  lemma {:induction false} ConsumeWent<S>(handle: Handler<S>, strict: bool, r: Reader<S>, b: Batch)
    ensures var (d, fate) := Consume(handle, strict, r, b);
            && (d.state, fate) == Ended(handle, strict, r.state, b)
            && Went(r, d, Turned(handle, strict, r.state, b), BatchAdvances(handle, strict, r.state, b))
    decreases |b|
  {
    if b != [] {
      var mid := Take(handle, r, b[0]);
      TakeWent(handle, r, b[0]);
      if FateOf(handle, strict, r.state, b[0].msg) == Next {
        ConsumeWent(handle, strict, mid, b[1..]);
        WentOn(r, mid, Consume(handle, strict, mid, b[1..]).0, One(b[0]), Turned(handle, strict, mid.state, b[1..]),
               Advances(handle, r.state, b[0]), BatchAdvances(handle, strict, mid.state, b[1..]));
      }
    }
  }

  lemma {:induction false} TurnedOrDropped<S>(handle: Handler<S>, strict: bool, s: S, b: Batch)
    ensures Delivered(b) == Turned(handle, strict, s, b) + Delivered(Dropped(handle, strict, s, b))
    decreases |b|
  {
    if b != [] && FateOf(handle, strict, s, b[0].msg) == Next {
      TurnedOrDropped(handle, strict, StateAfter(handle, s, b[0].msg), b[1..]);
    }
  }

  // ---------------------------------------------------------------- what a run does to the reader

  function AllTurned<S>(handle: Handler<S>, strict: bool, s: S, batches: seq<Batch>): seq<Delivery> {
    if batches == [] then []
    else
      var (next, fate) := Ended(handle, strict, s, batches[0]);
      Turned(handle, strict, s, batches[0]) + if fate == Stop then [] else AllTurned(handle, strict, next, batches[1..])
  }

  lemma {:induction false} LoopWent<S>(handle: Handler<S>, strict: bool, r: Reader<S>, batches: seq<Batch>)
    ensures Went(r, Loop(handle, strict, r, batches).0, AllTurned(handle, strict, r.state, batches),
                 LaterAdvances(handle, strict, r.state, batches))
    decreases |batches|
  {
    if batches != [] {
      var (mid, fate) := Consume(handle, strict, r, batches[0]);
      var turned := Turned(handle, strict, r.state, batches[0]);
      ConsumeWent(handle, strict, r, batches[0]);
      if fate == Stop {
        assert turned + [] == turned;
      } else {
        LoopWent(handle, strict, mid, batches[1..]);
        WentOn(r, mid, Loop(handle, strict, mid, batches[1..]).0, turned,
          AllTurned(handle, strict, mid.state, batches[1..]),
               BatchAdvances(handle, strict, r.state, batches[0]),
                 LaterAdvances(handle, strict, mid.state, batches[1..]));
      }
    }
  }

  lemma {:induction false} TurnedIsDelivered<S>(handle: Handler<S>, strict: bool, s: S, batches: seq<Batch>,
                                                m: Delivery)
    requires m in AllTurned(handle, strict, s, batches)
    ensures m in AllDelivered(batches)
    decreases |batches|
  {
    var (next, fate) := Ended(handle, strict, s, batches[0]);
    TurnedOrDropped(handle, strict, s, batches[0]);
    if m !in Turned(handle, strict, s, batches[0]) { TurnedIsDelivered(handle, strict, next, batches[1..], m); }
  }

  // ---------------------------------------------------------------- read your writes

  lemma RisingParts(a: seq<Delivery>, b: seq<Delivery>)
    requires Rising(a + b)
    ensures Rising(a) && Rising(b)
    ensures forall x, y :: x in a && y in b ==> x.offset < y.offset
  {
    assert forall i :: 0 <= i < |a| ==> a[i] == (a + b)[i];
    assert forall i :: 0 <= i < |b| ==> b[i] == (a + b)[|a| + i];
    forall x, y | x in a && y in b ensures x.offset < y.offset {
      var i :| 0 <= i < |a| && a[i] == x;
      var j :| 0 <= j < |b| && b[j] == y;
      assert (a + b)[i].offset < (a + b)[|a| + j].offset;
    }
  }

  /** Everything in `ds` is still to come. */
  ghost predicate Ahead<S>(r: Reader<S>, ds: seq<Delivery>) {
    && (forall m :: m in ds ==> r.greatest < m.offset)
    && (forall x, m :: x in r.dealt && m in ds ==> x.offset < m.offset)
  }

  /** Every message for the handler that was delivered at an offset the watcher has reached was dealt with. */
  ghost predicate CaughtUp<S>(d: Reader<S>, ds: seq<Delivery>) {
    forall m :: m in ds && m.body.Message? && m.offset <= d.greatest ==> m in d.dealt
  }

  /** After one batch, `dropped` of which was not turned to. */
  lemma BatchCaughtUp<S>(r: Reader<S>, d: Reader<S>, turned: seq<Delivery>, dropped: seq<Delivery>,
                         later: seq<Delivery>, x: bool)
    requires Rising((turned + dropped) + later) && Ahead(r, (turned + dropped) + later) && Went(r, d, turned, x)
    ensures Ahead(d, later) && Ahead(d, dropped)
    ensures CaughtUp(d, turned + dropped)
  {
    RisingParts(turned + dropped, later);
    RisingParts(turned, dropped);
    assert forall m :: m in later ==> m in (turned + dropped) + later;
    assert forall m :: m in dropped ==> m in (turned + dropped) + later;
    assert forall m :: m in turned ==> m in turned + dropped;
    assert forall m :: m in turned + dropped ==> m in turned || m in dropped;
  }

  /** After later batches as well: the earlier one stays caught up exactly when it lost nothing or the
      watcher did not move on. */
  lemma StaysCaughtUp<S>(d: Reader<S>, e: Reader<S>, turned: seq<Delivery>, dropped: seq<Delivery>,
                         later: seq<Delivery>,
                         seen: seq<Delivery>, y: bool)
    requires Rising((turned + dropped) + later) && Ahead(d, dropped) &&
             (forall m :: m in turned && m.body.Message? ==> m in d.dealt)
    requires Went(d, e, seen, y) && forall m :: m in seen ==> m in later
    ensures CaughtUp(e, turned + dropped) <==> ((exists m :: m in dropped && m.body.Message?) ==> !y)
  {
    RisingParts(turned + dropped, later);
    assert forall m :: m in dropped ==> m in turned + dropped;
    assert forall m :: m in turned + dropped ==> m in turned || m in dropped;
    if m :| m in dropped && m.body.Message? {
      if y {
        var g :| g in seen && g.offset <= e.greatest;
        assert m.offset < g.offset;
        assert m !in d.dealt && m !in later;
        assert !CaughtUp(e, turned + dropped);
      }
    }
  }

  /** Kafka delivers in rising offset order. For every handler, every state it starts from, in either mode and
      whatever is watched: all messages for the handler at offsets the watcher has reached have been dealt with
      if and only if no batch raises the watcher after an exception has dropped one. */
  lemma {:induction false} CaughtUpIff<S>(handle: Handler<S>, strict: bool, r: Reader<S>, batches: seq<Batch>)
    requires Rising(AllDelivered(batches)) && Ahead(r, AllDelivered(batches))
    ensures CaughtUp(Loop(handle, strict, r, batches).0, AllDelivered(batches)) <==>
              NoneOvertaken(handle, strict, r.state, batches)
    decreases |batches|
  {
    if batches != [] {
      var first, rest := batches[0], batches[1..];
      var (mid, fate) := Consume(handle, strict, r, first);
      var turned, dropped := Turned(handle, strict, r.state, first), Delivered(Dropped(handle, strict, r.state, first));
      var later := AllDelivered(rest);
      ConsumeWent(handle, strict, r, first);
      TurnedOrDropped(handle, strict, r.state, first);
      assert AllDelivered(batches) == (turned + dropped) + later;
      BatchCaughtUp(r, mid, turned, dropped, later, BatchAdvances(handle, strict, r.state, first));
      CaughtUpParts(Loop(handle, strict, r, batches).0, turned + dropped, later);
      if fate == Stop {
        assert CaughtUp(mid, later);
      } else {
        RisingParts(turned + dropped, later);
        CaughtUpIff(handle, strict, mid, rest);
        LaterBatches(handle, strict, mid, turned, dropped, rest);
      }
    }
  }

  lemma CaughtUpParts<S>(d: Reader<S>, a: seq<Delivery>, b: seq<Delivery>)
    ensures CaughtUp(d, a + b) <==> CaughtUp(d, a) && CaughtUp(d, b)
  {
    assert forall m :: m in a + b <==> m in a || m in b;
  }

  lemma LaterBatches<S>(handle: Handler<S>, strict: bool, d: Reader<S>, turned: seq<Delivery>, dropped: seq<Delivery>,
                        rest: seq<Batch>)
    requires Rising((turned + dropped) + AllDelivered(rest)) && Ahead(d, dropped)
    requires forall m :: m in turned && m.body.Message? ==> m in d.dealt
    ensures CaughtUp(Loop(handle, strict, d, rest).0, turned + dropped) <==>
            ((exists m :: m in dropped && m.body.Message?) ==> !LaterAdvances(handle, strict, d.state, rest))
  {
    var seen := AllTurned(handle, strict, d.state, rest);
    LoopWent(handle, strict, d, rest);
    forall m | m in seen ensures m in AllDelivered(rest) { TurnedIsDelivered(handle, strict, d.state, rest, m); }
    StaysCaughtUp(d, Loop(handle, strict, d, rest).0, turned, dropped, AllDelivered(rest), seen,
      LaterAdvances(handle, strict, d.state, rest));
  }

  function Fresh<S>(start: S, offset: int): Reader<S> { Reader(start, offset, UNSEEN, []) }

  /** The same from the start of the reader: when a send of offset `o` returns, the watcher having reached `o`,
      its record and all before it have been handed to the handler, if and only if nothing was overtaken. */
  lemma SendReturnsHandledIff<S>(handle: Handler<S>, strict: bool, start: S, offset: int, batches: seq<Batch>)
    requires Rising(AllDelivered(batches))
    ensures CaughtUp(Loop(handle, strict, Fresh(start, offset), batches).0, AllDelivered(batches)) <==>
            NoneOvertaken(handle, strict, start, batches)
  {
    CaughtUpIff(handle, strict, Fresh(start, offset), batches);
  }

  /** In that case the state a sender finds is that of the handler after every message dealt with, its own
      among them. */
  lemma SendReturnsHandled<S>(handle: Handler<S>, strict: bool, start: S, offset: int, batches: seq<Batch>, m: Delivery)
    requires Rising(AllDelivered(batches)) && NoneOvertaken(handle, strict, start, batches)
    requires m in AllDelivered(batches) && m.body.Message?
    requires m.offset <= Loop(handle, strict, Fresh(start, offset), batches).0.greatest
    ensures var d := Loop(handle, strict, Fresh(start, offset), batches).0;
            m in d.dealt && d.state == Folded(handle, start, d.dealt)
  {
    SendReturnsHandledIff(handle, strict, start, offset, batches);
    LoopSound(handle, strict, start, Fresh(start, offset), batches);
  }

  // ---------------------------------------------------------------- the watcher and the reader's offset

  ghost predicate Behind<S>(r: Reader<S>) { r.greatest == UNSEEN || r.greatest <= r.offset }

  lemma {:induction false} ConsumeBehind<S>(handle: Handler<S>, strict: bool, r: Reader<S>, b: Batch)
    requires Rising(Delivered(b)) && Ahead(r, Delivered(b)) && Behind(r)
    ensures Behind(Consume(handle, strict, r, b).0)
    decreases |b|
  {
    if b != [] {
      var mid, one, rest := Take(handle, r, b[0]), One(b[0]), Delivered(b[1..]);
      assert (one + []) + rest == Delivered(b);
      TakeWent(handle, r, b[0]);
      BatchCaughtUp(r, mid, one, [], rest, Advances(handle, r.state, b[0]));
      assert b[0].msg.body.Moves() ==> b[0].msg in Delivered(b);
      RisingParts(one, rest);
      if FateOf(handle, strict, r.state, b[0].msg) == Next { ConsumeBehind(handle, strict, mid, b[1..]); }
    }
  }

  lemma {:induction false} LoopBehind<S>(handle: Handler<S>, strict: bool, r: Reader<S>, batches: seq<Batch>)
    requires Rising(AllDelivered(batches)) && Ahead(r, AllDelivered(batches)) && Behind(r)
    ensures Behind(Loop(handle, strict, r, batches).0)
    decreases |batches|
  {
    if batches != [] {
      var first, later := batches[0], AllDelivered(batches[1..]);
      var (mid, fate) := Consume(handle, strict, r, first);
      var turned, dropped := Turned(handle, strict, r.state, first), Delivered(Dropped(handle, strict, r.state, first));
      ConsumeWent(handle, strict, r, first);
      TurnedOrDropped(handle, strict, r.state, first);
      BatchCaughtUp(r, mid, turned, dropped, later, BatchAdvances(handle, strict, r.state, first));
      RisingParts(Delivered(first), later);
      assert forall m :: m in Delivered(first) ==> m in AllDelivered(batches);
      ConsumeBehind(handle, strict, r, first);
      if fate != Stop { LoopBehind(handle, strict, mid, batches[1..]); }
    }
  }

  /** Along every run with rising offsets the watcher's greatest offset is -1 or at most the reader's. */
  lemma WatcherBehindReader<S>(handle: Handler<S>, strict: bool, start: S, offset: int, batches: seq<Batch>)
    requires Rising(AllDelivered(batches))
    ensures Behind(Loop(handle, strict, Fresh(start, offset), batches).0)
  {
    LoopBehind(handle, strict, Fresh(start, offset), batches);
  }

  // ---------------------------------------------------------------- runs in which a record is missed

  /** `bad` at offset 0 and a message at offset 1 in one batch, then a message at offset 2. */
  function TwoBatches(bad: Body, first: Body, second: Body): seq<Batch> {
    [[Turn(Delivery(0, bad), true), Turn(Delivery(1, first), true)], [Turn(Delivery(2, second), true)]]
  }

  lemma TwoDelivered(bad: Body, first: Body, second: Body)
    requires first.Message? && second.Message?
    ensures Rising(AllDelivered(TwoBatches(bad, first, second)))
    ensures Delivery(1, first) in AllDelivered(TwoBatches(bad, first, second))
  {
    var batches := TwoBatches(bad, first, second);
    var b, c := batches[0], batches[1];
    assert b[1..] == [b[1]] && b[1..][1..] == [] && c[1..] == [] && batches[1..] == [c] && batches[1..][1..] == [];
    assert Delivered(b[1..]) == [b[1].msg] && Delivered(c) == [c[0].msg];
    assert AllDelivered(batches[1..]) == [c[0].msg] + [];
    assert AllDelivered(batches) == Delivered(b) + [c[0].msg];
  }

  lemma FirstMissed<S>(handle: Handler<S>, s: S, bad: Body, first: Body, second: Body)
    requires first.Message? && second.Message?
    requires FateOf(handle, false, s, Delivery(0, bad)) == Cut
    requires Advances(handle, StateAfter(handle, s, Delivery(0, bad)), Turn(Delivery(2, second), true))
    ensures var d := Loop(handle, false, Fresh(s, -1), TwoBatches(bad, first, second)).0;
            d.greatest == 2 && Delivery(1, first) !in d.dealt
  {
    var batches := TwoBatches(bad, first, second);
    var r := Fresh(s, -1);
    var mid := Take(handle, r, batches[0][0]);
    assert Consume(handle, false, r, batches[0]) == (mid, Cut);
    assert batches[1..] == [batches[1]] && batches[1..][1..] == [] && batches[1][1..] == [];
    var d := Take(handle, mid, batches[1][0]);
    assert Consume(handle, false, d, []) == (d, Next);
    assert Consume(handle, false, mid, batches[1]) == (d, Next);
    assert Loop(handle, false, d, []) == (d, true);
    assert Loop(handle, false, mid, [batches[1]]) == (d, true);
  }

  /** A Kafka error, an undecodable key or value, or a key that is JSON and no object: the record behind it in its
      batch is never handled, and the watcher moves past it with the next record. */
  lemma RecordCanBeMissed<S>(handle: Handler<S>, s: S, bad: Body, first: Body, second: Body)
    requires bad in {Failure(false), KeyUndecodable, KeyNotObject, ValueUndecodable} && first.Message? &&
             second.Message?
    requires handle(s, second.key, second.value).verdict == Accepted
    ensures var batches := TwoBatches(bad, first, second);
            var d := Loop(handle, false, Fresh(s, -1), batches).0;
            && Rising(AllDelivered(batches)) && Delivery(1, first) in AllDelivered(batches)
            && d.greatest == 2 && Delivery(1, first) !in d.dealt
  {
    TwoDelivered(bad, first, second);
    FirstMissed(handle, s, bad, first, second);
  }

  /** The same behind a message on which the handler raises an error that the loop does not catch. */
  lemma RaisedHidesRecord<S>(handle: Handler<S>, s: S, bad: Body, first: Body, second: Body)
    requires bad.Message? && first.Message? && second.Message?
    requires handle(s, bad.key, bad.value).verdict == Raised
    requires handle(handle(s, bad.key, bad.value).state, second.key, second.value).verdict == Accepted
    ensures var batches := TwoBatches(bad, first, second);
            var d := Loop(handle, false, Fresh(s, -1), batches).0;
            && Rising(AllDelivered(batches)) && Delivery(1, first) in AllDelivered(batches)
            && d.greatest == 2 && Delivery(1, first) !in d.dealt
  {
    TwoDelivered(bad, first, second);
    FirstMissed(handle, s, bad, first, second);
  }

  // ---------------------------------------------------------------- the objects

  class OffsetWatcher {
    var greatestOffset: int

    constructor ()
      ensures greatestOffset == UNSEEN
    {
      greatestOffset := UNSEEN;
    }

    method OffsetSeen(newOffset: int)
      modifies this
      ensures greatestOffset == if old(greatestOffset) < newOffset then newOffset else old(greatestOffset)
    {
      if greatestOffset < newOffset { greatestOffset := newOffset; }
    }

    /** The condition a waiting sender is woken for. */
    predicate Reached(expectedOffset: int)
      reads this
    {
      expectedOffset <= greatestOffset
    }
  }

  /** The turns of a batch: `ready[i]` is the flag as it is when the lock is taken after message `i`. */
  function Turns(msgs: seq<Delivery>, watchOffsets: bool, ready: seq<bool>): Batch
    requires |ready| == |msgs|
  {
    seq(|msgs|, i requires 0 <= i < |msgs| => Turn(msgs[i], ready[i] && watchOffsets))
  }

  class KafkaSchemaReader<S(!new)> {
    const handle: Handler<S>
    const strict: bool
    const watcher: OffsetWatcher
    var state: S
    var offset: int
    ghost var dealt: seq<Delivery>

    constructor (handle: Handler<S>, strict: bool, watcher: OffsetWatcher, start: S, offset: int)
      requires watcher.greatestOffset == UNSEEN
      ensures this.handle == handle && this.strict == strict && this.watcher == watcher
      ensures Now() == Fresh(start, offset)
    {
      this.handle, this.strict, this.watcher, state, this.offset, dealt := handle, strict, watcher, start, offset, [];
    }

    ghost function Now(): Reader<S>
      reads this, watcher
    {
      Reader(state, offset, watcher.greatestOffset, dealt)
    }

    /** `consume_messages` */
    method ConsumeMessages(msgs: seq<Delivery>, watchOffsets: bool, ready: seq<bool>) returns (fate: Fate)
      requires |ready| == |msgs|
      modifies this, watcher
      ensures (Now(), fate) == Consume(handle, strict, old(Now()), Turns(msgs, watchOffsets, ready))
    {
      ghost var turns := Turns(msgs, watchOffsets, ready);
      assert turns[0..] == turns;
      for i := 0 to |msgs|
        invariant Consume(handle, strict, Now(), turns[i..]) == Consume(handle, strict, old(Now()), turns)
      {
        assert turns[i..][0] == Turn(msgs[i], ready[i] && watchOffsets) && turns[i..][1..] == turns[i + 1..];
        fate := TakeOne(msgs[i], ready[i] && watchOffsets);
        if fate != Next { return; }
      }
      fate := Next;
    }

    /** One message, with the `try` blocks of the loop unrolled into its cases. */
    method TakeOne(msg: Delivery, watched: bool) returns (fate: Fate)
      modifies this, watcher
      ensures Now() == Take(handle, old(Now()), Turn(msg, watched))
      ensures fate == FateOf(handle, strict, old(state), msg)
      ensures offset == if msg.body.Failure? || msg.body.KeyUndecodable? || msg.body.KeyNotObject? ||
                           msg.body.ValueUndecodable? then old(offset) else msg.offset
    {
      match msg.body {
        case Failure(authorization) =>
          if !authorization { return Cut; }
          return if strict then Stop else Next;
        case Placeholder =>
          offset, dealt := msg.offset, dealt + [msg];
          return Next;
        case KeyUndecodable => return Cut;
        case KeyNotObject => return Cut;
        case ValueUndecodable => return Cut;
        case Message(key, value) =>
          var outcome := handle(state, key, value);
          state := outcome.state;
          offset, dealt := msg.offset, dealt + [msg];
          if outcome.verdict.Raised? { return Cut; }
          if outcome.verdict.Refused? { return if strict then Stop else Next; }
          if watched { watcher.OffsetSeen(offset); }
          return Next;
        case _ =>
          offset, dealt := msg.offset, dealt + [msg];
          return if strict then Stop else Next;
      }
    }
  }
}
