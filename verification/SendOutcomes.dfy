/** The reader's loop and the offset watcher behind the registry: an operation is answered exactly when the watcher
    reaches the record it sent. */
module SendOutcomes {
  import opened SchemaModels
  import opened SchemaReader
  import opened SchemaRegistry
  import opened RegistryService
  import ReadYourWrites

  type Parser = (ReadYourWrites.Object, Option<ReadYourWrites.Object>) -> Record

  /** `handle_msg` for the loop, given how keys and values are read as records. */
  ghost function RegistryHandler(parse: Parser): ReadYourWrites.Handler<State> {
    (st: State, key: ReadYourWrites.Object, value: Option<ReadYourWrites.Object>) =>
      var r := parse(key, value);
      ReadYourWrites.Outcome(HandleMsg(st, r),
                             if Accepted(st.db, r) then ReadYourWrites.Accepted else ReadYourWrites.Refused)
  }

  /** A watched message past everything seen raises the watcher to its offset if and only if the handler accepts it. */
  lemma SeenIffAccepted<S>(handle: ReadYourWrites.Handler<S>, strict: bool, r: ReadYourWrites.Reader<S>,
                           m: ReadYourWrites.Delivery)
    requires m.body.Message? && r.greatest < m.offset
    ensures var d := ReadYourWrites.Consume(handle, strict, r, [ReadYourWrites.Turn(m, true)]).0;
            && d.state == handle(r.state, m.body.key, m.body.value).state
            && (d.greatest >= m.offset <==> handle(r.state, m.body.key, m.body.value).verdict.Accepted?)
  {
    var t := ReadYourWrites.Turn(m, true);
    assert [t][1..] == [];
    assert ReadYourWrites.Consume(handle, strict, r, [t]).0 == ReadYourWrites.Take(handle, r, t);
  }

  lemma OnlySendsTimeOut(canRead: CanRead, st: State, request: Request, r: Record)
    requires PlanOf(canRead, st, request).records == [r]
    ensures PlanOf(canRead, st, request).reply == Failed(SendTimedOut) <==> !Accepted(st.db, r)
  {
    assert PlanOf(canRead, st, request).records[0] == r;
  }

  /** After any run, let the reader of the node be caught up and ready, and let it be delivered the record of the next
      request: it ends in the state the model gives, and the watcher reaches the record exactly when the model's answer
      is not that the send timed out. */
  lemma ReplyFollowsWatcher(canRead: CanRead, mode: Mode, requests: seq<Request>, request: Request, parse: Parser,
                            strict: bool, reader: ReadYourWrites.Reader<State>, m: ReadYourWrites.Delivery)
    requires m.body.Message? && reader.greatest < m.offset
    requires var st := Run(canRead, mode, requests).st; var plan := PlanOf(canRead, st, request);
             plan.records == [parse(m.body.key, m.body.value)] && reader.state == st.(counter := plan.counter)
    ensures var w := Run(canRead, mode, requests);
            var d := ReadYourWrites.Consume(RegistryHandler(parse), strict, reader, [ReadYourWrites.Turn(m, true)]).0;
            && d.state == Exec(canRead, w, request).st
            && (d.greatest >= m.offset <==> PlanOf(canRead, w.st, request).reply != Failed(SendTimedOut))
  {
    var w, r := Run(canRead, mode, requests), parse(m.body.key, m.body.value);
    SeenIffAccepted(RegistryHandler(parse), strict, reader, m);
    OnlySendsTimeOut(canRead, w.st, request, r);
    HandleOne(reader.state, r);
  }
}
