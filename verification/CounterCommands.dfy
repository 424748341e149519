/** The counter sample's commands: each that is written counts exactly once, however their executions interleave. */
module CounterCommands {
  import opened Wrappers
  import opened Ulid
  import opened EventLog
  import opened Aggregates
  import opened Rendering
  import opened Counters
  import opened Services

  const INCREMENT := "counter:increment"
  const DECREMENT := "counter:decrement"
  const RANDOMIZE := "counter:randomize"

  /** What a command asks for; for randomize the value is what the randomizer returns. */
  datatype CounterCommand = IncrementBy(amount: int64) | DecrementBy(amount: int64) | RandomizeTo(value: int64)

  function EventOf(command: CounterCommand): DomainEvent {
    match command
    case IncrementBy(amount) => DomainEvent(INCREMENTED, Data(JSON, map["amount" := amount]))
    case DecrementBy(amount) => DomainEvent(DECREMENTED, Data(JSON, map["amount" := amount]))
    case RandomizeTo(value) => DomainEvent(RANDOMIZED, Data(JSON, map["value" := value]))
  }

  /** All three handlers publish one event, without expecting a revision, and return what publishing returned. */
  function PublishEvent(entity: Entity<int>, command: CounterCommand): Handler {
    Publish(Request(entity.aggregate, "", [EventOf(command)]),
            Return(None), Return(Some("revision-conflict")), Return(Some("failed to publish events")))
  }

  /** A payload that cannot be unmarshalled fails before the handler runs. */
  function Unmarshalled(entity: Entity<int>, command: Option<CounterCommand>): Handler {
    match command
    case Some(c) => PublishEvent(entity, c)
    case None => Return(Some("invalid payload"))
  }

  function Incrementing(payload: Data): Option<CounterCommand> {
    match Field(payload, "amount")
    case Some(amount) => Some(IncrementBy(amount))
    case None => None
  }

  function Decrementing(payload: Data): Option<CounterCommand> {
    match Field(payload, "amount")
    case Some(amount) => Some(DecrementBy(amount))
    case None => None
  }

  /** The command's amount is decoded, but not used; `randomized` is what the randomizer returns. */
  function Randomizing(payload: Data, randomized: int64): Option<CounterCommand> {
    match Field(payload, "amount")
    case Some(_) => Some(RandomizeTo(randomized))
    case None => None
  }

  function CommandHandlers(randomized: int64): Handlers<int> {
    map[INCREMENT := (entity, payload) => Unmarshalled(entity, Incrementing(payload)),
        DECREMENT := (entity, payload) => Unmarshalled(entity, Decrementing(payload)),
        RANDOMIZE := (entity, payload) => Unmarshalled(entity, Randomizing(payload, randomized))]
  }

  /** What the service takes a command for. */
  function CounterCommandOf(command: Command, randomized: int64): Option<CounterCommand> {
    if command.name == INCREMENT then Incrementing(command.payload)
    else if command.name == DECREMENT then Decrementing(command.payload)
    else if command.name == RANDOMIZE then Randomizing(command.payload, randomized)
    else None
  }

  // --- one execution -------------------------------------------------------------------------------------

  /** One execution of a counter command on an aggregate, and whether its event was written. */
  datatype Execution = Execution(id: AggregateId, command: CounterCommand, written: bool)

  /** The owner wrote its command's event once, or nothing. */
  ghost predicate Recorded(journal: Journal, owner: nat, x: Execution) {
    Wrote(journal, owner, x, x.written)
  }

  ghost predicate Wrote(journal: Journal, owner: nat, x: Execution, once: bool) {
    WritesBy(journal, owner) == if once then [WriteOf(x.id, [EventOf(x.command)])] else []
  }

  ghost predicate IsCounterService(service: EntityService<int>, randomized: int64) {
    service.reducers == REDUCERS && service.initial == 0 && service.handlers == CommandHandlers(randomized)
  }

  /** The reload after a publish failed: in the store, or on a payload of some writer that cannot be read. */
  predicate ReloadFailed(r: Result<Entity<int>, ServiceError>, trace: Trace<int>) {
    trace.first.Ok? && r.Err? && (r.error == LoadFailed || r.error == RenderFailed)
  }

  /**
   * What an execution has written, exactly: its command's event, once, if it returns an entity or if the reload
   * failed; otherwise nothing. So an error of a load leaves its caller in doubt: after the first load failed nothing is
   * written, after the reload failed the event is.
   */
  lemma {:induction false} ExecutedOnce(service: EntityService<int>, randomized: int64, journal: Journal, me: nat,
                                        id: AggregateId, command: Command, outages: Outages,
                                        r: Result<Entity<int>, ServiceError>, trace: Trace<int>)
    requires IsCounterService(service, randomized)
    requires service.Executed(journal, me, id, command, outages, r, trace)
    ensures if r.Ok? || ReloadFailed(r, trace) then
        && CounterCommandOf(command, randomized).Some?
        && Recorded(journal, me, Execution(id, CounterCommandOf(command, randomized).value, true))
      else WritesBy(journal, me) == []
    ensures r == Err(LoadFailed) <==> outages.first || (ReloadFailed(r, trace) && outages.reload)
  {
    if trace.first.Ok? {
      CounterReacted(service, randomized, journal, me, id, command, outages, r, trace);
    }
  }

  /** After a first load: either the one publish was accepted and the result is the reload's, or nothing was written. */
  lemma {:induction false} CounterReacted(service: EntityService<int>, randomized: int64, journal: Journal, me: nat,
                                          id: AggregateId, command: Command, outages: Outages,
                                          r: Result<Entity<int>, ServiceError>, trace: Trace<int>)
    requires IsCounterService(service, randomized) && trace.m <= |journal|
    requires trace.first.Ok? && trace.first.value.aggregate == id
    requires service.Reacted(journal, me, id, command, outages, r, trace)
    ensures if trace.answers == [None] then
        && CounterCommandOf(command, randomized).Some?
        && Recorded(journal, me, Execution(id, CounterCommandOf(command, randomized).value, true))
        && service.Loaded(journal[..trace.m], id, outages.reload, r)
      else WritesBy(journal, me) == [] && r.Err? && r.error != LoadFailed && r.error != RenderFailed
  {
    if command.name in service.handlers {
      RoutedHandler(service, randomized, trace.first.value, command);
      if trace.answers != [] {
        CounterRan(service, journal, me, id, CounterCommandOf(command, randomized).value, outages, r, trace);
      }
    }
  }

  /** One publish and its answer: what is written, and how the execution ends. */
  lemma {:induction false} CounterRan(service: EntityService<int>, journal: Journal, me: nat, id: AggregateId,
                                      command: CounterCommand, outages: Outages,
                                      r: Result<Entity<int>, ServiceError>, trace: Trace<int>)
    requires trace.m <= |journal| && trace.first.Ok? && trace.first.value.aggregate == id
    requires service.Ran(journal, me, id, PublishEvent(trace.first.value, command), outages, r, trace)
    ensures |trace.answers| == 1 && Asks(PublishEvent(trace.first.value, command), trace.answers, id)
    ensures trace.answers[0] == None ==>
      && WritesBy(journal, me) == [WriteOf(id, [EventOf(command)])]
      && service.Loaded(journal[..trace.m], id, outages.reload, r)
    ensures trace.answers[0] != None ==>
      && WritesBy(journal, me) == []
      && r == Err(HandlerFailed(if trace.answers[0] == Some(RevisionConflict) then "revision-conflict"
                                else "failed to publish events"))
  {
    OnePublish(trace.first.value, command, trace.answers);
  }

  /** Rendering only fails if the payload of some writer in the log that was loaded cannot be read. */
  lemma RenderFailsExactlyWhen(service: EntityService<int>, randomized: int64, journal: Journal, id: AggregateId,
                               fails: bool, r: Result<Entity<int>, ServiceError>)
    requires IsCounterService(service, randomized) && service.Loaded(journal, id, fails, r)
    ensures r == Err(RenderFailed) <==> !fails && !AllReadable(PayloadOf(LogFor(journal, id)))
    ensures r == Err(LoadFailed) <==> fails
  {
    RefusedExactlyWhen(0, PayloadOf(LogFor(journal, id)));
  }

  lemma RoutedHandler(service: EntityService<int>, randomized: int64, entity: Entity<int>, command: Command)
    requires IsCounterService(service, randomized) && command.name in service.handlers
    ensures service.handlers[command.name](entity, command.payload)
         == Unmarshalled(entity, CounterCommandOf(command, randomized))
  {
    assert INCREMENT[8] == 'i' && DECREMENT[8] == 'd' && RANDOMIZE[8] == 'r';
  }

  /** The handler succeeds exactly if its one publish was accepted. */
  lemma {:induction false} WalkOne(entity: Entity<int>, command: CounterCommand, answers: seq<Option<PublishError>>)
    requires AnswersTo(PublishEvent(entity, command), answers)
    ensures var (accepted, error) := Walk(PublishEvent(entity, command), answers);
      WritesOf(accepted) == if error == None then [WriteOf(entity.aggregate, [EventOf(command)])] else []
  {
    var handler := PublishEvent(entity, command);
    var more := Walk(After(handler, answers[0]), answers[1..]).0;
    assert more == [];
    WritesOfJoin(Accepted(handler.request, answers[0]), more);
    assert [handler.request][1..] == [];
  }

  /** The amount in a command's payload: a missing one is zero, one beyond 64 bits cannot be read. */
  predicate HasAmount(payload: Data, amount: int) {
    && payload.Data? && payload.encoding == "application/json"
    && amount == (if "amount" in payload.fields then payload.fields["amount"] else 0)
    && -0x8000_0000_0000_0000 <= amount < 0x8000_0000_0000_0000
  }

  predicate IsCounterCommand(name: string) {
    name == "counter:increment" || name == "counter:decrement" || name == "counter:randomize"
  }

  /** The one event with which a command answers its payload. */
  predicate AnswersWith(name: string, amount: int, randomized: int, event: DomainEvent) {
    || (name == "counter:increment"
        && event == DomainEvent("counter:incremented", Data("application/json", map["amount" := amount])))
    || (name == "counter:decrement"
        && event == DomainEvent("counter:decremented", Data("application/json", map["amount" := amount])))
    || (name == "counter:randomize"
        && event == DomainEvent("counter:randomized", Data("application/json", map["value" := randomized])))
  }

  /** What a command is taken for, in terms of its name and payload alone. */
  lemma CommandMeans(command: Command, randomized: int64)
    ensures CounterCommandOf(command, randomized).Some? ==>
      exists amount :: HasAmount(command.payload, amount)
        && AnswersWith(command.name, amount, randomized, EventOf(CounterCommandOf(command, randomized).value))
    ensures CounterCommandOf(command, randomized).None? ==>
      !IsCounterCommand(command.name) || forall amount :: !HasAmount(command.payload, amount)
  {
    if IsObject(command.payload) {
      var amount := if "amount" in command.payload.fields then command.payload.fields["amount"] else 0;
      if -HALF <= amount < HALF {
        assert HasAmount(command.payload, amount);
      }
    }
  }

  /**
   * What an execution publishes and how it ends, by its command's name and payload. An entity is returned after exactly
   * one event was written, the one of the command, published without expecting a revision. If the command can be
   * handled its one publish is tried, remote or not, and an error of the publish is the error of the execution.
   */
  lemma {:induction false} ExecutionPublishes(service: EntityService<int>, randomized: int64, journal: Journal, me: nat,
                                              id: AggregateId, command: Command, outages: Outages,
                                              r: Result<Entity<int>, ServiceError>, trace: Trace<int>)
    requires IsCounterService(service, randomized)
    requires service.Executed(journal, me, id, command, outages, r, trace)
    ensures r.Ok? ==> trace.answers == [None]
    ensures trace.answers == [None] ==> exists amount, event ::
        HasAmount(command.payload, amount) && AnswersWith(command.name, amount, randomized, event)
        && WritesBy(journal, me) == [WriteOf(id, [event])]
    ensures trace.answers != [] ==>
      && command.name in service.handlers && trace.first.Ok?
      && Asks(service.handlers[command.name](trace.first.value, command.payload), trace.answers, id)
    ensures trace.first.Ok? && IsCounterCommand(command.name) ==>
      (|trace.answers| == 1 <==> exists amount :: HasAmount(command.payload, amount))
    ensures trace.answers == [Some(RevisionConflict)] <==> r == Err(HandlerFailed("revision-conflict"))
    ensures trace.answers == [Some(Rejected)] <==> r == Err(HandlerFailed("failed to publish events"))
  {
    if trace.first.Ok? {
      HandlersNamed(service, randomized);
      MessagesDiffer();
      CommandMeans(command, randomized);
      ReactionPublishes(service, randomized, journal, me, id, command, outages, r, trace);
    }
  }

  lemma {:induction false} ReactionPublishes(service: EntityService<int>, randomized: int64, journal: Journal, me: nat,
                                             id: AggregateId, command: Command, outages: Outages,
                                             r: Result<Entity<int>, ServiceError>, trace: Trace<int>)
    requires IsCounterService(service, randomized) && trace.m <= |journal|
    requires trace.first.Ok? && trace.first.value.aggregate == id
    requires service.Reacted(journal, me, id, command, outages, r, trace)
    ensures trace.answers == [] <==>
      || command.name !in service.handlers || CounterCommandOf(command, randomized).None?
      || (command.remote && command.payload.encoding != JSON)
    ensures trace.answers == [] ==>
      r.Err? && (r.error.HandlerFailed? ==> r.error.message == "invalid payload")
    ensures trace.answers != [] ==>
      && |trace.answers| == 1
      && Asks(service.handlers[command.name](trace.first.value, command.payload), trace.answers, id)
      && if trace.answers[0] == None then
           && WritesBy(journal, me) == [WriteOf(id, [EventOf(CounterCommandOf(command, randomized).value)])]
           && (r.Ok? || !r.error.HandlerFailed?)
         else r == Err(HandlerFailed(if trace.answers[0] == Some(RevisionConflict) then "revision-conflict"
                                     else "failed to publish events"))
  {
    if command.name in service.handlers {
      RoutedHandler(service, randomized, trace.first.value, command);
      if trace.answers != [] {
        CounterRan(service, journal, me, id, CounterCommandOf(command, randomized).value, outages, r, trace);
      }
    }
  }

  lemma MessagesDiffer()
    ensures "revision-conflict" != "failed to publish events"
    ensures "revision-conflict" != "invalid payload" && "failed to publish events" != "invalid payload"
  {
    assert "revision-conflict"[0] == 'r' && "failed to publish events"[0] == 'f' && "invalid payload"[0] == 'i';
  }

  /** The handler made one request, to this aggregate and without expecting a revision. */
  predicate Asks(handler: Handler, answers: seq<Option<PublishError>>, id: AggregateId) {
    AnswersTo(handler, answers) && |answers| == 1
    && Asked(handler, answers)[0].id == id && Asked(handler, answers)[0].expected == ""
  }

  lemma HandlersNamed(service: EntityService<int>, randomized: int64)
    requires IsCounterService(service, randomized)
    ensures forall name :: name in service.handlers <==> IsCounterCommand(name)
  {
  }

  lemma {:induction false} OnePublish(entity: Entity<int>, command: CounterCommand, answers: seq<Option<PublishError>>)
    requires AnswersTo(PublishEvent(entity, command), answers)
    ensures |answers| == 1 && Asks(PublishEvent(entity, command), answers, entity.aggregate)
    ensures Walk(PublishEvent(entity, command), answers).1 ==
      if answers[0] == None then None
      else if answers[0] == Some(RevisionConflict) then Some("revision-conflict") else Some("failed to publish events")
    ensures WritesOf(Walk(PublishEvent(entity, command), answers).0)
         == if answers[0] == None then [WriteOf(entity.aggregate, [EventOf(command)])] else []
  {
    WalkOne(entity, command, answers);
    assert After(PublishEvent(entity, command), answers[0]).Return?;
    assert answers[1..] == [];
  }

  // --- all executions ------------------------------------------------------------------------------------

  function PayloadOf(log: Log): seq<DomainEvent> {
    Payload(Events(log))
  }

  lemma PayloadOfJoin(a: Log, b: Log)
    ensures PayloadOf(a + b) == PayloadOf(a) + PayloadOf(b)
  {
    EventsOfJoin(a, b);
  }

  predicate ByOneOf(runs: seq<Execution>, e: Entry) {
    e.cs.events == [] || e.owner < |runs|
  }

  /** The journal holds what these executions wrote, in any order, and nothing else that has events. */
  ghost predicate RecordsAll(journal: Journal, runs: seq<Execution>) {
    && (forall k {:trigger Recorded(journal, k, runs[k])} :: 0 <= k < |runs| ==> Recorded(journal, k, runs[k]))
    && (forall i {:trigger ByOneOf(runs, journal[i])} :: 0 <= i < |journal| ==> ByOneOf(runs, journal[i]))
  }

  /** What a command adds to the counter. */
  function Delta(command: CounterCommand): int {
    match command
    case IncrementBy(amount) => amount
    case DecrementBy(amount) => 0 - amount
    case RandomizeTo(_) => 0
  }

  /** The sum over those of the executions on one aggregate that are counted. */
  function SumOf(runs: seq<Execution>, counted: set<nat>, id: AggregateId): int {
    if runs == [] then 0
    else
      var n := |runs| - 1;
      SumOf(runs[..n], counted, id) + if n in counted && runs[n].id == id then Delta(runs[n].command) else 0
  }

  /** The executions that wrote their event. */
  function Written(runs: seq<Execution>): set<nat> {
    set k | 0 <= k < |runs| && runs[k].written
  }

  /** The executions that wrote to this part of the journal. */
  function Writers(part: Journal, runs: seq<Execution>): set<nat> {
    set k | 0 <= k < |runs| && WritesBy(part, k) != []
  }

  predicate Randomizes(e: Entry, id: AggregateId) {
    e.id == id && exists i :: 0 <= i < |e.cs.events| && e.cs.events[i].event.eventType == RANDOMIZED
  }

  ghost predicate NoneRandomizes(journal: Journal, from: nat, id: AggregateId) {
    forall i {:trigger Randomizes(journal[i], id)} :: from <= i < |journal| ==> !Randomizes(journal[i], id)
  }

  /** The journal index of the aggregate's last randomize event. */
  function LastRandomize(journal: Journal, id: AggregateId): (p: Option<nat>)
    ensures p.Some? ==> p.value < |journal| && Randomizes(journal[p.value], id)
    ensures NoneRandomizes(journal, if p.Some? then p.value + 1 else 0, id)
  {
    if journal == [] then None
    else if Randomizes(journal[|journal| - 1], id) then Some(|journal| - 1)
    else LastRandomize(journal[..|journal| - 1], id)
  }

  /** What the counter of this journal shows. */
  function ValueOf(journal: Journal, id: AggregateId): Option<int> {
    Fold(REDUCERS, 0, PayloadOf(LogFor(journal, id)))
  }

  /** Zero plus what all executions on the aggregate add that wrote their event. */
  ghost predicate CountsAll(journal: Journal, runs: seq<Execution>, id: AggregateId) {
    ValueOf(journal, id) == Some(Wrapped(SumOf(runs, Written(runs), id)))
  }

  /** The value of the randomize at index `p`, plus what the executions that wrote after it add. */
  ghost predicate CountsFrom(journal: Journal, runs: seq<Execution>, id: AggregateId, p: nat)
    requires p < |journal|
  {
    var owner := journal[p].owner;
    && owner < |runs| && runs[owner].written && runs[owner].id == id && runs[owner].command.RandomizeTo?
    && ValueOf(journal, id)
    == Some(Wrapped(runs[owner].command.value + SumOf(runs, Writers(journal[p + 1..], runs), id)))
  }

  /**
   * The counter's value after any number of executions, in any interleaving: the value of the last randomize written,
   * plus all increments minus all decrements written after it, or the sum over all of them from zero if nothing was
   * randomized. Each execution that wrote its event counts exactly once, any other never.
   */
  lemma {:induction false} EveryCommandCountsOnce(journal: Journal, runs: seq<Execution>, id: AggregateId)
    requires RecordsAll(journal, runs)
    ensures match LastRandomize(journal, id)
      case None => CountsAll(journal, runs, id)
      case Some(p) => CountsFrom(journal, runs, id, p)
  {
    match LastRandomize(journal, id)
    case None => NothingRandomized(journal, runs, id);
    case Some(p) => LastRandomized(journal, runs, p, id);
  }

  lemma {:induction false} NothingRandomized(journal: Journal, runs: seq<Execution>, id: AggregateId)
    requires RecordsAll(journal, runs) && NoneRandomizes(journal, 0, id)
    ensures CountsAll(journal, runs, id)
  {
    assert journal[0..] == journal;
    TailSum(journal, runs, 0, id);
    WritersAreWritten(journal, runs);
    CounterMovesByTotal(0, PayloadOf(LogFor(journal, id)));
  }

  lemma WritersAreWritten(journal: Journal, runs: seq<Execution>)
    requires RecordsAll(journal, runs)
    ensures Writers(journal, runs) == Written(runs)
  {
    forall k | 0 <= k < |runs|
      ensures WritesBy(journal, k) != [] <==> runs[k].written
    {
      assert Recorded(journal, k, runs[k]);
    }
  }

  lemma {:induction false} LastRandomized(journal: Journal, runs: seq<Execution>, p: nat, id: AggregateId)
    requires RecordsAll(journal, runs) && p < |journal| && Randomizes(journal[p], id)
    requires NoneRandomizes(journal, p + 1, id)
    ensures CountsFrom(journal, runs, id, p)
  {
    var value := RandomizedBy(journal, runs, p, id);
    TailSum(journal, runs, p + 1, id);
    ValueFrom(journal, runs, p, id, value, SumOf(runs, Writers(journal[p + 1..], runs), id));
  }

  /** A randomize event is that of its owner's command. */
  lemma RandomizedBy(journal: Journal, runs: seq<Execution>, p: nat, id: AggregateId) returns (value: int64)
    requires RecordsAll(journal, runs) && p < |journal| && Randomizes(journal[p], id)
    ensures journal[p].owner < |runs| && runs[journal[p].owner] == Execution(id, RandomizeTo(value), true)
  {
    EntryIsCommand(journal, runs, p);
    var command := runs[journal[p].owner].command;
    RandomizeIsCommand(journal[p], command, id);
    value := command.value;
  }

  lemma ValueFrom(journal: Journal, runs: seq<Execution>, p: nat, id: AggregateId, value: int64, sum: int)
    requires RecordsAll(journal, runs) && p < |journal| && journal[p].cs.events != []
    requires journal[p].owner < |runs| && runs[journal[p].owner] == Execution(id, RandomizeTo(value), true)
    requires Unrandomized(journal[p + 1..], id, sum)
    ensures ValueOf(journal, id) == Some(Wrapped(value + sum))
  {
    EntryIsCommand(journal, runs, p);
    FrontReadable(journal, runs, p, id);
    EventIsFine(RandomizeTo(value));
    ValueAround(journal, p, id, EventOf(RandomizeTo(value)), value, sum);
  }

  lemma {:induction false} ValueAround(journal: Journal, p: nat, id: AggregateId, event: DomainEvent, value: int64,
                                       sum: int)
    requires p < |journal| && journal[p].id == id && Payload(journal[p].cs.events) == [event]
    requires event.eventType == RANDOMIZED && Number(event) == Some(value)
    requires AllReadable(PayloadOf(LogFor(journal[..p], id)))
    requires Unrandomized(journal[p + 1..], id, sum)
    ensures ValueOf(journal, id) == Some(Wrapped(value + sum))
  {
    var front, rest := PayloadOf(LogFor(journal[..p], id)), PayloadOf(LogFor(journal[p + 1..], id));
    LogAround(journal, p, id);
    CounterValue(front, event, rest);
    assert PayloadOf(LogFor(journal, id)) == front + [event] + rest;
  }

  lemma RandomizeIsCommand(e: Entry, command: CounterCommand, id: AggregateId)
    requires Randomizes(e, id) && Payload(e.cs.events) == [EventOf(command)]
    ensures command.RandomizeTo? && EventOf(command).eventType == RANDOMIZED
    ensures Number(EventOf(command)) == Some(command.value)
  {
    var i :| 0 <= i < |e.cs.events| && e.cs.events[i].event.eventType == RANDOMIZED;
    assert Payload(e.cs.events)[i].eventType == RANDOMIZED;
    EventIsFine(command);
  }

  /** The payload of a log, before, at and after one entry of its aggregate. */
  lemma LogAround(journal: Journal, p: nat, id: AggregateId)
    requires p < |journal| && journal[p].id == id
    ensures PayloadOf(LogFor(journal, id))
         == PayloadOf(LogFor(journal[..p], id)) + Payload(journal[p].cs.events)
          + PayloadOf(LogFor(journal[p + 1..], id))
  {
    var front, e, rest := journal[..p], journal[p], journal[p + 1..];
    assert journal == front + [e] + rest;
    LogForJoin(front + [e], rest, id);
    LogForJoin(front, [e], id);
    OneEntry(e, id);
    PayloadOfJoin(LogFor(front, id) + [e.cs], LogFor(rest, id));
    PayloadOfJoin(LogFor(front, id), [e.cs]);
    OneChangeSet(e.cs);
  }

  lemma {:induction false} LogForJoin(a: Journal, b: Journal, id: AggregateId)
    ensures LogFor(a + b, id) == LogFor(a, id) + LogFor(b, id)
  {
    if b == [] {
      assert a + b == a;
    } else {
      assert (a + b)[..|a + b| - 1] == a + b[..|b| - 1];
      LogForJoin(a, b[..|b| - 1], id);
    }
  }

  lemma {:induction false} WritesByJoin(a: Journal, b: Journal, owner: nat)
    ensures WritesBy(a + b, owner) == WritesBy(a, owner) + WritesBy(b, owner)
  {
    if b == [] {
      assert a + b == a;
    } else {
      assert (a + b)[..|a + b| - 1] == a + b[..|b| - 1];
      WritesByJoin(a, b[..|b| - 1], owner);
    }
  }

  lemma OneEntry(e: Entry, id: AggregateId)
    ensures LogFor([e], id) == if e.id == id then [e.cs] else []
  {
    assert [e][..0] == [];
  }

  lemma OneChangeSet(cs: ChangeSet)
    ensures PayloadOf([cs]) == Payload(cs.events)
  {
    assert [cs][..0] == [];
    assert Events([cs]) == cs.events;
  }

  /** Each change set with events is the one of its owner's command. */
  lemma EntryIsCommand(journal: Journal, runs: seq<Execution>, i: nat)
    requires RecordsAll(journal, runs) && i < |journal| && journal[i].cs.events != []
    ensures var e := journal[i];
      && e.owner < |runs| && runs[e.owner].written && runs[e.owner].id == e.id
      && Payload(e.cs.events) == [EventOf(runs[e.owner].command)]
  {
    var e := journal[i];
    assert ByOneOf(runs, e);
    assert journal == journal[..i] + ([e] + journal[i + 1..]);
    WritesByJoin(journal[..i], [e] + journal[i + 1..], e.owner);
    WritesByJoin([e], journal[i + 1..], e.owner);
    assert [e][..0] == [];
    assert WriteOf(e.id, Payload(e.cs.events)) in WritesBy(journal, e.owner);
    assert Recorded(journal, e.owner, runs[e.owner]);
  }

  /** Every entry for the aggregate is readable, and without randomize events if that is asked. */
  ghost predicate EntriesFine(journal: Journal, id: AggregateId, randomize: bool) {
    forall i :: 0 <= i < |journal| && journal[i].id == id ==> Fine(Payload(journal[i].cs.events), randomize)
  }

  ghost predicate Fine(events: seq<DomainEvent>, randomize: bool) {
    AllReadable(events) && (randomize || NoRandomize(events))
  }

  lemma FineJoin(a: seq<DomainEvent>, b: seq<DomainEvent>, randomize: bool)
    requires Fine(a, randomize) && Fine(b, randomize)
    ensures Fine(a + b, randomize)
  {
  }

  lemma {:induction false} LogFine(journal: Journal, id: AggregateId, randomize: bool)
    requires EntriesFine(journal, id, randomize)
    ensures Fine(PayloadOf(LogFor(journal, id)), randomize)
  {
    if journal != [] {
      var front, e := journal[..|journal| - 1], journal[|journal| - 1];
      LogFine(front, id, randomize);
      if e.id == id {
        PayloadOfJoin(LogFor(front, id), [e.cs]);
        OneChangeSet(e.cs);
        FineJoin(PayloadOf(LogFor(front, id)), Payload(e.cs.events), randomize);
      } else {
        assert LogFor(journal, id) == LogFor(front, id);
      }
    }
  }

  lemma EventIsFine(command: CounterCommand)
    ensures Number(EventOf(command)).Some?
    ensures AllReadable([EventOf(command)])
    ensures NoRandomize([EventOf(command)]) <==> !command.RandomizeTo?
    ensures Step(EventOf(command)) == Delta(command)
    ensures command.RandomizeTo? ==> Number(EventOf(command)) == Some(command.value)
  {
    assert [EventOf(command)][0] == EventOf(command);
    assert INCREMENTED[8] == 'i' && DECREMENTED[8] == 'd' && RANDOMIZED[8] == 'r';
  }

  lemma FrontReadable(journal: Journal, runs: seq<Execution>, p: nat, id: AggregateId)
    requires RecordsAll(journal, runs) && p <= |journal|
    ensures AllReadable(PayloadOf(LogFor(journal[..p], id)))
  {
    forall i | 0 <= i < p && journal[..p][i].id == id
      ensures Fine(Payload(journal[..p][i].cs.events), true)
    {
      if journal[i].cs.events != [] {
        EntryIsCommand(journal, runs, i);
        EventIsFine(runs[journal[i].owner].command);
      }
    }
    LogFine(journal[..p], id, true);
  }

  /** The events of this part of the log can be read, none of them is a randomize, and they add `sum`. */
  ghost predicate Unrandomized(part: Journal, id: AggregateId, sum: int) {
    var events := PayloadOf(LogFor(part, id));
    AllReadable(events) && NoRandomize(events) && Total(events) == sum
  }

  /** From journal index `p` on nothing is randomized: that part of the log adds what its writers' commands add. */
  lemma {:induction false} TailSum(journal: Journal, runs: seq<Execution>, p: nat, id: AggregateId)
    requires RecordsAll(journal, runs) && p <= |journal|
    requires NoneRandomizes(journal, p, id)
    ensures Unrandomized(journal[p..], id, SumOf(runs, Writers(journal[p..], runs), id))
  {
    var tail := journal[p..];
    TailFine(journal, tail, runs, p, id);
    TailWriters(journal, tail, runs, p);
    TotalByOwner(tail, |runs|, id);
    assert runs[..|runs|] == runs;
    SumByOwner(tail, runs, |runs|, Writers(tail, runs), id);
  }

  lemma TailFine(journal: Journal, tail: Journal, runs: seq<Execution>, p: nat, id: AggregateId)
    requires RecordsAll(journal, runs) && p <= |journal| && tail == journal[p..]
    requires NoneRandomizes(journal, p, id)
    ensures Fine(PayloadOf(LogFor(tail, id)), false)
  {
    forall i | 0 <= i < |tail| && tail[i].id == id
      ensures Fine(Payload(tail[i].cs.events), false)
    {
      assert tail[i] == journal[p + i];
      assert !Randomizes(journal[p + i], id);
      if tail[i].cs.events != [] {
        EntryIsCommand(journal, runs, p + i);
        EventIsFine(runs[tail[i].owner].command);
        assert Payload(tail[i].cs.events)[0] == tail[i].cs.events[0].event;
      }
    }
    LogFine(tail, id, false);
  }

  lemma TailWriters(journal: Journal, tail: Journal, runs: seq<Execution>, p: nat)
    requires RecordsAll(journal, runs) && p <= |journal| && tail == journal[p..]
    ensures forall i :: 0 <= i < |tail| && tail[i].cs.events != [] ==> tail[i].owner < |runs|
    ensures forall k :: 0 <= k < |runs| ==> Wrote(tail, k, runs[k], k in Writers(tail, runs))
  {
    forall i | 0 <= i < |tail| && tail[i].cs.events != []
      ensures tail[i].owner < |runs|
    {
      assert tail[i] == journal[p + i];
      assert ByOneOf(runs, journal[p + i]);
    }
    forall k | 0 <= k < |runs|
      ensures Wrote(tail, k, runs[k], k in Writers(tail, runs))
    {
      assert Recorded(journal, k, runs[k]);
      WroteInTail(journal[..p], tail, journal, k, runs[k]);
    }
  }

  lemma WroteInTail(front: Journal, tail: Journal, journal: Journal, owner: nat, x: Execution)
    requires journal == front + tail && Recorded(journal, owner, x)
    ensures Wrote(tail, owner, x, WritesBy(tail, owner) != [])
  {
    WritesByJoin(front, tail, owner);
  }

  // --- a failing reload --------------------------------------------------------------------------------------

  function Working(n: nat): Backend {
    Works
  }

  function IncrementOf(amount: int64): Command {
    Command(INCREMENT, false, Data(JSON, map["amount" := amount]))
  }

  function CounterEntity(id: AggregateId, revision: Revision, value: int): Entity<int> {
    Entity(id, revision, value)
  }

  /** The journal after an increment was written on top of it. */
  function Incremented(journal: Journal, me: nat, id: AggregateId, amount: int64): Journal {
    journal + [Entry(me, id, ChangeSet("1", [RecordedEvent("1", EventOf(IncrementBy(amount)))]))]
  }

  lemma IncrementedLog(journal: Journal, me: nat, id: AggregateId, amount: int64)
    ensures var log := LogFor(Incremented(journal, me, id, amount), id);
      && RevisionFrom(Events(log)) == "1"
      && PayloadOf(log) == PayloadOf(LogFor(journal, id)) + [EventOf(IncrementBy(amount))]
  {
    var event := EventOf(IncrementBy(amount));
    var e := Entry(me, id, ChangeSet("1", [RecordedEvent("1", event)]));
    AppendEntry(journal, e, id, me);
    PayloadOfJoin(LogFor(journal, id), [e.cs]);
    EventsOfJoin(LogFor(journal, id), [e.cs]);
    OneChangeSet(e.cs);
    assert Events([e.cs]) == e.cs.events;
    assert Payload(e.cs.events) == [event];
  }

  lemma {:induction false} IncrementedValue(journal: Journal, me: nat, id: AggregateId, amount: int64, value: int64)
    requires ValueOf(journal, id) == Some(value)
    ensures ValueOf(Incremented(journal, me, id, amount), id) == Some(Wrapped(value + amount))
  {
    var event := EventOf(IncrementBy(amount));
    IncrementedLog(journal, me, id, amount);
    FoldJoin(REDUCERS, 0, PayloadOf(LogFor(journal, id)), [event]);
    OneIncrement(value, amount);
  }

  lemma OneIncrement(value: int64, amount: int64)
    ensures Fold(REDUCERS, value, [EventOf(IncrementBy(amount))]) == Some(Wrapped(value + amount))
  {
    var event := EventOf(IncrementBy(amount));
    EventIsFine(IncrementBy(amount));
    assert [event][1..] == [];
    CounterMovesByTotal(value, [event]);
  }

  /** An execution of an increment, with nobody else about, whose reload fails or not. */
  lemma ExecutesIncrement(service: EntityService<int>, randomized: int64, journal: Journal, me: nat, id: AggregateId,
                          amount: int64, value: int64, reloadFails: bool)
    returns (after: Journal, moved: int64, r: Result<Entity<int>, ServiceError>, trace: Trace<int>)
    requires IsCounterService(service, randomized) && AcceptsUnguarded(service.store.admits)
    requires WritesBy(journal, me) == [] && ValueOf(journal, id) == Some(value)
    ensures journal < after && forall other :: other != me ==> WritesBy(after, other) == WritesBy(journal, other)
    ensures moved == Wrapped(value + amount) && ValueOf(after, id) == Some(moved)
    ensures service.Executed(after, me, id, IncrementOf(amount), Outages(false, reloadFails, Working), r, trace)
    ensures r == if reloadFails then Err(LoadFailed) else Ok(CounterEntity(id, "1", moved))
  {
    after, moved := Incremented(journal, me, id, amount), Wrapped(value + amount);
    var first := CounterEntity(id, RevisionFrom(Events(LogFor(journal, id))), value);
    r := if reloadFails then Err(LoadFailed) else Ok(CounterEntity(id, "1", moved));
    trace := Trace(|journal|, Ok(first), [None], [|journal|], |after|);
    assert after[..|journal|] == journal && after[..|after|] == after;
    IncrementedLog(journal, me, id, amount);
    IncrementedValue(journal, me, id, amount, value);
    service.HoldsWrites(after, me, id, |journal|, |after|, |after|);
    IncrementReacts(service, randomized, journal, me, id, amount, r, trace, reloadFails);
    forall other | other != me
      ensures WritesBy(after, other) == WritesBy(journal, other)
    {
      AppendEntry(journal, after[|journal|], id, other);
    }
  }

  lemma {:induction false} IncrementReacts(service: EntityService<int>, randomized: int64, journal: Journal, me: nat,
                                           id: AggregateId, amount: int64, r: Result<Entity<int>, ServiceError>,
                                           trace: Trace<int>, reloadFails: bool)
    requires IsCounterService(service, randomized) && AcceptsUnguarded(service.store.admits)
    requires WritesBy(journal, me) == [] && trace.first.Ok? && trace.first.value.aggregate == id
    requires trace.n == |journal| && trace.answers == [None] && trace.places == [|journal|]
    requires trace.m == |Incremented(journal, me, id, amount)|
    requires service.Loaded(Incremented(journal, me, id, amount), id, reloadFails, r)
    ensures service.Reacted(Incremented(journal, me, id, amount), me, id, IncrementOf(amount),
                            Outages(false, reloadFails, Working), r, trace)
  {
    assert CounterCommandOf(IncrementOf(amount), randomized) == Some(IncrementBy(amount));
    RoutedHandler(service, randomized, trace.first.value, IncrementOf(amount));
    IncrementRan(service, journal, me, id, amount, r, trace, reloadFails);
  }

  lemma {:induction false} IncrementRan(service: EntityService<int>, journal: Journal, me: nat, id: AggregateId,
                                        amount: int64, r: Result<Entity<int>, ServiceError>, trace: Trace<int>,
                                        reloadFails: bool)
    requires AcceptsUnguarded(service.store.admits)
    requires WritesBy(journal, me) == [] && trace.first.Ok? && trace.first.value.aggregate == id
    requires trace.n == |journal| && trace.answers == [None] && trace.places == [|journal|]
    requires trace.m == |Incremented(journal, me, id, amount)|
    requires service.Loaded(Incremented(journal, me, id, amount), id, reloadFails, r)
    ensures service.Ran(Incremented(journal, me, id, amount), me, id,
                        PublishEvent(trace.first.value, IncrementBy(amount)), Outages(false, reloadFails, Working), r,
                        trace)
  {
    var after, command, first := Incremented(journal, me, id, amount), IncrementBy(amount), trace.first.value;
    OnePublish(first, command, [None]);
    AppendEntry(journal, after[|journal|], id, me);
    assert Payload(after[|journal|].cs.events) == [EventOf(command)];
    assert after[..|after|] == after;
    IncrementAnswered(service.store.admits, journal, me, first, amount);
  }

  lemma IncrementAnswered(admits: Admission, journal: Journal, me: nat, entity: Entity<int>, amount: int64)
    requires AcceptsUnguarded(admits)
    ensures Answered(admits, Incremented(journal, me, entity.aggregate, amount), me, |journal|,
                     PublishEvent(entity, IncrementBy(amount)), Working, 0, [None], [|journal|])
  {
    var after := Incremented(journal, me, entity.aggregate, amount);
    assert after[..|journal|] == journal && after[..|journal| + 1] == after;
    assert Payload(after[|journal|].cs.events) == [EventOf(IncrementBy(amount))];
  }

  /**
   * What it means for a caller who takes the error for a failure and tries again: whatever was published before, the
   * first execution of an increment fails in its reload, the second returns an entity, and the counter moved twice.
   */
  lemma {:induction false} RetryCountsTwice(service: EntityService<int>, randomized: int64, journal: Journal, me: nat,
                                            again: nat, id: AggregateId, amount: int64, value: int64)
    returns (between: Journal, once: int64, r: Result<Entity<int>, ServiceError>, failed: Trace<int>,
             after: Journal, twice: int64, s: Result<Entity<int>, ServiceError>, retried: Trace<int>)
    requires IsCounterService(service, randomized) && AcceptsUnguarded(service.store.admits)
    requires me != again && ValueOf(journal, id) == Some(value)
    requires WritesBy(journal, me) == [] && WritesBy(journal, again) == []
    ensures journal < between < after && once == Wrapped(value + amount) && twice == Wrapped(once + amount)
    ensures service.Executed(between, me, id, IncrementOf(amount), Outages(false, true, Working), r, failed)
    ensures service.Executed(after, again, id, IncrementOf(amount), Outages(false, false, Working), s, retried)
    ensures r == Err(LoadFailed) && s == Ok(CounterEntity(id, "1", twice))
  {
    between, once, r, failed := ExecutesIncrement(service, randomized, journal, me, id, amount, value, true);
    after, twice, s, retried := ExecutesIncrement(service, randomized, between, again, id, amount, once, false);
  }

  // --- sums over owners -------------------------------------------------------------------------------------

  /** What one owner's entries add to an aggregate. */
  function AmountBy(journal: Journal, owner: nat, id: AggregateId): int {
    if journal == [] then 0
    else
      var last := journal[|journal| - 1];
      AmountBy(journal[..|journal| - 1], owner, id) +
      if last.owner == owner && last.id == id then Total(Payload(last.cs.events)) else 0
  }

  /** What the first `n` owners add to it. */
  function OwnersSum(journal: Journal, n: nat, id: AggregateId): int {
    if n == 0 then 0 else OwnersSum(journal, n - 1, id) + AmountBy(journal, n - 1, id)
  }

  lemma {:induction false} OwnersAppend(journal: Journal, e: Entry, n: nat, id: AggregateId)
    ensures OwnersSum(journal + [e], n, id) == OwnersSum(journal, n, id) +
      if e.owner < n && e.id == id then Total(Payload(e.cs.events)) else 0
  {
    if n > 0 {
      OwnersAppend(journal, e, n - 1, id);
      assert (journal + [e])[..|journal|] == journal;
    }
  }

  lemma TotalAppended(journal: Journal, e: Entry, id: AggregateId)
    ensures Total(PayloadOf(LogFor(journal + [e], id)))
         == Total(PayloadOf(LogFor(journal, id))) + if e.id == id then Total(Payload(e.cs.events)) else 0
  {
    AppendEntry(journal, e, id, 0);
    if e.id == id {
      PayloadOfJoin(LogFor(journal, id), [e.cs]);
      OneChangeSet(e.cs);
      TotalOfJoin(PayloadOf(LogFor(journal, id)), Payload(e.cs.events));
    } else {
      assert LogFor(journal + [e], id) == LogFor(journal, id);
    }
  }

  /** A log's total is the sum of what each of its writers added. */
  lemma {:induction false} TotalByOwner(journal: Journal, n: nat, id: AggregateId)
    requires forall i :: 0 <= i < |journal| && journal[i].cs.events != [] ==> journal[i].owner < n
    ensures Total(PayloadOf(LogFor(journal, id))) == OwnersSum(journal, n, id)
  {
    if journal == [] {
      NobodyWrote(n, id);
    } else {
      var front, e := journal[..|journal| - 1], journal[|journal| - 1];
      assert journal == front + [e];
      TotalByOwner(front, n, id);
      TotalAppended(front, e, id);
      OwnersAppend(front, e, n, id);
      assert e.cs.events == [] ==> Total(Payload(e.cs.events)) == 0;
    }
  }

  lemma {:induction false} NobodyWrote(n: nat, id: AggregateId)
    ensures OwnersSum([], n, id) == 0
  {
    if n > 0 {
      NobodyWrote(n - 1, id);
    }
  }

  /** Owners that wrote one command's event each, or nothing, add their commands' amounts. */
  lemma {:induction false} SumByOwner(journal: Journal, runs: seq<Execution>, n: nat, counted: set<nat>,
                                      id: AggregateId)
    requires n <= |runs|
    requires forall k {:trigger Wrote(journal, k, runs[k], k in counted)} ::
      0 <= k < n ==> Wrote(journal, k, runs[k], k in counted)
    ensures OwnersSum(journal, n, id) == SumOf(runs[..n], counted, id)
  {
    if n > 0 {
      SumByOwner(journal, runs, n - 1, counted, id);
      assert runs[..n][..n - 1] == runs[..n - 1];
      assert Wrote(journal, n - 1, runs[n - 1], (n - 1) in counted);
      AmountOfWrites(journal, n - 1, id);
      OneWrite(runs[n - 1].id, runs[n - 1].command, id);
    }
  }

  /** What these writes add to one aggregate. */
  function AmountOf(writes: seq<WriteOf>, id: AggregateId): int {
    if writes == [] then 0
    else
      var last := writes[|writes| - 1];
      AmountOf(writes[..|writes| - 1], id) + if last.id == id then Total(last.events) else 0
  }

  lemma AmountAppended(writes: seq<WriteOf>, w: WriteOf, id: AggregateId)
    ensures AmountOf(writes + [w], id) == AmountOf(writes, id) + if w.id == id then Total(w.events) else 0
  {
    assert (writes + [w])[..|writes|] == writes;
  }

  lemma {:induction false} AmountOfWrites(journal: Journal, owner: nat, id: AggregateId)
    ensures AmountBy(journal, owner, id) == AmountOf(WritesBy(journal, owner), id)
  {
    if journal != [] {
      var front, e := journal[..|journal| - 1], journal[|journal| - 1];
      AmountOfWrites(front, owner, id);
      if e.owner == owner && e.cs.events != [] {
        AmountAppended(WritesBy(front, owner), WriteOf(e.id, Payload(e.cs.events)), id);
      } else {
        assert WritesBy(journal, owner) == WritesBy(front, owner);
        assert e.cs.events == [] ==> Total(Payload(e.cs.events)) == 0;
      }
    }
  }

  lemma OneWrite(to: AggregateId, command: CounterCommand, id: AggregateId)
    ensures AmountOf([WriteOf(to, [EventOf(command)])], id) == if to == id then Delta(command) else 0
  {
    var w := WriteOf(to, [EventOf(command)]);
    AmountAppended([], w, id);
    assert [] + [w] == [w];
    EventIsFine(command);
    assert [EventOf(command)][1..] == [];
  }

  // --- executions of the service on one journal ----------------------------------------------------------------

  /** An execution of some service's command, which returned when the journal had its first `end` change sets. */
  datatype Finished = Finished(
    service: EntityService<int>,
    randomized: int64,
    id: AggregateId,
    command: Command,
    outages: Outages,
    r: Result<Entity<int>, ServiceError>,
    trace: Trace<int>,
    end: nat)

  /** It ran as the service does, and its owner wrote nothing afterwards. */
  ghost predicate IsFinished(journal: Journal, me: nat, x: Finished) {
    && x.end <= |journal| && IsCounterService(x.service, x.randomized)
    && x.service.Executed(journal[..x.end], me, x.id, x.command, x.outages, x.r, x.trace)
    && forall i :: x.end <= i < |journal| && journal[i].owner == me ==> journal[i].cs.events == []
  }

  /** What it counts as. A command that is no counter command writes nothing, so that it does not matter which. */
  function ExecutionOf(x: Finished): Execution {
    Execution(x.id, CounterCommandOf(x.command, x.randomized).GetOr(IncrementBy(0)),
              x.r.Ok? || ReloadFailed(x.r, x.trace))
  }

  function ExecutionsOf(done: seq<Finished>): seq<Execution> {
    seq(|done|, k requires 0 <= k < |done| => ExecutionOf(done[k]))
  }

  /** What others write leaves an owner's writes alone. */
  lemma {:induction false} OthersKeepWrites(journal: Journal, n: nat, me: nat)
    requires n <= |journal|
    requires forall i :: n <= i < |journal| && journal[i].owner == me ==> journal[i].cs.events == []
    ensures WritesBy(journal, me) == WritesBy(journal[..n], me)
    decreases |journal|
  {
    if n < |journal| {
      var front := journal[..|journal| - 1];
      OthersKeepWrites(front, n, me);
      assert front[..n] == journal[..n];
      assert WritesBy(journal, me) == WritesBy(front, me);
    } else {
      assert journal[..n] == journal;
    }
  }

  lemma FinishedIsRecorded(journal: Journal, me: nat, x: Finished)
    requires IsFinished(journal, me, x)
    ensures Recorded(journal, me, ExecutionOf(x))
  {
    ExecutedOnce(x.service, x.randomized, journal[..x.end], me, x.id, x.command, x.outages, x.r, x.trace);
    OthersKeepWrites(journal, x.end, me);
  }

  /**
   * Any finished executions of counter services on one journal, with any interleaving of their steps: the counter has
   * the value that counts each of them once if it returned an entity or its reload failed, and else not at all.
   */
  lemma {:induction false} FinishedCountOnce(journal: Journal, done: seq<Finished>, id: AggregateId)
    requires forall k {:trigger IsFinished(journal, k, done[k])} :: 0 <= k < |done| ==> IsFinished(journal, k, done[k])
    requires forall i :: 0 <= i < |journal| && journal[i].cs.events != [] ==> journal[i].owner < |done|
    ensures RecordsAll(journal, ExecutionsOf(done))
    ensures match LastRandomize(journal, id)
      case None => CountsAll(journal, ExecutionsOf(done), id)
      case Some(p) => CountsFrom(journal, ExecutionsOf(done), id, p)
  {
    forall k | 0 <= k < |done|
      ensures Recorded(journal, k, ExecutionsOf(done)[k])
    {
      assert IsFinished(journal, k, done[k]);
      FinishedIsRecorded(journal, k, done[k]);
    }
    EveryCommandCountsOnce(journal, ExecutionsOf(done), id);
  }

  // --- interleavings -------------------------------------------------------------------------------------------

  /**
   * Without randomize the interleaving does not matter: two journals in which the same executions were recorded, in
   * any two orders and with any revisions, give the counter the same value.
   */
  lemma {:induction false} SameCommandsSameValue(a: Journal, b: Journal, runs: seq<Execution>, id: AggregateId)
    requires RecordsAll(a, runs) && RecordsAll(b, runs)
    requires forall k :: 0 <= k < |runs| && runs[k].written && runs[k].id == id ==> !runs[k].command.RandomizeTo?
    ensures ValueOf(a, id) == ValueOf(b, id) == Some(Wrapped(SumOf(runs, Written(runs), id)))
  {
    NeverRandomized(a, runs, id);
    NeverRandomized(b, runs, id);
    NothingRandomized(a, runs, id);
    NothingRandomized(b, runs, id);
  }

  lemma NeverRandomized(journal: Journal, runs: seq<Execution>, id: AggregateId)
    requires RecordsAll(journal, runs)
    requires forall k :: 0 <= k < |runs| && runs[k].written && runs[k].id == id ==> !runs[k].command.RandomizeTo?
    ensures NoneRandomizes(journal, 0, id)
  {
    forall i | 0 <= i < |journal| && Randomizes(journal[i], id)
      ensures false
    {
      EntryIsCommand(journal, runs, i);
      RandomizeIsCommand(journal[i], runs[journal[i].owner].command, id);
    }
  }

  /** The events of each change set, without their revisions. */
  function Published(log: Log): seq<seq<DomainEvent>> {
    seq(|log|, i requires 0 <= i < |log| => Payload(log[i].events))
  }

  function Flat(payloads: seq<seq<DomainEvent>>): seq<DomainEvent> {
    if payloads == [] then [] else payloads[0] + Flat(payloads[1..])
  }

  lemma {:induction false} FlatJoin(a: seq<seq<DomainEvent>>, b: seq<seq<DomainEvent>>)
    ensures Flat(a + b) == Flat(a) + Flat(b)
  {
    if a == [] {
      assert a + b == b;
    } else {
      assert (a + b)[1..] == a[1..] + b;
      FlatJoin(a[1..], b);
    }
  }

  lemma {:induction false} PublishedFlat(log: Log)
    ensures Flat(Published(log)) == PayloadOf(log)
  {
    if log != [] {
      var front, cs := log[..|log| - 1], log[|log| - 1];
      PublishedFlat(front);
      assert Published(log) == Published(front) + [Payload(cs.events)];
      FlatJoin(Published(front), [Payload(cs.events)]);
      assert [Payload(cs.events)][1..] == [];
      assert log == front + [cs];
      PayloadOfJoin(front, [cs]);
      OneChangeSet(cs);
    }
  }

  /** The same payloads in another order hold the same events. */
  lemma {:induction false} FlatPermuted(a: seq<seq<DomainEvent>>, b: seq<seq<DomainEvent>>)
    requires multiset(a) == multiset(b)
    ensures multiset(Flat(a)) == multiset(Flat(b))
  {
    if a == [] {
      assert |multiset(b)| == 0;
    } else {
      assert a[0] in multiset(b);
      var i :| 0 <= i < |b| && b[i] == a[0];
      var front, back := b[..i], b[i + 1..];
      WithoutFirst(a, b, front, back);
      FlatPermuted(a[1..], front + back);
      FlatJoin(front, [a[0]] + back);
      FlatJoin(front, back);
      FlatJoin([a[0]], back);
      assert [a[0]][1..] == [];
    }
  }

  lemma WithoutFirst(a: seq<seq<DomainEvent>>, b: seq<seq<DomainEvent>>,
                     front: seq<seq<DomainEvent>>, back: seq<seq<DomainEvent>>)
    requires a != [] && multiset(a) == multiset(b) && b == front + ([a[0]] + back)
    ensures multiset(a[1..]) == multiset(front + back)
  {
    assert a == [a[0]] + a[1..];
    assert multiset(a[1..]) == multiset(a) - multiset{a[0]};
  }

  lemma SameEventsPublished(a: Log, b: Log)
    requires multiset(Published(a)) == multiset(Published(b))
    ensures multiset(PayloadOf(a)) == multiset(PayloadOf(b))
  {
    FlatPermuted(Published(a), Published(b));
    PublishedFlat(a);
    PublishedFlat(b);
  }

  /**
   * Whoever published them: two logs of readable events without randomize that hold the same change sets in any two
   * orders, and with any revisions, give the counter the same value.
   */
  lemma {:induction false} CounterIgnoresInterleaving(a: Log, b: Log)
    requires multiset(Published(a)) == multiset(Published(b))
    requires AllReadable(PayloadOf(a)) && NoRandomize(PayloadOf(a))
    ensures Fold(REDUCERS, 0, PayloadOf(a)) == Fold(REDUCERS, 0, PayloadOf(b)) == Some(Wrapped(Total(PayloadOf(a))))
  {
    SameEventsPublished(a, b);
    InterleavingDoesNotMatter(0, PayloadOf(a), PayloadOf(b));
  }
}
