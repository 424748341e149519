/**
 * The command cycle: load and render an entity, run a handler that may publish, and load again if it did, while other
 * writers keep publishing.
 */
module Services {
  import opened Wrappers
  import opened Ulid
  import opened EventLog
  import opened Aggregates
  import opened Rendering

  /** One committed change set of any aggregate, with the command execution (or other writer) that made it. */
  datatype Entry = Entry(owner: nat, id: AggregateId, cs: ChangeSet)

  type Journal = seq<Entry>

  function LogFor(journal: Journal, id: AggregateId): Log {
    if journal == [] then []
    else
      var last := journal[|journal| - 1];
      LogFor(journal[..|journal| - 1], id) + if last.id == id then [last.cs] else []
  }

  datatype WriteOf = WriteOf(id: AggregateId, events: seq<DomainEvent>)

  /** What one owner wrote, in order; change sets without events do not count. */
  function WritesBy(journal: Journal, owner: nat): seq<WriteOf> {
    if journal == [] then []
    else
      var last := journal[|journal| - 1];
      WritesBy(journal[..|journal| - 1], owner) +
      if last.owner == owner && last.cs.events != [] then [WriteOf(last.id, Payload(last.cs.events))] else []
  }

  lemma AppendEntry(journal: Journal, e: Entry, id: AggregateId, owner: nat)
    ensures LogFor(journal + [e], id) == LogFor(journal, id) + if e.id == id then [e.cs] else []
    ensures WritesBy(journal + [e], owner) == WritesBy(journal, owner) +
      if e.owner == owner && e.cs.events != [] then [WriteOf(e.id, Payload(e.cs.events))] else []
  {
    assert (journal + [e])[..|journal|] == journal;
  }

  lemma {:induction false} LogForGrows(journal: Journal, n: nat, id: AggregateId)
    requires n <= |journal|
    ensures LogFor(journal[..n], id) <= LogFor(journal, id)
    decreases |journal|
  {
    if n < |journal| {
      assert journal[..n] == journal[..|journal| - 1][..n];
      LogForGrows(journal[..|journal| - 1], n, id);
    } else {
      assert journal[..n] == journal;
    }
  }

  /** The writes to one aggregate among them. */
  function WritesTo(writes: seq<WriteOf>, id: AggregateId): seq<seq<DomainEvent>> {
    if writes == [] then []
    else
      var last := writes[|writes| - 1];
      WritesTo(writes[..|writes| - 1], id) + if last.id == id then [last.events] else []
  }

  /** Where in an aggregate's log the change sets of one owner stand; those without events do not count. */
  function Places(journal: Journal, owner: nat, id: AggregateId): seq<nat> {
    if journal == [] then []
    else
      var front, last := journal[..|journal| - 1], journal[|journal| - 1];
      Places(front, owner, id) +
      if last.owner == owner && last.id == id && last.cs.events != [] then [|LogFor(front, id)|] else []
  }

  /** The log holds, from place `from` on and in order, all that the owner wrote to the aggregate. */
  ghost predicate OwnInLog(journal: Journal, owner: nat, id: AggregateId, from: nat) {
    StandIn(LogFor(journal, id), from, Places(journal, owner, id), WritesTo(WritesBy(journal, owner), id))
  }

  /** These writes are the payloads of the change sets at these increasing places of the log. */
  ghost predicate StandIn(log: Log, from: nat, places: seq<nat>, writes: seq<seq<DomainEvent>>) {
    && |places| == |writes|
    && (forall i :: 0 <= i < |places| ==> from <= places[i] < |log| && Payload(log[places[i]].events) == writes[i])
    && (forall i, j :: 0 <= i < j < |places| ==> places[i] < places[j])
  }

  lemma {:induction false} NothingWritten(journal: Journal, owner: nat, id: AggregateId)
    requires WritesBy(journal, owner) == []
    ensures Places(journal, owner, id) == []
  {
    if journal != [] {
      NothingWritten(journal[..|journal| - 1], owner, id);
    }
  }

  /** What an owner wrote after the journal had length `n` stands in each log past the change sets it had then. */
  lemma {:induction false} WritesAreInLog(journal: Journal, n: nat, owner: nat, id: AggregateId)
    requires n <= |journal| && WritesBy(journal[..n], owner) == []
    ensures OwnInLog(journal, owner, id, |LogFor(journal[..n], id)|)
    decreases |journal|
  {
    if n == |journal| {
      assert journal[..n] == journal;
      NothingWritten(journal, owner, id);
    } else {
      var front, last := journal[..|journal| - 1], journal[|journal| - 1];
      assert journal == front + [last];
      assert front[..n] == journal[..n];
      WritesAreInLog(front, n, owner, id);
      LogForGrows(front, n, id);
      OneMoreInLog(front, last, owner, id, |LogFor(journal[..n], id)|);
    }
  }

  lemma OneMoreInLog(journal: Journal, e: Entry, owner: nat, id: AggregateId, from: nat)
    requires OwnInLog(journal, owner, id, from) && from <= |LogFor(journal, id)|
    ensures OwnInLog(journal + [e], owner, id, from)
  {
    var log, places, writes := LogFor(journal, id), Places(journal, owner, id), WritesBy(journal, owner);
    AppendEntry(journal, e, id, owner);
    PlaceAppended(journal, e, owner, id);
    WriteAppended(writes, WriteOf(e.id, Payload(e.cs.events)), id);
    if e.owner == owner && e.id == id && e.cs.events != [] {
      OneMorePlace(log, from, places, WritesTo(writes, id), e.cs);
    } else {
      assert Places(journal + [e], owner, id) == places;
      if e.owner != owner || e.cs.events == [] {
        assert WritesBy(journal + [e], owner) == writes;
      }
      assert log <= LogFor(journal + [e], id);
      LongerLog(log, LogFor(journal + [e], id), from, places, WritesTo(writes, id));
    }
  }

  lemma OneMorePlace(log: Log, from: nat, places: seq<nat>, writes: seq<seq<DomainEvent>>, cs: ChangeSet)
    requires StandIn(log, from, places, writes) && from <= |log|
    ensures StandIn(log + [cs], from, places + [|log|], writes + [Payload(cs.events)])
  {
  }

  lemma LongerLog(log: Log, longer: Log, from: nat, places: seq<nat>, writes: seq<seq<DomainEvent>>)
    requires StandIn(log, from, places, writes) && log <= longer
    ensures StandIn(longer, from, places, writes)
  {
  }

  lemma PlaceAppended(journal: Journal, e: Entry, owner: nat, id: AggregateId)
    ensures Places(journal + [e], owner, id) == Places(journal, owner, id) +
      if e.owner == owner && e.id == id && e.cs.events != [] then [|LogFor(journal, id)|] else []
  {
    assert (journal + [e])[..|journal|] == journal;
  }

  lemma WriteAppended(writes: seq<WriteOf>, w: WriteOf, id: AggregateId)
    ensures WritesTo(writes + [w], id) == WritesTo(writes, id) + if w.id == id then [w.events] else []
  {
    assert (writes + [w])[..|writes|] == writes;
  }

  lemma {:induction false} WritesGrow(journal: Journal, n: nat, owner: nat)
    requires n <= |journal|
    ensures WritesBy(journal[..n], owner) <= WritesBy(journal, owner)
    decreases |journal|
  {
    if n < |journal| {
      assert journal[..n] == journal[..|journal| - 1][..n];
      WritesGrow(journal[..|journal| - 1], n, owner);
    } else {
      assert journal[..n] == journal;
    }
  }

  lemma NothingBefore(journal: Journal, n: nat, owner: nat)
    requires n <= |journal| && WritesBy(journal, owner) == []
    ensures WritesBy(journal[..n], owner) == []
  {
    WritesGrow(journal, n, owner);
  }

  // --- handlers --------------------------------------------------------------------------------------------

  datatype Request = Request(id: AggregateId, expected: Revision, events: seq<DomainEvent>)

  datatype PublishError = RevisionConflict | Rejected

  /** A command handler as the tree of its publishes and of what it does with each answer. */
  datatype Handler =
    | Return(error: Option<string>)
    | Publish(request: Request, ok: Handler, conflict: Handler, rejected: Handler)

  /** How a handler goes on after its publish was answered. */
  function After(handler: Handler, answer: Option<PublishError>): (next: Handler)
    requires handler.Publish?
    ensures next < handler
  {
    match answer
    case None => handler.ok
    case Some(RevisionConflict) => handler.conflict
    case Some(Rejected) => handler.rejected
  }

  /** These are the answers to all of the publishes that the handler makes. */
  predicate AnswersTo(handler: Handler, answers: seq<Option<PublishError>>) {
    if handler.Return? then answers == []
    else answers != [] && AnswersTo(After(handler, answers[0]), answers[1..])
  }

  /** The requests a handler got accepted, and its own result, when its publishes are answered like this. */
  function Walk(handler: Handler, answers: seq<Option<PublishError>>): (seq<Request>, Option<string>)
    requires AnswersTo(handler, answers)
  {
    if handler.Return? then ([], handler.error)
    else
      var (more, error) := Walk(After(handler, answers[0]), answers[1..]);
      (Accepted(handler.request, answers[0]) + more, error)
  }

  function Accepted(request: Request, answer: Option<PublishError>): seq<Request> {
    if answer.None? then [request] else []
  }

  /** All requests the handler made, accepted or not. */
  function Asked(handler: Handler, answers: seq<Option<PublishError>>): (requests: seq<Request>)
    requires AnswersTo(handler, answers)
    ensures |requests| == |answers|
  {
    if handler.Return? then [] else [handler.request] + Asked(After(handler, answers[0]), answers[1..])
  }

  function WritesOf(requests: seq<Request>): seq<WriteOf> {
    if requests == [] then []
    else
      (if requests[0].events != [] then [WriteOf(requests[0].id, requests[0].events)] else []) +
      WritesOf(requests[1..])
  }

  lemma {:induction false} WritesOfJoin(a: seq<Request>, b: seq<Request>)
    ensures WritesOf(a + b) == WritesOf(a) + WritesOf(b)
  {
    if a == [] {
      assert a + b == b;
    } else {
      assert (a + b)[1..] == a[1..] + b;
      WritesOfJoin(a[1..], b);
    }
  }

  lemma {:induction false} WalkOn(handler: Handler, answer: Option<PublishError>, rest: seq<Option<PublishError>>,
                                  before: seq<WriteOf>)
    requires handler.Publish? && AnswersTo(After(handler, answer), rest)
    ensures AnswersTo(handler, [answer] + rest)
    ensures Walk(handler, [answer] + rest).1 == Walk(After(handler, answer), rest).1
    ensures before + WritesOf(Walk(handler, [answer] + rest).0)
         == before + WritesOf(Accepted(handler.request, answer)) + WritesOf(Walk(After(handler, answer), rest).0)
  {
    assert ([answer] + rest)[1..] == rest;
    WritesOfJoin(Accepted(handler.request, answer), Walk(After(handler, answer), rest).0);
  }

  // --- the store and the tracking publisher ------------------------------------------------------------------

  /** Which requests a store accepts, given all that was committed before. */
  type Admission = (Journal, Request) -> bool

  /** How the backend of a store takes one publish; conflicts, because others are always faster, are retried in vain. */
  datatype Backend = Works | Fails | Conflicts

  /** How it takes each of the publishes of an execution. */
  type Backends = nat -> Backend

  /** How a publish is answered: whatever the store admits is accepted, unless its backend is in the way. */
  function Answer(admits: Admission, journal: Journal, request: Request, backend: Backend): Option<PublishError> {
    if backend.Fails? then Some(Rejected)
    else if !admits(journal, request) || (backend.Conflicts? && request.expected == "") then Some(RevisionConflict)
    else None
  }

  /** One more change set with the request's events; a store may pass over a request without events. */
  predicate Adds(before: Journal, me: nat, request: Request, after: Journal) {
    if |after| == |before| then after == before && request.events == []
    else
      && |after| == |before| + 1 && before <= after
      && after[|before|].owner == me && after[|before|].id == request.id
      && Payload(after[|before|].cs.events) == request.events
  }

  /**
   * One publish, as all stores do it: an accepted request adds its change set, an error adds nothing. A conflict is
   * reported to requests that are not accepted; without an expectation it means that the attempts were used up.
   */
  predicate Publishes(admits: Admission, before: Journal, me: nat, request: Request, error: Option<PublishError>,
                      after: Journal)
  {
    match error
    case None => admits(before, request) && Adds(before, me, request, after)
    case Some(e) => after == before && (e == RevisionConflict ==> request.expected == "" || !admits(before, request))
  }

  /** Which command execution or other writer a publish belongs to. */
  type Owners = nat -> nat

  /** One request of a run: the journals before and after it, and how the store answered it. */
  ghost predicate PublishAt(admits: Admission, owners: Owners, requests: seq<Request>,
                            answers: seq<Option<PublishError>>, journals: seq<Journal>, i: nat)
    requires i < |requests| && i < |answers| && i + 1 < |journals|
  {
    Publishes(admits, journals[i], owners(i), requests[i], answers[i], journals[i + 1])
  }

  /** The journals of a store that starts empty and gets these requests, one after another, with these answers. */
  ghost predicate PublishRun(admits: Admission, owners: Owners, requests: seq<Request>,
                             answers: seq<Option<PublishError>>, journals: seq<Journal>)
  {
    && |answers| == |requests| && |journals| == |requests| + 1 && journals[0] == []
    && forall i {:trigger PublishAt(admits, owners, requests, answers, journals, i)} ::
      0 <= i < |requests| ==> PublishAt(admits, owners, requests, answers, journals, i)
  }

  /**
   * What the answers of such a run mean: exactly the accepted requests with events have added a change set, their own;
   * each was admitted when it came, and a guarded request that was refused as a conflict was not.
   */
  lemma RunMeans(admits: Admission, owners: Owners, requests: seq<Request>, answers: seq<Option<PublishError>>,
                 journals: seq<Journal>, i: nat)
    requires PublishRun(admits, owners, requests, answers, journals) && i < |requests|
    ensures var before, after, request := journals[i], journals[i + 1], requests[i];
      && (answers[i] == None ==> admits(before, request))
      && (answers[i] == Some(RevisionConflict) && request.expected != "" ==> !admits(before, request))
      && before <= after && |after| <= |before| + 1
      && (request.events != [] ==> (|after| > |before| <==> answers[i] == None))
      && (|after| > |before| ==>
            after[|before|].owner == owners(i) && after[|before|].id == request.id
            && Payload(after[|before|].cs.events) == request.events)
  {
    assert PublishAt(admits, owners, requests, answers, journals, i);
  }

  lemma RunAppend(admits: Admission, owners: Owners, requests: seq<Request>, answers: seq<Option<PublishError>>,
                  journals: seq<Journal>, request: Request, answer: Option<PublishError>, journal: Journal)
    requires PublishRun(admits, owners, requests, answers, journals)
    requires Publishes(admits, journals[|requests|], owners(|requests|), request, answer, journal)
    ensures PublishRun(admits, owners, requests + [request], answers + [answer], journals + [journal])
  {
    forall i | 0 <= i <= |requests|
      ensures PublishAt(admits, owners, requests + [request], answers + [answer], journals + [journal], i)
    {
      assert i < |requests| ==> PublishAt(admits, owners, requests, answers, journals, i);
    }
  }

  /** Requests without expectation are always acceptable. */
  ghost predicate AcceptsUnguarded(admits: Admission) {
    forall journal, request: Request :: request.expected == "" ==> admits(journal, request)
  }

  /** These are the events of an aggregate as of the first `m` change sets, with `m` not before `oldest`. */
  ghost predicate LoadedAt(journal: Journal, id: AggregateId, oldest: nat, m: nat, events: seq<RecordedEvent>) {
    oldest <= m <= |journal| && events == Events(LogFor(journal[..m], id))
  }

  lemma PublishedWrites(admits: Admission, before: Journal, me: nat, request: Request, error: Option<PublishError>,
                        after: Journal)
    requires Publishes(admits, before, me, request, error, after)
    ensures before <= after
    ensures WritesBy(after, me) == WritesBy(before, me) + WritesOf(Accepted(request, error))
  {
    if error.None? && |after| != |before| {
      var e := after[|before|];
      assert after == before + [e];
      AppendEntry(before, e, request.id, me);
      assert request.events == [] <==> e.cs.events == [];
    }
    assert [request][1..] == [];
  }

  /**
   * A store, which accepts what `admits` says. A consistent one answers a load from a state that is not older than the
   * load's start; any other may answer from any earlier state, as DynamoDB does without consistent reads.
   */
  class EventStore {
    const admits: Admission
    const consistent: bool
    var journal: Journal

    constructor (admits: Admission, consistent: bool)
      ensures this.admits == admits && this.consistent == consistent && journal == []
    {
      this.admits := admits;
      this.consistent := consistent;
      journal := [];
    }

    /** The events of an aggregate as of the first `m` change sets, or nothing if the load fails. */
    method Load(me: nat, id: AggregateId, fails: bool) returns (events: Option<seq<RecordedEvent>>, ghost m: nat)
      modifies this`journal
      ensures old(journal) <= journal && WritesBy(journal, me) == old(WritesBy(journal, me))
      ensures m <= |journal| && (consistent ==> |old(journal)| <= m)
      ensures if fails then events == None
        else events.Some? && LoadedAt(journal, id, if consistent then |old(journal)| else 0, m, events.value)
    {
      var oldest := if consistent then |journal| else 0;
      Interfere(me);
      var moment: nat :| oldest <= moment <= |journal|;
      m := moment;
      events := if fails then None else Some(Events(LogFor(journal[..moment], id)));
    }

    /** Any number of commits by owners other than `me`. */
    method Interfere(me: nat)
      modifies this`journal
      ensures old(journal) <= journal && WritesBy(journal, me) == old(WritesBy(journal, me))
    {
      var n: nat := *;
      while n > 0
        invariant old(journal) <= journal && WritesBy(journal, me) == old(WritesBy(journal, me))
      {
        var e: Entry := *;
        if e.owner != me {
          AppendEntry(journal, e, e.id, me);
          journal := journal + [e];
        }
        n := n - 1;
      }
    }

    /** Commits the request's events as one change set if the store accepts it, or fails and commits nothing. */
    method Publish(me: nat, request: Request, backend: Backend) returns (error: Option<PublishError>)
      modifies this`journal
      ensures Publishes(admits, old(journal), me, request, error, journal)
      ensures !backend.Fails? && (backend.Works? || request.expected != "") ==>
        (error == None <==> admits(old(journal), request)) && error != Some(Rejected)
      ensures backend.Fails? ==> error == Some(Rejected)
      ensures error == Answer(admits, old(journal), request, backend)
      ensures old(journal) <= journal
      ensures WritesBy(journal, me) == old(WritesBy(journal, me)) + WritesOf(Accepted(request, error))
    {
      ghost var before := journal;
      error := Attempt(me, request, backend);
      PublishedWrites(admits, before, me, request, error, journal);
    }

    method Attempt(me: nat, request: Request, backend: Backend) returns (error: Option<PublishError>)
      modifies this`journal
      ensures Publishes(admits, old(journal), me, request, error, journal)
      ensures error == Answer(admits, old(journal), request, backend)
    {
      if backend.Fails? {
        return Some(Rejected);
      }
      if !admits(journal, request) || (backend.Conflicts? && request.expected == "") {
        return Some(RevisionConflict);
      }
      error := None;
      var silent: bool := *;
      if request.events == [] && silent {
        return;
      }
      var revision: Revision :| |revision| >= 0;
      var events := seq(|request.events|, i requires 0 <= i < |request.events| =>
        RecordedEvent(revision, request.events[i]));
      assert Payload(events) == request.events;
      journal := journal + [Entry(me, request.id, ChangeSet(revision, events))];
    }
  }

  // --- where a handler's publishes were answered ---------------------------------------------------------------

  /** The request was answered like this when the journal had its first `p` change sets. */
  ghost predicate AnsweredAt(admits: Admission, journal: Journal, me: nat, p: nat, request: Request, backend: Backend,
                             answer: Option<PublishError>)
  {
    p <= |journal| && answer == Answer(admits, journal[..p], request, backend) &&
    (Publishes(admits, journal[..p], me, request, answer, journal[..p]) ||
     (p < |journal| && Publishes(admits, journal[..p], me, request, answer, journal[..p + 1])))
  }

  /**
   * The handler's publishes, of which the first is the execution's `n`th, were answered at these places of the journal,
   * one after another, from `from` on.
   */
  ghost predicate Answered(admits: Admission, journal: Journal, me: nat, from: nat, handler: Handler,
                           backends: Backends, n: nat, answers: seq<Option<PublishError>>, places: seq<nat>)
    requires AnswersTo(handler, answers)
    decreases handler
  {
    if handler.Return? then places == []
    else
      && places != [] && from <= places[0]
      && AnsweredAt(admits, journal, me, places[0], handler.request, backends(n), answers[0])
      && Answered(admits, journal, me, places[0], After(handler, answers[0]), backends, n + 1,
                  answers[1..], places[1..])
  }

  lemma AnsweredAtLater(admits: Admission, journal: Journal, longer: Journal, me: nat, p: nat, request: Request,
                        backend: Backend, answer: Option<PublishError>)
    requires AnsweredAt(admits, journal, me, p, request, backend, answer) && journal <= longer
    ensures AnsweredAt(admits, longer, me, p, request, backend, answer)
  {
    assert longer[..p] == journal[..p];
    assert p < |journal| ==> longer[..p + 1] == journal[..p + 1];
  }

  lemma {:induction false} AnsweredLater(admits: Admission, journal: Journal, longer: Journal, me: nat, from: nat,
                                         handler: Handler, backends: Backends, n: nat,
                                         answers: seq<Option<PublishError>>, places: seq<nat>)
    requires AnswersTo(handler, answers) && journal <= longer
    requires Answered(admits, journal, me, from, handler, backends, n, answers, places)
    ensures Answered(admits, longer, me, from, handler, backends, n, answers, places)
    decreases handler
  {
    if handler.Publish? {
      var next, rest, more := After(handler, answers[0]), answers[1..], places[1..];
      AnsweredAtLater(admits, journal, longer, me, places[0], handler.request, backends(n), answers[0]);
      AnsweredLater(admits, journal, longer, me, places[0], next, backends, n + 1, rest, more);
    }
  }

  lemma AnsweredFirst(admits: Admission, journal: Journal, me: nat, place: nat, from: nat, handler: Handler,
                      backends: Backends, n: nat, answer: Option<PublishError>, rest: seq<Option<PublishError>>,
                      more: seq<nat>)
    requires handler.Publish? && AnswersTo(After(handler, answer), rest) && place <= from
    requires AnsweredAt(admits, journal, me, place, handler.request, backends(n), answer)
    requires Answered(admits, journal, me, from, After(handler, answer), backends, n + 1, rest, more)
    ensures AnswersTo(handler, [answer] + rest)
    ensures Answered(admits, journal, me, place, handler, backends, n, [answer] + rest, [place] + more)
  {
    assert ([answer] + rest)[1..] == rest && ([place] + more)[1..] == more;
  }

  /** One of the requests: where it was answered. */
  lemma {:induction false} AskedAnswered(admits: Admission, journal: Journal, me: nat, from: nat, handler: Handler,
                                         backends: Backends, n: nat, answers: seq<Option<PublishError>>,
                                         places: seq<nat>, k: nat)
    requires AnswersTo(handler, answers) && k < |answers|
    requires Answered(admits, journal, me, from, handler, backends, n, answers, places)
    ensures |places| == |answers| && from <= places[k]
    ensures AnsweredAt(admits, journal, me, places[k], Asked(handler, answers)[k], backends(n + k), answers[k])
    decreases handler
  {
    if |answers| > 1 {
      var next, rest, more := After(handler, answers[0]), answers[1..], places[1..];
      AskedAnswered(admits, journal, me, places[0], next, backends, n + 1, rest, more, if k > 0 then k - 1 else 0);
    } else {
      assert After(handler, answers[0]).Return?;
    }
  }

  /** Remembers whether the handler published any events. */
  class TrackingPublisher {
    const store: EventStore
    const me: nat
    var published: bool

    /** The flag says exactly whether this execution has written events. */
    ghost predicate Valid()
      reads this, store
    {
      published <==> WritesBy(store.journal, me) != []
    }

    constructor (store: EventStore, me: nat)
      requires WritesBy(store.journal, me) == []
      ensures Valid() && this.store == store && this.me == me
    {
      this.store := store;
      this.me := me;
      published := false;
    }

    method Publish(request: Request, backend: Backend) returns (error: Option<PublishError>, ghost place: nat)
      requires Valid()
      modifies this`published, store
      ensures Valid() && old(store.journal) <= store.journal
      ensures |old(store.journal)| <= place
      ensures AnsweredAt(store.admits, store.journal, me, place, request, backend, error)
      ensures WritesBy(store.journal, me)
           == old(WritesBy(store.journal, me)) + WritesOf(Accepted(request, error))
    {
      store.Interfere(me);
      ghost var before := store.journal;
      place := |before|;
      error := store.Publish(me, request, backend);
      assert store.journal[..place] == before && store.journal[..|store.journal|] == store.journal;
      if error.None? {
        published := published || |request.events| > 0;
      }
    }

    /** Runs a handler to its end; `answers` is what its publishes returned, at these places of the journal. */
    method Run(handler: Handler, backends: Backends, n: nat)
      returns (error: Option<string>, ghost answers: seq<Option<PublishError>>, ghost places: seq<nat>)
      requires Valid()
      modifies this`published, store
      ensures Valid() && old(store.journal) <= store.journal
      ensures AnswersTo(handler, answers) && error == Walk(handler, answers).1
      ensures Answered(store.admits, store.journal, me, |old(store.journal)|, handler, backends, n, answers, places)
      ensures WritesBy(store.journal, me) == old(WritesBy(store.journal, me)) + WritesOf(Walk(handler, answers).0)
      decreases handler
    {
      if handler.Return? {
        error, answers, places := handler.error, [], [];
      } else {
        var answer;
        ghost var place, rest, more;
        answer, place := Publish(handler.request, backends(n));
        ghost var after := store.journal;
        error, rest, more := Run(After(handler, answer), backends, n + 1);
        WalkOn(handler, answer, rest, old(WritesBy(store.journal, me)));
        answers, places := [answer] + rest, [place] + more;
        AnsweredAtLater(store.admits, after, store.journal, me, place, handler.request, backends(n), answer);
        AnsweredFirst(store.admits, store.journal, me, place, |after|, handler, backends, n, answer, rest, more);
      }
    }
  }

  // --- dispatch and execute ------------------------------------------------------------------------------------

  datatype Entity<T> = Entity(aggregate: AggregateId, revision: Revision, state: T) {
    predicate Initialized() {
      revision != INITIAL_REVISION
    }
  }

  datatype Command = Command(name: string, remote: bool, payload: Data)

  datatype ServiceError =
    | CommandNotFound(name: string)
    | UnsupportedEncoding
    | HandlerFailed(message: string)
    | LoadFailed
    | RenderFailed

  /** Which of an execution's two loads fail in the store, and how its backend takes the publishes. */
  datatype Outages = Outages(first: bool, reload: bool, publishes: Backends)

  /**
   * What happened in an execution: the first load saw the first `n` change sets of the journal, the handler's
   * publishes were answered so at these places of it, and the reload saw the first `m`.
   */
  datatype Trace<T> = Trace(n: nat, first: Result<Entity<T>, ServiceError>, answers: seq<Option<PublishError>>,
                            places: seq<nat>, m: nat)

  type Handlers<!T> = map<string, (Entity<T>, Data) -> Handler>

  class EntityService<T> {
    const store: EventStore
    const reducers: Reducers<T>
    const initial: T
    const handlers: Handlers<T>

    constructor (store: EventStore, reducers: Reducers<T>, initial: T, handlers: Handlers<T>)
      ensures this.store == store && this.reducers == reducers && this.initial == initial && this.handlers == handlers
    {
      this.store := store;
      this.reducers := reducers;
      this.initial := initial;
      this.handlers := handlers;
    }

    /** The entity is the rendering of the aggregate's log in this journal. */
    ghost predicate Renders(journal: Journal, id: AggregateId, entity: Entity<T>) {
      var events := Events(LogFor(journal, id));
      && entity.aggregate == id
      && entity.revision == RevisionFrom(events)
      && Fold(reducers, initial, Payload(events)) == Some(entity.state)
    }

    /** What loading comes to: the store fails, or a reducer refuses, or the entity is the rendering. */
    ghost predicate Loaded(journal: Journal, id: AggregateId, fails: bool, r: Result<Entity<T>, ServiceError>) {
      if fails then r == Err(LoadFailed)
      else match r
        case Ok(entity) => Renders(journal, id, entity)
        case Err(e) => e == RenderFailed && Fold(reducers, initial, Payload(Events(LogFor(journal, id)))) == None
    }

    method Load(me: nat, id: AggregateId, fails: bool) returns (r: Result<Entity<T>, ServiceError>, ghost m: nat)
      modifies store
      ensures old(store.journal) <= store.journal
      ensures WritesBy(store.journal, me) == old(WritesBy(store.journal, me))
      ensures m <= |store.journal| && (store.consistent ==> |old(store.journal)| <= m)
      ensures Loaded(store.journal[..m], id, fails, r)
    {
      var events;
      events, m := store.Load(me, id, fails);
      if events.None? {
        return Err(LoadFailed), m;
      }
      var state := Render(reducers, initial, events.value);
      r := if state.Some? then Ok(Entity(id, RevisionFrom(events.value), state.value)) else Err(RenderFailed);
    }

    /**
     * Routes a command: without a handler, or remote in another encoding, it publishes nothing. The flag is true
     * exactly if events were published, also when the handler fails afterwards.
     */
    method Dispatch(me: nat, entity: Entity<T>, command: Command, backends: Backends)
      returns (published: bool, error: Option<ServiceError>, ghost answers: seq<Option<PublishError>>,
               ghost places: seq<nat>)
      requires WritesBy(store.journal, me) == []
      modifies store
      ensures old(store.journal) <= store.journal
      ensures published <==> WritesBy(store.journal, me) != []
      ensures error == Some(CommandNotFound(command.name)) <==> command.name !in handlers
      ensures error == Some(UnsupportedEncoding) <==>
        command.name in handlers && command.remote && command.payload.encoding != "application/json"
      ensures
        if command.name !in handlers || (command.remote && command.payload.encoding != "application/json") then
          answers == [] && places == [] && !published
        else
          var handler := handlers[command.name](entity, command.payload);
          && AnswersTo(handler, answers)
          && Answered(store.admits, store.journal, me, |old(store.journal)|, handler, backends, 0, answers, places)
          && WritesBy(store.journal, me) == WritesOf(Walk(handler, answers).0)
          && error == match Walk(handler, answers).1
                      case None => None
                      case Some(message) => Some(HandlerFailed(message))
    {
      answers, places := [], [];
      if command.name !in handlers {
        return false, Some(CommandNotFound(command.name)), answers, places;
      }
      if command.remote && command.payload.encoding != JSON {
        return false, Some(UnsupportedEncoding), answers, places;
      }
      var tracking := new TrackingPublisher(store, me);
      var failure;
      failure, answers, places := tracking.Run(handlers[command.name](entity, command.payload), backends, 0);
      published := tracking.published;
      error := if failure.Some? then Some(HandlerFailed(failure.value)) else None;
    }

    /**
     * What an execution comes to. If the handler succeeds and wrote something, the result is that of the reload, which
     * may fail although the events are written; if it wrote nothing, it is the entity of the first load. The reload
     * holds what the command had written by then, in order and past the change sets of the first load.
     */
    ghost predicate Executed(journal: Journal, me: nat, id: AggregateId, command: Command, outages: Outages,
                             r: Result<Entity<T>, ServiceError>, trace: Trace<T>)
    {
      && trace.n <= |journal| && trace.m <= |journal|
      && WritesBy(journal[..trace.n], me) == []
      && Loaded(journal[..trace.n], id, outages.first, trace.first)
      && Holds(journal, me, id, trace.n, trace.m)
      && if trace.first.Err? then r == trace.first && Silent(journal, me, trace)
         else Reacted(journal, me, id, command, outages, r, trace)
    }

    /**
     * The log as of the first `m` change sets holds the writes that are among them, past those of the first `n`. In a
     * consistent store these are all of the writes, and the log extends that of the first load.
     */
    ghost predicate Holds(journal: Journal, me: nat, id: AggregateId, n: nat, m: nat)
      requires n <= |journal| && m <= |journal|
    {
      && OwnInLog(journal[..m], me, id, |LogFor(journal[..if n <= m then n else m], id)|)
      && WritesBy(journal[..m], me) <= WritesBy(journal, me)
      && (store.consistent ==>
            && n <= m && LogFor(journal[..n], id) <= LogFor(journal[..m], id)
            && WritesBy(journal[..m], me) == WritesBy(journal, me))
    }

    /** Nothing was published, nor tried. */
    ghost predicate Silent(journal: Journal, me: nat, trace: Trace<T>) {
      WritesBy(journal, me) == [] && trace.answers == [] && trace.places == []
    }

    /** What dispatching the command to the loaded entity comes to, with the reload afterwards. */
    ghost predicate Reacted(journal: Journal, me: nat, id: AggregateId, command: Command, outages: Outages,
                            r: Result<Entity<T>, ServiceError>, trace: Trace<T>)
      requires trace.m <= |journal| && trace.first.Ok?
    {
      if command.name !in handlers then r == Err(CommandNotFound(command.name)) && Silent(journal, me, trace)
      else if command.remote && command.payload.encoding != JSON then
        r == Err(UnsupportedEncoding) && Silent(journal, me, trace)
      else Ran(journal, me, id, handlers[command.name](trace.first.value, command.payload), outages, r, trace)
    }

    /** What running a handler comes to. */
    ghost predicate Ran(journal: Journal, me: nat, id: AggregateId, handler: Handler, outages: Outages,
                        r: Result<Entity<T>, ServiceError>, trace: Trace<T>)
      requires trace.m <= |journal|
    {
      && AnswersTo(handler, trace.answers)
      && Answered(store.admits, journal, me, trace.n, handler, outages.publishes, 0, trace.answers, trace.places)
      && WritesBy(journal, me) == WritesOf(Walk(handler, trace.answers).0)
      && match Walk(handler, trace.answers).1
         case Some(message) => r == Err(HandlerFailed(message))
         case None =>
           if WritesBy(journal, me) == [] then r == trace.first
           else Loaded(journal[..trace.m], id, outages.reload, r)
    }

    /** Dispatches the command, and loads again if it wrote something, which it did within the first `written`. */
    method React(me: nat, id: AggregateId, command: Command, first: Result<Entity<T>, ServiceError>, outages: Outages,
                 ghost n: nat)
      returns (r: Result<Entity<T>, ServiceError>, ghost trace: Trace<T>, ghost written: nat)
      requires WritesBy(store.journal, me) == [] && first.Ok? && n <= |store.journal|
      modifies store
      ensures old(store.journal) <= store.journal
      ensures trace.n == n && trace.first == first && trace.m <= |store.journal|
      ensures |old(store.journal)| <= written <= |store.journal|
      ensures WritesBy(store.journal[..written], me) == WritesBy(store.journal, me)
      ensures store.consistent ==> written <= trace.m
      ensures Reacted(store.journal, me, id, command, outages, r, trace)
    {
      var published, error;
      ghost var answers, places;
      published, error, answers, places := Dispatch(me, first.value, command, outages.publishes);
      ghost var dispatched := store.journal;
      ghost var m := |store.journal|;
      written := m;
      if error.Some? {
        r := Err(error.value);
      } else if !published {
        r := first;
      } else {
        r, m := Load(me, id, outages.reload);
      }
      trace := Trace(n, first, answers, places, m);
      assert store.journal[..written] == dispatched;
      if command.name in handlers && !(command.remote && command.payload.encoding != JSON) {
        var handler := handlers[command.name](first.value, command.payload);
        AnsweredLater(store.admits, dispatched, store.journal, me, n, handler, outages.publishes, 0, answers, places);
      }
    }

    /** Executes a command: load, dispatch, and load again if it wrote something. */
    method Execute(me: nat, id: AggregateId, command: Command, outages: Outages)
      returns (r: Result<Entity<T>, ServiceError>, ghost trace: Trace<T>)
      requires WritesBy(store.journal, me) == []
      modifies store
      ensures old(store.journal) <= store.journal
      ensures store.consistent ==> |old(store.journal)| <= trace.n
      ensures Executed(store.journal, me, id, command, outages, r, trace)
      ensures trace.first.Ok? ==>
        && (r == Err(CommandNotFound(command.name)) <==> command.name !in handlers)
        && (r == Err(UnsupportedEncoding) <==>
            command.name in handlers && command.remote && command.payload.encoding != "application/json")
        && (command.name in handlers && !(command.remote && command.payload.encoding != "application/json") ==>
            Ran(store.journal, me, id, handlers[command.name](trace.first.value, command.payload), outages, r, trace))
    {
      var entity;
      ghost var n, written;
      entity, n := Load(me, id, outages.first);
      ghost var loaded := store.journal;
      if entity.Err? {
        r, written := entity, |loaded|;
        trace := Trace(n, entity, [], [], written);
        assert loaded[..written] == loaded;
      } else {
        r, trace, written := React(me, id, command, entity, outages, n);
      }
      assert loaded[..n] == store.journal[..n];
      NothingBefore(loaded, n, me);
      HoldsWrites(store.journal, me, id, n, written, trace.m);
    }

    lemma HoldsWrites(journal: Journal, me: nat, id: AggregateId, n: nat, written: nat, m: nat)
      requires n <= written <= |journal| && m <= |journal| && WritesBy(journal[..n], me) == []
      requires WritesBy(journal[..written], me) == WritesBy(journal, me)
      requires store.consistent ==> written <= m
      ensures Holds(journal, me, id, n, m)
    {
      var from := if n <= m then n else m;
      assert journal[..n][..from] == journal[..m][..from] == journal[..from];
      WritesGrow(journal[..n], from, me);
      WritesAreInLog(journal[..m], from, me, id);
      WritesGrow(journal, m, me);
      if store.consistent {
        assert journal[..m][..written] == journal[..written];
        WritesGrow(journal[..m], written, me);
        LogForGrows(journal[..m], n, id);
      }
    }
  }
}
