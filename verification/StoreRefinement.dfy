/**
 * The three stores behind the interface that the services use: every run of each has a journal at every moment; each
 * request and the store's answer to it are one publish of the interface, with the store's own admission; and what the
 * store loads is a load of that journal.
 */
module StoreRefinement {
  import opened Wrappers
  import opened Ulid
  import opened EventLog
  import opened Aggregates
  import opened Services
  import DynamoTable
  import DynamoProtocol
  import DynamoRuns
  import DynamoStore
  import JetStream
  import EventStoreDb

  /** The ids whose encodings do not mix. */
  predicate DotFree(id: AggregateId) {
    '.' !in id.kind
  }

  /** The id that a key encodes. */
  function IdOf(key: string): AggregateId {
    Decode(key).GetOr(AggregateId("", key))
  }

  lemma DottedKey(key: string)
    requires '.' in key
    ensures DotFree(IdOf(key)) && Encode(IdOf(key)) == key
  {
    EncodeDecode(key);
  }

  // --- DynamoDB --------------------------------------------------------------------------------------------

  /** The commit history, seen as a journal. */
  ghost predicate CommitsAre(commits: seq<DynamoProtocol.Commit>, journal: Journal) {
    && |commits| == |journal|
    && forall i {:trigger IsCommitAt(commits, journal, i)} :: 0 <= i < |journal| ==> IsCommitAt(commits, journal, i)
  }

  ghost predicate IsCommitAt(commits: seq<DynamoProtocol.Commit>, journal: Journal, i: nat)
    requires i < |commits| && i < |journal|
  {
    DotFree(journal[i].id) && commits[i].pk == Encode(journal[i].id) && commits[i].cs == journal[i].cs
  }

  lemma CommitsPrefix(commits: seq<DynamoProtocol.Commit>, journal: Journal, n: nat)
    requires CommitsAre(commits, journal) && n <= |journal|
    ensures CommitsAre(commits[..n], journal[..n])
  {
    forall i | 0 <= i < n
      ensures IsCommitAt(commits[..n], journal[..n], i)
    {
      assert IsCommitAt(commits, journal, i);
    }
  }

  /** What the abstract log promises. */
  predicate AsPromised(journal: Journal, request: Request) {
    Admits(LogFor(journal, request.id), request.expected)
  }

  lemma {:induction false} DynamoLog(commits: seq<DynamoProtocol.Commit>, journal: Journal, id: AggregateId)
    requires CommitsAre(commits, journal) && DotFree(id)
    ensures LogFor(journal, id) == DynamoProtocol.LogOf(commits, Encode(id))
  {
    if journal != [] {
      var n := |journal| - 1;
      assert IsCommitAt(commits, journal, n);
      CommitsPrefix(commits, journal, n);
      DynamoLog(commits[..n], journal[..n], id);
      EncodeInjective(journal[n].id, id);
    }
  }

  /**
   * The conditional write of a DynamoDB publish is one publish of the interface, which accepts exactly what the
   * abstract log promises; every other step leaves the journal alone.
   */
  lemma DynamoWriteRefines(s: DynamoProtocol.State, call: nat, journal: Journal, me: nat, id: AggregateId)
    requires DynamoProtocol.Headed(s) && DynamoProtocol.Revised(s)
    requires DynamoProtocol.Complete(s, call) && CommitsAre(s.commits, journal)
    requires DotFree(id) && s.calls[call].pk == Encode(id)
    ensures var t, request := DynamoProtocol.Wrote(s, call), Request(id, s.calls[call].expected, s.calls[call].events);
      if DynamoProtocol.Commits(s, call) then
        var after := journal + [Entry(me, id, DynamoProtocol.ChangeSetOf(s, call))];
        Publishes(AsPromised, journal, me, request, None, after) && CommitsAre(t.commits, after)
      else
        Publishes(AsPromised, journal, me, request, Some(RevisionConflict), journal) && CommitsAre(t.commits, journal)
  {
    DynamoWriteAccepts(s, call, journal, id);
    if DynamoProtocol.Commits(s, call) {
      var c, e := DynamoProtocol.CommitOf(s, call), Entry(me, id, DynamoProtocol.ChangeSetOf(s, call));
      DynamoProtocol.MadeOf(s.calls[call].events, s.calls[call].phase.drawn);
      CommitAppended(s.commits, journal, c, e);
      assert DynamoProtocol.Wrote(s, call).commits == s.commits + [c];
    } else {
      assert DynamoProtocol.Wrote(s, call).commits == s.commits;
    }
  }

  lemma DynamoWriteAccepts(s: DynamoProtocol.State, call: nat, journal: Journal, id: AggregateId)
    requires DynamoProtocol.Headed(s) && DynamoProtocol.Revised(s)
    requires DynamoProtocol.Complete(s, call) && CommitsAre(s.commits, journal)
    requires DotFree(id) && s.calls[call].pk == Encode(id)
    ensures var expected := s.calls[call].expected;
      if expected == "" then Admits(LogFor(journal, id), expected)
      else DynamoProtocol.Commits(s, call) <==> Admits(LogFor(journal, id), expected)
  {
    var p, log, expected := DynamoTable.At(s.table, Encode(id)), LogFor(journal, id), s.calls[call].expected;
    DynamoLog(s.commits, journal, id);
    assert DynamoProtocol.HeadedAt(s, Encode(id));
    DynamoTable.WriteFollowsExactlyWhen(p, log, expected, DynamoProtocol.ChangeSetOf(s, call));
    DynamoProtocol.RevisedLog(s.commits, Encode(id));
    DynamoTable.FollowsIsAdmits(log, expected);
  }

  lemma CommitAppended(commits: seq<DynamoProtocol.Commit>, journal: Journal, c: DynamoProtocol.Commit, e: Entry)
    requires CommitsAre(commits, journal) && DotFree(e.id) && c.pk == Encode(e.id) && c.cs == e.cs
    ensures CommitsAre(commits + [c], journal + [e])
  {
    forall i | 0 <= i <= |journal|
      ensures IsCommitAt(commits + [c], journal + [e], i)
    {
      assert i < |journal| ==> IsCommitAt(commits, journal, i);
    }
  }

  function JournalOf(commits: seq<DynamoProtocol.Commit>, owners: Owners): Journal {
    seq(|commits|, i requires 0 <= i < |commits| => Entry(owners(commits[i].call), IdOf(commits[i].pk), commits[i].cs))
  }

  /** Calls are made for aggregates, whose encodings have a dot. */
  predicate ForAggregates(steps: seq<DynamoProtocol.Step>) {
    forall i :: 0 <= i < |steps| && steps[i].Begin? ==> '.' in steps[i].pk
  }

  ghost predicate AllDotted(s: DynamoProtocol.State) {
    && (forall call :: call in s.calls ==> '.' in s.calls[call].pk)
    && (forall i :: 0 <= i < |s.commits| ==> '.' in s.commits[i].pk)
  }

  lemma {:induction false} RunDotted(history: seq<DynamoProtocol.State>, steps: seq<DynamoProtocol.Step>, i: nat)
    requires DynamoRuns.IsRun(history, steps) && i < |history| && ForAggregates(steps)
    ensures AllDotted(history[i])
  {
    if i > 0 {
      RunDotted(history, steps, i - 1);
      DottedStep(history[i - 1], steps[i - 1], history[i]);
    }
  }

  lemma DottedStep(s: DynamoProtocol.State, step: DynamoProtocol.Step, t: DynamoProtocol.State)
    requires AllDotted(s) && DynamoProtocol.Apply(s, step) == Some(t)
    requires step.Begin? ==> '.' in step.pk
    ensures AllDotted(t)
  {
  }

  lemma JournalOfCommits(commits: seq<DynamoProtocol.Commit>, owners: Owners)
    requires forall i :: 0 <= i < |commits| ==> '.' in commits[i].pk
    ensures CommitsAre(commits, JournalOf(commits, owners))
  {
    forall i | 0 <= i < |commits|
      ensures IsCommitAt(commits, JournalOf(commits, owners), i)
    {
      DottedKey(commits[i].pk);
    }
  }

  /** The answer that a call has got by its phase; a conflict that is retried is one too. */
  function AnswerIn(phase: DynamoProtocol.Phase): Option<PublishError> {
    if phase.Committed? then None
    else if phase.Ready? || phase == DynamoProtocol.Failed(DynamoProtocol.RevisionConflict) then Some(RevisionConflict)
    else Some(Rejected)
  }

  /**
   * What a step does to the journal: a write is one publish of its call's request, with the answer that the call gets,
   * which is never another error than a conflict; any other step does nothing.
   */
  ghost predicate DynamoStepRefines(s: DynamoProtocol.State, step: DynamoProtocol.Step, t: DynamoProtocol.State,
                                    before: Journal, after: Journal, owners: Owners)
  {
    if step.Write? then
      && step.id in s.calls && step.id in t.calls
      && var call, answer := s.calls[step.id], AnswerIn(t.calls[step.id].phase);
      && Publishes(AsPromised, before, owners(step.id), Request(IdOf(call.pk), call.expected, call.events), answer,
                   after)
      && answer != Some(Rejected)
    else after == before
  }

  lemma DynamoStep(history: seq<DynamoProtocol.State>, steps: seq<DynamoProtocol.Step>, i: nat, owners: Owners)
    requires DynamoRuns.IsNonZeroRun(history, steps) && i < |steps| && AllDotted(history[i])
    ensures DynamoStepRefines(history[i], steps[i], history[i + 1], JournalOf(history[i].commits, owners),
                              JournalOf(history[i + 1].commits, owners), owners)
  {
    assert DynamoProtocol.Apply(history[i], steps[i]) == Some(history[i + 1]);
    if steps[i].Write? {
      DynamoRuns.WriteOutcome(history, steps, i);
      DynamoRuns.AdmittedIsCommits(history, steps, i, steps[i].id);
      DynamoRuns.RunHeads(history, steps, i);
      DynamoRuns.RunRevised(history, steps, i);
      DynamoWriteStep(history[i], steps[i].id, history[i + 1], owners);
    } else {
      assert history[i + 1].commits == history[i].commits;
    }
  }

  lemma DynamoWriteStep(s: DynamoProtocol.State, call: nat, t: DynamoProtocol.State, owners: Owners)
    requires DynamoProtocol.Headed(s) && DynamoProtocol.Revised(s) && AllDotted(s)
    requires DynamoProtocol.Complete(s, call) && t == DynamoProtocol.Wrote(s, call) && call in t.calls
    requires t.calls[call].phase.Committed? <==> DynamoProtocol.Commits(s, call)
    requires t.calls[call].phase == DynamoProtocol.Committed || t.calls[call].phase == DynamoProtocol.Ready
          || t.calls[call].phase == DynamoProtocol.Failed(DynamoProtocol.RevisionConflict)
    ensures DynamoStepRefines(s, DynamoProtocol.Write(call), t, JournalOf(s.commits, owners),
                              JournalOf(t.commits, owners), owners)
  {
    var journal, id := JournalOf(s.commits, owners), IdOf(s.calls[call].pk);
    JournalOfCommits(s.commits, owners);
    DottedKey(s.calls[call].pk);
    DynamoWriteRefines(s, call, journal, owners(call), id);
    if DynamoProtocol.Commits(s, call) {
      assert t.commits == s.commits + [DynamoProtocol.CommitOf(s, call)];
      JournalAppend(s.commits, DynamoProtocol.CommitOf(s, call), owners);
    } else {
      assert t.commits == s.commits;
    }
  }

  lemma JournalAppend(commits: seq<DynamoProtocol.Commit>, c: DynamoProtocol.Commit, owners: Owners)
    ensures JournalOf(commits + [c], owners) == JournalOf(commits, owners) + [Entry(owners(c.call), IdOf(c.pk), c.cs)]
  {
  }

  /**
   * Every run of the DynamoDB protocol without an all-zero draw has a journal at each state: each write is one publish
   * of its call's request, which is accepted as the log promises, and no other step changes it.
   */
  lemma DynamoRunRefines(history: seq<DynamoProtocol.State>, steps: seq<DynamoProtocol.Step>, owners: Owners)
    returns (journals: seq<Journal>)
    requires DynamoRuns.IsNonZeroRun(history, steps) && ForAggregates(steps)
    ensures |journals| == |history| && journals[0] == []
    ensures forall i :: 0 <= i < |history| ==>
      journals[i] == JournalOf(history[i].commits, owners) && CommitsAre(history[i].commits, journals[i])
    ensures forall i :: 0 <= i < |steps| ==>
      DynamoStepRefines(history[i], steps[i], history[i + 1], journals[i], journals[i + 1], owners)
  {
    journals := seq(|history|, i requires 0 <= i < |history| => JournalOf(history[i].commits, owners));
    forall i | 0 <= i < |history|
      ensures CommitsAre(history[i].commits, journals[i])
    {
      RunDotted(history, steps, i);
      JournalOfCommits(history[i].commits, owners);
    }
    forall i | 0 <= i < |steps|
      ensures DynamoStepRefines(history[i], steps[i], history[i + 1], journals[i], journals[i + 1], owners)
    {
      RunDotted(history, steps, i);
      DynamoStep(history, steps, i, owners);
    }
  }

  lemma CommitsLoad(commits: seq<DynamoProtocol.Commit>, m: nat, id: AggregateId, owners: Owners)
    requires m <= |commits| && DotFree(id) && forall i :: 0 <= i < |commits| ==> '.' in commits[i].pk
    ensures Events(LogFor(JournalOf(commits, owners)[..m], id))
         == Events(DynamoProtocol.LogOf(commits[..m], Encode(id)))
  {
    JournalOfCommits(commits, owners);
    CommitsPrefix(commits, JournalOf(commits, owners), m);
    DynamoLog(commits[..m], JournalOf(commits, owners)[..m], id);
  }

  /**
   * What a DynamoDB load returns is a load of the journal, not before the journal as of the oldest state that a page
   * was answered from.
   */
  lemma DynamoLoadRefines(store: DynamoStore.DynamoEventStore, id: AggregateId, oldest: nat, events: seq<RecordedEvent>,
                          k: nat, owners: Owners)
    returns (m: nat)
    requires store.Valid() && oldest < |store.history| && ForAggregates(store.steps) && DotFree(id)
    requires store.WasLog(Encode(id), oldest, events, k)
    ensures LoadedAt(JournalOf(store.state.commits, owners), id, |store.history[oldest].commits|, m, events)
  {
    var history, last := store.history, |store.history| - 1;
    var h :| oldest <= h < |history| && |DynamoProtocol.LogOf(history[h].commits, Encode(id))| == k
      && events == Events(DynamoProtocol.LogOf(history[h].commits, Encode(id)));
    m := |history[h].commits|;
    DynamoRuns.CommitsGrow(history, store.steps, oldest, h);
    DynamoRuns.CommitsGrow(history, store.steps, h, last);
    RunDotted(history, store.steps, last);
    assert history[h].commits == store.state.commits[..m];
    CommitsLoad(store.state.commits, m, id, owners);
  }

  /** Without all-zero draws, an entity loaded from DynamoDB is initialized exactly if its log has events. */
  lemma DynamoInitialized<T>(history: seq<DynamoProtocol.State>, steps: seq<DynamoProtocol.Step>, h: nat,
                             journal: Journal, entity: Entity<T>)
    requires DynamoRuns.IsNonZeroRun(history, steps) && h < |history|
    requires CommitsAre(history[h].commits, journal) && DotFree(entity.aggregate)
    requires entity.revision == RevisionFrom(Events(LogFor(journal, entity.aggregate)))
    ensures entity.Initialized() <==> Events(LogFor(journal, entity.aggregate)) != []
  {
    var pk := Encode(entity.aggregate);
    var log := DynamoProtocol.LogOf(history[h].commits, pk);
    DynamoLog(history[h].commits, journal, entity.aggregate);
    DynamoRuns.InitialMeansEmpty(history, steps, h, pk, |log|);
    assert log[..|log|] == log;
  }

  // --- JetStream -------------------------------------------------------------------------------------------

  /** The stream, seen as a journal. */
  ghost predicate MessagesAre(stream: JetStream.Stream, journal: Journal) {
    && |stream| == |journal|
    && forall i {:trigger IsMessageAt(stream, journal, i)} :: 0 <= i < |journal| ==> IsMessageAt(stream, journal, i)
  }

  ghost predicate IsMessageAt(stream: JetStream.Stream, journal: Journal, i: nat)
    requires i < |stream| && i < |journal|
  {
    IsMessage(stream[i], i + 1, journal[i])
  }

  ghost predicate IsMessage(m: JetStream.Message, sequence: uint64, e: Entry) {
    && DotFree(e.id) && m.subject == JetStream.Subject(e.id)
    && e.cs.events == JetStream.Decoded(m, sequence)
  }

  /** The journal's place, from one, of the aggregate's last change set. */
  function LastFor(journal: Journal, id: AggregateId): nat {
    if journal == [] then 0
    else if journal[|journal| - 1].id == id then |journal|
    else LastFor(journal[..|journal| - 1], id)
  }

  /** The expected revision carries the place of the aggregate's last change set. */
  predicate BySequence(journal: Journal, request: Request) {
    match JetStream.ExpectedSequence(request.expected)
    case Ok(None) => true
    case Ok(Some(sequence)) => LastFor(journal, request.id) == sequence
    case Err(_) => false
  }

  /** What JetStream loads is the log of the journal, and its last sequence is the journal's. */
  lemma {:induction false} JetStreamLog(stream: JetStream.Stream, journal: Journal, id: AggregateId)
    requires MessagesAre(stream, journal) && DotFree(id)
    ensures Events(LogFor(journal, id)) == JetStream.SubjectEvents(stream, JetStream.Subject(id))
    ensures LastFor(journal, id) == JetStream.LastSequence(stream, JetStream.Subject(id))
  {
    if journal != [] {
      var n := |journal| - 1;
      assert IsMessageAt(stream, journal, n);
      MessagesPrefix(stream, journal, n);
      JetStreamLog(stream[..n], journal[..n], id);
      JetStream.SubjectsDiffer(journal[n].id, id);
      if journal[n].id == id {
        EventsAppend(LogFor(journal[..n], id), journal[n].cs);
      } else {
        assert LogFor(journal, id) == LogFor(journal[..n], id);
      }
    }
  }

  lemma EventsAppend(log: Log, cs: ChangeSet)
    ensures Events(log + [cs]) == Events(log) + cs.events
  {
    assert (log + [cs])[..|log|] == log;
  }

  /** A JetStream publish is one publish of the interface, which accepts by sequence. */
  lemma JetStreamPublishRefines(stream: JetStream.Stream, journal: Journal, me: nat, request: Request, now: uint64)
    requires MessagesAre(stream, journal) && DotFree(request.id)
    ensures JetStream.Accepts(stream, JetStream.Subject(request.id), request.expected) <==> BySequence(journal, request)
    ensures BySequence(journal, request) && |stream| < JetStream.MAX_MESSAGES ==>
      var m := JetStream.Message(JetStream.Subject(request.id), now, request.events);
      var events := JetStream.Decoded(m, |stream| + 1);
      var after := journal + [Entry(me, request.id, ChangeSet(RevisionFrom(events), events))];
      Publishes(BySequence, journal, me, request, None, after) && MessagesAre(stream + [m], after)
    ensures JetStream.ExpectedSequence(request.expected).Ok? ==>
      BySequence(journal, request) ||
      Publishes(BySequence, journal, me, request, Some(RevisionConflict), journal)
  {
    JetStreamLog(stream, journal, request.id);
    var m := JetStream.Message(JetStream.Subject(request.id), now, request.events);
    if |stream| < JetStream.MAX_MESSAGES {
      var events := JetStream.Decoded(m, |stream| + 1);
      assert Payload(events) == request.events;
      MessageAppended(stream, journal, m, Entry(me, request.id, ChangeSet(RevisionFrom(events), events)));
    }
  }

  lemma MessageAppended(stream: JetStream.Stream, journal: Journal, m: JetStream.Message, e: Entry)
    requires MessagesAre(stream, journal) && |stream| < JetStream.MAX_MESSAGES && IsMessage(m, |stream| + 1, e)
    ensures MessagesAre(stream + [m], journal + [e])
  {
    forall i | 0 <= i <= |journal|
      ensures IsMessageAt(stream + [m], journal + [e], i)
    {
      assert i < |journal| ==> IsMessageAt(stream, journal, i);
    }
  }

  type Times = nat -> uint64

  /** What `JetStreamStore.Publish` answers to a request: a text that is no revision and a full stream are rejected. */
  function JetStreamAnswer(stream: JetStream.Stream, request: Request): Option<PublishError> {
    if JetStream.ExpectedSequence(request.expected).Err? then Some(Rejected)
    else if !JetStream.Accepts(stream, JetStream.Subject(request.id), request.expected) then Some(RevisionConflict)
    else if |stream| == JetStream.MAX_MESSAGES then Some(Rejected)
    else None
  }

  function AfterMessage(stream: JetStream.Stream, request: Request, now: uint64): JetStream.Stream {
    if JetStreamAnswer(stream, request).None?
    then stream + [JetStream.Message(JetStream.Subject(request.id), now, request.events)] else stream
  }

  /** The stream after these requests, one after another, at these server times. */
  function StreamAfter(requests: seq<Request>, times: Times): JetStream.Stream {
    if requests == [] then []
    else
      var n := |requests| - 1;
      AfterMessage(StreamAfter(requests[..n], times), requests[n], times(n))
  }

  function JetStreamAnswers(requests: seq<Request>, times: Times): (answers: seq<Option<PublishError>>)
    ensures |answers| == |requests|
  {
    if requests == [] then []
    else
      var n := |requests| - 1;
      JetStreamAnswers(requests[..n], times) + [JetStreamAnswer(StreamAfter(requests[..n], times), requests[n])]
  }

  lemma JetStreamStep(stream: JetStream.Stream, journal: Journal, me: nat, request: Request, now: uint64)
    returns (after: Journal)
    requires MessagesAre(stream, journal) && DotFree(request.id)
    ensures Publishes(BySequence, journal, me, request, JetStreamAnswer(stream, request), after)
    ensures MessagesAre(AfterMessage(stream, request, now), after)
  {
    JetStreamPublishRefines(stream, journal, me, request, now);
    after := journal;
    if JetStreamAnswer(stream, request).None? {
      var m := JetStream.Message(JetStream.Subject(request.id), now, request.events);
      var events := JetStream.Decoded(m, |stream| + 1);
      after := journal + [Entry(me, request.id, ChangeSet(RevisionFrom(events), events))];
    }
  }

  ghost predicate MessagesAt(requests: seq<Request>, times: Times, journals: seq<Journal>, n: nat)
    requires n <= |requests| && n < |journals|
  {
    MessagesAre(StreamAfter(requests[..n], times), journals[n])
  }

  lemma {:induction false} MessagesAtPrefix(requests: seq<Request>, times: Times, journals: seq<Journal>,
                                            longer: seq<Journal>, n: nat, k: nat)
    requires k <= n <= |requests| && k < |journals| && journals <= longer
    requires MessagesAt(requests[..n], times, journals, k)
    ensures MessagesAt(requests, times, longer, k)
  {
    assert requests[..n][..k] == requests[..k];
  }

  /**
   * Every sequence of JetStream requests, with the answers that the store gives to them, is a run of publishes of the
   * interface, accepted by sequence; the stream is the journal at every moment.
   */
  lemma {:induction false} JetStreamRunRefines(requests: seq<Request>, times: Times, owners: Owners)
    returns (journals: seq<Journal>)
    requires forall i :: 0 <= i < |requests| ==> DotFree(requests[i].id)
    ensures PublishRun(BySequence, owners, requests, JetStreamAnswers(requests, times), journals)
    ensures forall n {:trigger MessagesAt(requests, times, journals, n)} ::
      0 <= n <= |requests| ==> MessagesAt(requests, times, journals, n)
  {
    if requests == [] {
      journals := [[]];
    } else {
      var n := |requests| - 1;
      var earlier := JetStreamRunRefines(requests[..n], times, owners);
      assert MessagesAt(requests[..n], times, earlier, n);
      MessagesAtPrefix(requests, times, earlier, earlier, n, n);
      var stream := StreamAfter(requests[..n], times);
      var journal := JetStreamStep(stream, earlier[n], owners(n), requests[n], times(n));
      assert requests == requests[..n] + [requests[n]];
      RunAppend(BySequence, owners, requests[..n], JetStreamAnswers(requests[..n], times), earlier, requests[n],
                JetStreamAnswer(stream, requests[n]), journal);
      journals := earlier + [journal];
      OneMoreMessage(requests, times, earlier, journal);
    }
  }

  lemma {:induction false} OneMoreMessage(requests: seq<Request>, times: Times, earlier: seq<Journal>, journal: Journal)
    requires requests != [] && |earlier| == |requests|
    requires var n := |requests| - 1;
      && (forall k {:trigger MessagesAt(requests[..n], times, earlier, k)} ::
            0 <= k <= n ==> MessagesAt(requests[..n], times, earlier, k))
      && MessagesAre(AfterMessage(StreamAfter(requests[..n], times), requests[n], times(n)), journal)
    ensures forall k {:trigger MessagesAt(requests, times, earlier + [journal], k)} ::
      0 <= k <= |requests| ==> MessagesAt(requests, times, earlier + [journal], k)
  {
    var n := |requests| - 1;
    assert requests[..n + 1] == requests;
    forall k | 0 <= k <= n
      ensures MessagesAt(requests, times, earlier + [journal], k)
    {
      assert MessagesAt(requests[..n], times, earlier, k);
      MessagesAtPrefix(requests, times, earlier, earlier + [journal], n, k);
    }
    assert MessagesAt(requests, times, earlier + [journal], n + 1);
  }

  lemma MessagesPrefix(stream: JetStream.Stream, journal: Journal, n: nat)
    requires MessagesAre(stream, journal) && n <= |stream|
    ensures MessagesAre(stream[..n], journal[..n])
  {
    forall i | 0 <= i < n
      ensures IsMessageAt(stream[..n], journal[..n], i)
    {
      assert IsMessageAt(stream, journal, i);
    }
  }

  /** These are the answers and the streams of the store's own publish. */
  method JetStreamPublish(store: JetStream.JetStreamStore, request: Request, now: uint64)
    returns (answer: Option<PublishError>)
    modifies store
    ensures answer == JetStreamAnswer(old(store.messages), request)
    ensures store.messages == AfterMessage(old(store.messages), request, now)
  {
    var error := store.Publish(request.id, request.expected, request.events, now);
    answer := if error.None? then None
              else if error.value.RevisionConflict? then Some(RevisionConflict) else Some(Rejected);
  }

  /** What a JetStream load returns, the events as it began, is a load of any later journal, not before its start. */
  lemma {:induction false} JetStreamLoadRefines(before: JetStream.Stream, after: JetStream.Stream, journal: Journal,
                                                id: AggregateId)
    requires before <= after && MessagesAre(after, journal) && DotFree(id)
    ensures LoadedAt(journal, id, |before|, |before|, JetStream.SubjectEvents(before, JetStream.Subject(id)))
  {
    MessagesPrefix(after, journal, |before|);
    assert after[..|before|] == before;
    JetStreamLog(before, journal[..|before|], id);
  }

  /** An entity loaded from JetStream is initialized exactly if its log has events. */
  lemma JetStreamInitialized<T>(stream: JetStream.Stream, journal: Journal, entity: Entity<T>)
    requires MessagesAre(stream, journal) && DotFree(entity.aggregate)
    requires JetStream.Readable(stream, JetStream.Subject(entity.aggregate))
    requires entity.revision == RevisionFrom(Events(LogFor(journal, entity.aggregate)))
    ensures entity.Initialized() <==> Events(LogFor(journal, entity.aggregate)) != []
  {
    JetStreamLog(stream, journal, entity.aggregate);
    JetStream.InitialMeansEmpty(stream, JetStream.Subject(entity.aggregate));
  }

  // --- EventStoreDB ----------------------------------------------------------------------------------------

  type Streams = map<string, EventStoreDb.Stream>

  function StreamOf(streams: Streams, id: AggregateId): EventStoreDb.Stream {
    if Encode(id) in streams then streams[Encode(id)] else []
  }

  /** The streams of all aggregates, seen as a journal. */
  ghost predicate StreamsAre(streams: Streams, journal: Journal) {
    forall id {:trigger StreamIs(streams, journal, id)} :: DotFree(id) ==> StreamIs(streams, journal, id)
  }

  ghost predicate StreamIs(streams: Streams, journal: Journal, id: AggregateId) {
    Events(LogFor(journal, id)) == EventStoreDb.Record(StreamOf(streams, id))
  }

  /** The expected revision, parsed as the store does, is the number of the aggregate's last event. */
  predicate ByNumber(journal: Journal, request: Request) {
    var count := |Events(LogFor(journal, request.id))|;
    match EventStoreDb.ExpectedOf(request.expected)
    case Ok(Any) => true
    case Ok(NoStream) => count == 0
    case Ok(Number(number)) => count > 0 && count - 1 == number
    case Err(_) => false
  }

  /** An EventStoreDB publish is one publish of the interface, which accepts by event number. */
  lemma EventStoreDbPublishRefines(streams: Streams, journal: Journal, me: nat, request: Request)
    requires StreamsAre(streams, journal) && DotFree(request.id)
    ensures EventStoreDb.Accepts(StreamOf(streams, request.id), request.expected) <==> ByNumber(journal, request)
    ensures
      var stream := StreamOf(streams, request.id);
      ByNumber(journal, request) && |stream| + |request.events| < EventStoreDb.WRAP ==>
        var longer: EventStoreDb.Stream := stream + request.events;
        var events := EventStoreDb.Record(longer)[|stream|..];
        var after := journal + [Entry(me, request.id, ChangeSet(RevisionFrom(events), events))];
        && Publishes(ByNumber, journal, me, request, None, after)
        && StreamsAre(streams[Encode(request.id) := longer], after)
    ensures EventStoreDb.ExpectedOf(request.expected).Ok? ==>
      ByNumber(journal, request) ||
      Publishes(ByNumber, journal, me, request, Some(RevisionConflict), journal)
  {
    var stream := StreamOf(streams, request.id);
    assert StreamIs(streams, journal, request.id);
    if |stream| + |request.events| < EventStoreDb.WRAP {
      var events := EventStoreDb.Record(stream + request.events)[|stream|..];
      assert Payload(events) == request.events;
      var e := Entry(me, request.id, ChangeSet(RevisionFrom(events), events));
      AppendedStreams(streams, journal, e, stream, request.events);
    }
  }

  lemma AppendedStreams(streams: Streams, journal: Journal, e: Entry, stream: EventStoreDb.Stream,
                        events: seq<DomainEvent>)
    requires StreamsAre(streams, journal) && DotFree(e.id) && stream == StreamOf(streams, e.id)
    requires |stream| + |events| < EventStoreDb.WRAP
    requires e.cs.events == EventStoreDb.Record(stream + events)[|stream|..]
    ensures StreamsAre(streams[Encode(e.id) := stream + events], journal + [e])
  {
    var later := streams[Encode(e.id) := stream + events];
    forall id | DotFree(id)
      ensures StreamIs(later, journal + [e], id)
    {
      AppendEntry(journal, e, id, 0);
      EncodeInjective(e.id, id);
      assert StreamIs(streams, journal, id);
      if e.id == id {
        EventsAppend(LogFor(journal, id), e.cs);
        RecordAppend(stream, events);
      } else {
        assert LogFor(journal + [e], id) == LogFor(journal, id);
      }
    }
  }

  lemma RecordAppend(stream: EventStoreDb.Stream, events: seq<DomainEvent>)
    requires |stream| + |events| < EventStoreDb.WRAP
    ensures EventStoreDb.Record(stream) + EventStoreDb.Record(stream + events)[|stream|..]
         == EventStoreDb.Record(stream + events)
  {
  }

  /** What the store's `Publish` answers to a request: a text that is no number and a full stream are rejected. */
  function EventStoreDbAnswer(streams: Streams, request: Request): Option<PublishError> {
    var stream := StreamOf(streams, request.id);
    if EventStoreDb.ExpectedOf(request.expected).Err? then Some(Rejected)
    else if !EventStoreDb.Accepts(stream, request.expected) then Some(RevisionConflict)
    else if |stream| + |request.events| >= EventStoreDb.WRAP then Some(Rejected)
    else None
  }

  function AfterPublish(streams: Streams, request: Request): Streams {
    if EventStoreDbAnswer(streams, request).None?
    then streams[Encode(request.id) := StreamOf(streams, request.id) + request.events] else streams
  }

  /** The streams after these requests, one after another. */
  function AfterAll(requests: seq<Request>): Streams {
    if requests == [] then map[]
    else AfterPublish(AfterAll(requests[..|requests| - 1]), requests[|requests| - 1])
  }

  function EventStoreDbAnswers(requests: seq<Request>): (answers: seq<Option<PublishError>>)
    ensures |answers| == |requests|
  {
    if requests == [] then []
    else
      var n := |requests| - 1;
      EventStoreDbAnswers(requests[..n]) + [EventStoreDbAnswer(AfterAll(requests[..n]), requests[n])]
  }

  /**
   * Every sequence of EventStoreDB requests, with the answers that the store gives to them, is a run of publishes of
   * the interface, accepted by event number; the streams are the journal at every moment.
   */
  lemma {:induction false} EventStoreDbRunRefines(requests: seq<Request>, owners: Owners)
    returns (journals: seq<Journal>)
    requires forall i :: 0 <= i < |requests| ==> DotFree(requests[i].id)
    ensures PublishRun(ByNumber, owners, requests, EventStoreDbAnswers(requests), journals)
    ensures forall n {:trigger StreamsAt(requests, journals, n)} ::
      0 <= n <= |requests| ==> StreamsAt(requests, journals, n)
  {
    if requests == [] {
      journals := [[]];
      EmptyStreams(requests);
    } else {
      var n := |requests| - 1;
      var earlier := EventStoreDbRunRefines(requests[..n], owners);
      assert StreamsAt(requests[..n], earlier, n);
      StreamsAtPrefix(requests, earlier, n, n);
      var streams := AfterAll(requests[..n]);
      var journal := EventStoreDbStep(streams, earlier[n], owners(n), requests[n]);
      assert requests == requests[..n] + [requests[n]];
      RunAppend(ByNumber, owners, requests[..n], EventStoreDbAnswers(requests[..n]), earlier, requests[n],
                EventStoreDbAnswer(streams, requests[n]), journal);
      journals := earlier + [journal];
      OneMoreRequest(requests, earlier, journal);
    }
  }

  lemma OneMoreRequest(requests: seq<Request>, earlier: seq<Journal>, journal: Journal)
    requires requests != [] && |earlier| == |requests|
    requires var front := requests[..|requests| - 1];
      && (forall k {:trigger StreamsAt(front, earlier, k)} :: 0 <= k < |requests| ==> StreamsAt(front, earlier, k))
      && StreamsAre(AfterPublish(AfterAll(front), requests[|requests| - 1]), journal)
    ensures forall k {:trigger StreamsAt(requests, earlier + [journal], k)} ::
      0 <= k <= |requests| ==> StreamsAt(requests, earlier + [journal], k)
  {
    var n := |requests| - 1;
    assert requests[..n + 1] == requests;
    forall k | 0 <= k <= n + 1
      ensures StreamsAt(requests, earlier + [journal], k)
    {
      if k <= n {
        assert StreamsAt(requests[..n], earlier, k);
        StreamsAtPrefix(requests, earlier, n, k);
      }
    }
  }

  lemma EmptyStreams(requests: seq<Request>)
    requires requests == []
    ensures StreamsAt(requests, [[]], 0)
  {
    forall id
      ensures StreamIs(map[], [], id)
    {
    }
  }

  /** The journal with this index is that of the streams after as many requests. */
  ghost predicate StreamsAt(requests: seq<Request>, journals: seq<Journal>, n: nat)
    requires n <= |requests| && n < |journals|
  {
    StreamsAre(AfterAll(requests[..n]), journals[n])
  }

  lemma StreamsAtPrefix(requests: seq<Request>, journals: seq<Journal>, n: nat, k: nat)
    requires k <= n <= |requests| && k < |journals| && StreamsAt(requests[..n], journals, k)
    ensures StreamsAt(requests, journals, k)
  {
    assert requests[..n][..k] == requests[..k];
  }

  lemma EventStoreDbStep(streams: Streams, journal: Journal, me: nat, request: Request) returns (after: Journal)
    requires StreamsAre(streams, journal) && DotFree(request.id)
    ensures Publishes(ByNumber, journal, me, request, EventStoreDbAnswer(streams, request), after)
    ensures StreamsAre(AfterPublish(streams, request), after)
  {
    EventStoreDbPublishRefines(streams, journal, me, request);
    var stream := StreamOf(streams, request.id);
    after := journal;
    if EventStoreDbAnswer(streams, request).None? {
      var events := EventStoreDb.Record(stream + request.events)[|stream|..];
      after := journal + [Entry(me, request.id, ChangeSet(RevisionFrom(events), events))];
    }
  }

  /** These are the answers of the store's own publish, and the stream it leaves. */
  method EventStoreDbPublish(store: EventStoreDb.EventStore, ghost streams: Streams, request: Request)
    returns (answer: Option<PublishError>)
    requires store.events == StreamOf(streams, request.id)
    modifies store
    ensures answer == EventStoreDbAnswer(streams, request)
    ensures store.events == StreamOf(AfterPublish(streams, request), request.id)
  {
    var error := store.Publish(request.expected, request.events);
    answer := if error.None? then None
              else if error.value.RevisionConflict? then Some(RevisionConflict) else Some(Rejected);
  }

  /** What an EventStoreDB load returns, the whole stream at its end, is a load of the journal at that moment. */
  lemma EventStoreDbLoadRefines(streams: Streams, journal: Journal, id: AggregateId)
    requires StreamsAre(streams, journal) && DotFree(id)
    ensures LoadedAt(journal, id, |journal|, |journal|, EventStoreDb.Record(StreamOf(streams, id)))
  {
    assert journal[..|journal|] == journal;
    assert StreamIs(streams, journal, id);
  }

  /** An entity loaded from EventStoreDB is initialized exactly if its log has events. */
  lemma EventStoreDbInitialized<T>(streams: Streams, journal: Journal, entity: Entity<T>)
    requires StreamsAre(streams, journal) && DotFree(entity.aggregate)
    requires entity.revision == RevisionFrom(Events(LogFor(journal, entity.aggregate)))
    ensures entity.Initialized() <==> Events(LogFor(journal, entity.aggregate)) != []
  {
    var stream := StreamOf(streams, entity.aggregate);
    assert StreamIs(streams, journal, entity.aggregate);
    EventStoreDb.InitialMeansEmpty(stream);
  }

  // --- what a handler gains by expecting the loaded revision ------------------------------------------------

  /** All three stores accept requests without expectation. */
  lemma StoresAcceptUnguarded()
    ensures AcceptsUnguarded(AsPromised) && AcceptsUnguarded(BySequence) && AcceptsUnguarded(ByNumber)
  {
  }

  /**
   * A handler that publishes with the loaded entity's revision, over a store that admits what the log promises: if the
   * publish is accepted, it was made on exactly the log that the first load saw, and if it is refused as a conflict,
   * the log had moved on. This takes well-formed change sets and a log that does not use the revision twice.
   */
  lemma {:induction false} LoadedRevisionGuards<T>(service: EntityService<T>, journal: Journal, me: nat,
                                                   id: AggregateId, command: Command, outages: Outages,
                                                   r: Result<Entity<T>, ServiceError>, trace: Trace<T>, k: nat)
    requires service.Executed(journal, me, id, command, outages, r, trace)
    requires service.store.admits == AsPromised && !outages.first
    requires trace.first.Ok? && k < |trace.answers|
    requires command.name in service.handlers &&
      AnswersTo(service.handlers[command.name](trace.first.value, command.payload), trace.answers)
    requires var request := Asked(service.handlers[command.name](trace.first.value, command.payload), trace.answers)[k];
      request.id == id && request.expected == trace.first.value.revision
    requires k < |trace.places| && trace.places[k] <= |journal| ==>
      var log := LogFor(journal[..trace.places[k]], id);
      AllWellFormed(log) && NamedOnce(log, trace.first.value.revision)
    ensures k < |trace.places| && trace.n <= trace.places[k] <= |journal|
    ensures var seen, log := LogFor(journal[..trace.n], id), LogFor(journal[..trace.places[k]], id);
      && seen <= log
      && (trace.answers[k].None? ==> log == seen)
      && (trace.answers[k] == Some(RevisionConflict) ==> log != seen)
      && (outages.publishes(k).Works? ==> (trace.answers[k].None? <==> log == seen))
  {
    var handler := service.handlers[command.name](trace.first.value, command.payload);
    AskedAnswered(AsPromised, journal, me, trace.n, handler, outages.publishes, 0, trace.answers, trace.places, k);
    var p := trace.places[k];
    LogForGrows(journal[..p], trace.n, id);
    assert journal[..p][..trace.n] == journal[..trace.n];
    var request := Asked(handler, trace.answers)[k];
    GuardedAnswer(journal, me, id, trace.n, p, request, outages.publishes(k), trace.answers[k]);
  }

  lemma GuardedAnswer(journal: Journal, me: nat, id: AggregateId, n: nat, p: nat, request: Request,
                      backend: Backend, answer: Option<PublishError>)
    requires n <= p && AnsweredAt(AsPromised, journal, me, p, request, backend, answer) && request.id == id
    requires LogFor(journal[..n], id) <= LogFor(journal[..p], id)
    requires request.expected == RevisionFrom(Events(LogFor(journal[..n], id)))
    requires AllWellFormed(LogFor(journal[..p], id)) && NamedOnce(LogFor(journal[..p], id), request.expected)
    ensures answer.None? ==> LogFor(journal[..p], id) == LogFor(journal[..n], id)
    ensures answer == Some(RevisionConflict) ==> LogFor(journal[..p], id) != LogFor(journal[..n], id)
    ensures backend.Works? ==> (answer == None <==> LogFor(journal[..p], id) == LogFor(journal[..n], id))
  {
    LoadedAdmits(LogFor(journal[..n], id), LogFor(journal[..p], id));
  }
}
