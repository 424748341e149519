/**
 * The JetStream store: one stream for all aggregates, in which every message has a global sequence number, and whose
 * backend compares an expected sequence number with the last one of the message's subject.
 */
module JetStream {
  import opened Wrappers
  import opened TextOrder
  import opened Ulid
  import opened RevisionEncoder
  import opened EventLog
  import opened Aggregates

  const PREFIX := "change-set."
  const MAX_MESSAGES: nat := 0xffff_ffff_ffff_ffff
  const INDEX_LIMIT: nat := 0x1_0000

  /** A stored change set; the server stamps it with its time. */
  datatype Message = Message(subject: string, timestamp: uint64, events: seq<DomainEvent>)

  /** The message at index i has the stream sequence i + 1. */
  type Stream = s: seq<Message> | |s| <= MAX_MESSAGES

  function Subject(id: AggregateId): string {
    PREFIX + Encode(id)
  }

  /** The sequence of the subject's last message, zero if there is none. */
  function LastSequence(stream: Stream, subject: string): (sequence: nat)
    ensures sequence <= |stream|
    ensures sequence > 0 ==> stream[sequence - 1].subject == subject
    ensures forall i :: sequence <= i < |stream| ==> stream[i].subject != subject
  {
    if stream == [] then 0
    else if stream[|stream| - 1].subject == subject then |stream|
    else LastSequence(stream[..|stream| - 1], subject)
  }

  /** The recorded events of one message; the index goes through a 16-bit conversion. */
  function Decoded(m: Message, sequence: uint64): (events: seq<RecordedEvent>)
    ensures |events| == |m.events|
  {
    seq(|m.events|, i requires 0 <= i < |m.events| =>
      RecordedEvent(RevisionText(m.timestamp, sequence, i % INDEX_LIMIT), m.events[i]))
  }

  /** All events of a subject, in stream order. */
  function SubjectEvents(stream: Stream, subject: string): seq<RecordedEvent> {
    if stream == [] then []
    else
      var last := stream[|stream| - 1];
      SubjectEvents(stream[..|stream| - 1], subject) + if last.subject == subject then Decoded(last, |stream|) else []
  }

  predicate Encodable(m: Message) {
    m.events == [] || m.timestamp < TIME_LIMIT
  }

  /** A message that carries events of the subject. */
  predicate Counts(m: Message, subject: string) {
    m.subject == subject && m.events != []
  }

  /** Every message of the subject can be given revisions. */
  ghost predicate Readable(stream: Stream, subject: string) {
    forall i :: 0 <= i < |stream| && stream[i].subject == subject ==> Encodable(stream[i])
  }

  function ExpectedSequence(expected: Revision): Result<Option<nat>, ParseError> {
    if expected == "" then Ok(None)
    else if expected == INITIAL_REVISION then Ok(Some(0))
    else match DecodeSequenceNumber(expected)
      case Ok(sequence) => Ok(Some(sequence))
      case Err(e) => Err(e)
  }

  /** An expectation is refused as no revision exactly if it is neither empty nor a ULID. */
  lemma ExpectedErrExactlyWhen(expected: Revision)
    ensures ExpectedSequence(expected).Err? <==> expected != "" && !IsUlidText(expected)
  {
    ParsesExactlyWhen(expected);
    InitialIsZero();
    ParseUlidText(0);
  }

  /** What the subject of an aggregate is called. */
  lemma SubjectText(id: AggregateId)
    ensures Subject(id) == "change-set." + id.kind + "." + id.key
  {
    EncodeIsDotted(id);
  }

  /** Whether the store accepts a publish that expects this revision. */
  predicate Accepts(stream: Stream, subject: string, expected: Revision) {
    match ExpectedSequence(expected)
    case Ok(None) => true
    case Ok(Some(sequence)) => LastSequence(stream, subject) == sequence
    case Err(_) => false
  }

  datatype PublishError = RevisionConflict | InvalidRevision(error: ParseError) | StreamFull

  class JetStreamStore {
    var messages: Stream

    constructor ()
      ensures messages == []
    {
      messages := [];
    }

    /** Others publish any number of messages, to any subject. */
    method Interfere()
      modifies this
      ensures old(messages) <= messages
    {
      var n: nat := *;
      while n > 0
        invariant old(messages) <= messages
      {
        var subject: string :| |subject| >= 0;
        var timestamp: uint64 :| timestamp >= 0;
        var events: seq<DomainEvent> :| |events| >= 0;
        if |messages| < MAX_MESSAGES {
          messages := messages + [Message(subject, timestamp, events)];
        }
        n := n - 1;
      }
    }

    /** Commits exactly if the expectation is met at that moment; any error leaves the stream as it is. */
    method Publish(id: AggregateId, expected: Revision, events: seq<DomainEvent>, now: uint64)
      returns (error: Option<PublishError>)
      modifies this
      ensures error.None? ==> messages == old(messages) + [Message(Subject(id), now, events)]
      ensures error.Some? ==> messages == old(messages)
      ensures error.None? <==> Accepts(old(messages), Subject(id), expected) && |old(messages)| < MAX_MESSAGES
      ensures error == Some(RevisionConflict) <==>
        ExpectedSequence(expected).Ok? && !Accepts(old(messages), Subject(id), expected)
      ensures error == Some(StreamFull) <==>
        Accepts(old(messages), Subject(id), expected) && |old(messages)| == 0xffff_ffff_ffff_ffff
      ensures error.Some? && error.value.InvalidRevision? <==> expected != "" && !IsUlidText(expected)
    {
      var records := new DomainEvent[|events|](_ => NO_EVENT);
      for index := 0 to |events|
        invariant records[..index] == events[..index] && messages == old(messages)
      {
        records[index] := events[index];
      }
      assert records[..] == events;
      ExpectedErrExactlyWhen(expected);
      var sequence := ExpectedSequence(expected);
      if sequence.Err? {
        return Some(InvalidRevision(sequence.error));
      }
      if sequence.value.Some? && LastSequence(messages, Subject(id)) != sequence.value.value {
        return Some(RevisionConflict);
      }
      if |messages| == MAX_MESSAGES {
        return Some(StreamFull);
      }
      messages := messages + [Message(Subject(id), now, records[..])];
      error := None;
    }

    /** The consumer's next message of the subject, after the one with sequence `cursor`. */
    method NextMessage(subject: string, cursor: nat) returns (sequence: nat)
      requires cursor < LastSequence(messages, subject)
      ensures cursor < sequence <= |messages| && messages[sequence - 1].subject == subject
      ensures forall i :: cursor <= i < sequence - 1 ==> messages[i].subject != subject
    {
      sequence := cursor + 1;
      while messages[sequence - 1].subject != subject
        invariant cursor < sequence <= LastSequence(messages, subject)
        invariant forall i :: cursor <= i < sequence - 1 ==> messages[i].subject != subject
        decreases |messages| - sequence
      {
        sequence := sequence + 1;
      }
    }

    method DecodeChangeSet(m: Message, sequence: uint64) returns (r: Result<seq<RecordedEvent>, EncodeError>)
      ensures r == if Encodable(m) then Ok(Decoded(m, sequence)) else Err(BigTime)
    {
      var result: seq<RecordedEvent> := [];
      for i := 0 to |m.events|
        invariant i > 0 ==> m.timestamp < TIME_LIMIT
        invariant result == Decoded(m, sequence)[..i]
      {
        var revision := EncodeRevision(m.timestamp, sequence, i % INDEX_LIMIT);
        if revision.Err? {
          return Err(revision.error);
        }
        result := result + [RecordedEvent(revision.value, m.events[i])];
      }
      assert Decoded(m, sequence)[..|m.events|] == Decoded(m, sequence);
      r := Ok(result);
    }

    /** One delivery: the subject's next message, decoded. `before` is the stream when the read began. */
    method Receive(ghost before: Stream, subject: string, cursor: nat)
      returns (sequence: nat, recorded: Result<seq<RecordedEvent>, EncodeError>)
      requires before <= messages && cursor < LastSequence(before, subject)
      modifies this
      ensures before <= messages && cursor < sequence <= LastSequence(before, subject)
      ensures SubjectEvents(before[..sequence], subject)
           == SubjectEvents(before[..cursor], subject) + Decoded(before[sequence - 1], sequence)
      ensures Readable(before[..sequence], subject) <==>
        Readable(before[..cursor], subject) && Encodable(before[sequence - 1])
      ensures recorded ==
        if Encodable(before[sequence - 1]) then Ok(Decoded(before[sequence - 1], sequence)) else Err(BigTime)
    {
      Interfere();
      LastSequenceLater(before, messages, subject);
      sequence := NextMessage(subject, cursor);
      assert sequence <= LastSequence(before, subject) by {
        assert messages[LastSequence(before, subject) - 1] == before[LastSequence(before, subject) - 1];
      }
      assert forall i :: 0 <= i < sequence ==> messages[i] == before[i];
      recorded := DecodeChangeSet(messages[sequence - 1], sequence);
      NextInSubject(before, subject, cursor, sequence);
    }

    /**
     * The read loop, with others publishing before every message: it ends, and it returns the events of exactly the
     * messages the subject had when `latest` was captured.
     */
    method Read(subject: string) returns (r: Result<seq<RecordedEvent>, EncodeError>)
      modifies this
      ensures old(messages) <= messages
      ensures r == if Readable(old(messages), subject) then Ok(SubjectEvents(old(messages), subject)) else Err(BigTime)
    {
      ghost var before := messages;
      var latest := LastSequence(messages, subject);
      UpToLast(before, subject);
      if latest == 0 {
        return Ok([]);
      }
      var events: seq<RecordedEvent> := [];
      var cursor := 0;
      while cursor < latest
        invariant before <= messages && 0 <= cursor <= latest == LastSequence(before, subject)
        invariant events == SubjectEvents(before[..cursor], subject)
        invariant Readable(before[..cursor], subject)
      {
        var sequence, recorded := Receive(before, subject, cursor);
        if recorded.Err? {
          if Readable(before, subject) {
            ReadablePrefix(before, subject, sequence);
          }
          return Err(recorded.error);
        }
        events := events + recorded.value;
        cursor := sequence;
      }
      r := Ok(events);
    }

    method Load(id: AggregateId) returns (r: Result<(Revision, seq<RecordedEvent>), EncodeError>)
      modifies this
      ensures old(messages) <= messages
      ensures r == if Readable(old(messages), Subject(id))
                   then Ok((RevisionFrom(SubjectEvents(old(messages), Subject(id))),
                            SubjectEvents(old(messages), Subject(id))))
                   else Err(BigTime)
    {
      var events := Read(Subject(id));
      match events
      case Err(e) => r := Err(e);
      case Ok(read) => r := Ok((RevisionFrom(read), read));
    }
  }

  /** The next message of a subject extends its events, and what is readable, by itself. */
  lemma NextInSubject(stream: Stream, subject: string, cursor: nat, sequence: nat)
    requires cursor < sequence <= |stream| && stream[sequence - 1].subject == subject
    requires forall i :: cursor <= i < sequence - 1 ==> stream[i].subject != subject
    ensures SubjectEvents(stream[..sequence], subject)
         == SubjectEvents(stream[..cursor], subject) + Decoded(stream[sequence - 1], sequence)
    ensures Readable(stream[..sequence], subject) <==>
      Readable(stream[..cursor], subject) && Encodable(stream[sequence - 1])
  {
    NoEventsBetween(stream, subject, cursor, sequence - 1);
    assert stream[..sequence][..sequence - 1] == stream[..sequence - 1];
    if Readable(stream[..sequence], subject) {
      assert stream[..sequence][sequence - 1] == stream[sequence - 1];
      assert forall i :: 0 <= i < cursor ==> stream[..cursor][i] == stream[..sequence][i];
    }
  }

  lemma ReadablePrefix(stream: Stream, subject: string, n: nat)
    requires n <= |stream| && Readable(stream, subject)
    ensures Readable(stream[..n], subject)
  {
  }

  /** Past its last sequence a subject has no more events. */
  lemma UpToLast(stream: Stream, subject: string)
    ensures var last := LastSequence(stream, subject);
      && SubjectEvents(stream[..last], subject) == SubjectEvents(stream, subject)
      && (Readable(stream[..last], subject) <==> Readable(stream, subject))
      && SubjectEvents(stream[..0], subject) == []
  {
    var last := LastSequence(stream, subject);
    NoEventsBetween(stream, subject, last, |stream|);
    assert stream[..|stream|] == stream;
    ReadableToLast(stream, subject, last);
  }

  lemma ReadableToLast(stream: Stream, subject: string, last: nat)
    requires last <= |stream| && forall i :: last <= i < |stream| ==> stream[i].subject != subject
    ensures Readable(stream[..last], subject) <==> Readable(stream, subject)
  {
    if Readable(stream[..last], subject) {
      forall i | 0 <= i < |stream| && stream[i].subject == subject
        ensures Encodable(stream[i])
      {
        assert stream[..last][i] == stream[i];
      }
    } else {
      var i :| 0 <= i < last && stream[..last][i].subject == subject && !Encodable(stream[..last][i]);
      assert stream[i] == stream[..last][i];
    }
  }

  /** Messages of other subjects add nothing. */
  lemma {:induction false} NoEventsBetween(stream: Stream, subject: string, i: nat, j: nat)
    requires i <= j <= |stream| && forall k :: i <= k < j ==> stream[k].subject != subject
    ensures SubjectEvents(stream[..j], subject) == SubjectEvents(stream[..i], subject)
    decreases j
  {
    if i < j {
      NoEventsBetween(stream, subject, i, j - 1);
      assert stream[..j][..j - 1] == stream[..j - 1];
    }
  }

  // --- the loaded revision and the next publish ------------------------------------------------------------

  /** The message that gave the subject's last event: the last one that is not empty. */
  lemma {:induction false} LastEventFrom(stream: Stream, subject: string) returns (i: nat, index: uint16)
    requires SubjectEvents(stream, subject) != []
    ensures i < |stream| && Counts(stream[i], subject)
    ensures forall k :: i < k < |stream| ==> !Counts(stream[k], subject)
    ensures RevisionFrom(SubjectEvents(stream, subject)) == RevisionText(stream[i].timestamp, i + 1, index)
  {
    var n := |stream| - 1;
    if Counts(stream[n], subject) {
      i := n;
      index := LastIndex(stream[n], |stream|);
      LastOfJoin(SubjectEvents(stream[..n], subject), Decoded(stream[n], |stream|));
    } else {
      i, index := LastEventFrom(stream[..n], subject);
    }
  }

  lemma LastIndex(m: Message, sequence: uint64) returns (index: uint16)
    requires m.events != []
    ensures RevisionFrom(Decoded(m, sequence)) == RevisionText(m.timestamp, sequence, index)
  {
    index := (|m.events| - 1) % INDEX_LIMIT;
  }

  lemma {:induction false} NoEventsMeansEmpty(stream: Stream, subject: string)
    requires SubjectEvents(stream, subject) == []
    ensures forall k :: 0 <= k < |stream| ==> !Counts(stream[k], subject)
  {
    if stream != [] {
      NoEventsMeansEmpty(stream[..|stream| - 1], subject);
    }
  }

  /** A loaded log has the initial revision exactly if it has no events, since sequences start at one. */
  lemma InitialMeansEmpty(stream: Stream, subject: string)
    requires Readable(stream, subject)
    ensures RevisionFrom(SubjectEvents(stream, subject)) == INITIAL_REVISION <==> SubjectEvents(stream, subject) == []
    ensures RevisionFrom(SubjectEvents(stream, subject)) != ""
  {
    if SubjectEvents(stream, subject) != [] {
      var i, index := LastEventFrom(stream, subject);
      NotInitial(stream[i].timestamp, i + 1, index);
    }
  }

  lemma NotInitial(timestamp: nat, sequence: uint64, index: uint16)
    requires timestamp < TIME_LIMIT && sequence > 0
    ensures RevisionText(timestamp, sequence, index) != INITIAL_REVISION
  {
    RevisionNumber(timestamp, sequence, index);
    InitialOnlyZero(timestamp, sequence * 0x1_0000 + index);
  }

  /** What the store reads out of the loaded revision: the sequence of the subject's last message that is not empty. */
  lemma LoadedSequence(stream: Stream, subject: string) returns (sequence: nat)
    requires Readable(stream, subject)
    ensures ExpectedSequence(RevisionFrom(SubjectEvents(stream, subject))) == Ok(Some(sequence))
    ensures sequence <= LastSequence(stream, subject)
    ensures sequence == LastSequence(stream, subject) <==> EndsNonEmpty(stream, subject)
  {
    if SubjectEvents(stream, subject) == [] {
      EmptySequence(stream, subject);
      sequence := 0;
    } else {
      sequence := LastEventSequence(stream, subject, RevisionFrom(SubjectEvents(stream, subject)));
    }
  }

  lemma EmptySequence(stream: Stream, subject: string)
    requires SubjectEvents(stream, subject) == []
    ensures ExpectedSequence(RevisionFrom(SubjectEvents(stream, subject))) == Ok(Some(0))
    ensures 0 == LastSequence(stream, subject) <==> EndsNonEmpty(stream, subject)
  {
    NoEventsMeansEmpty(stream, subject);
    var last := LastSequence(stream, subject);
    assert last > 0 ==> !Counts(stream[last - 1], subject);
  }

  lemma LastEventSequence(stream: Stream, subject: string, revision: Revision) returns (sequence: nat)
    requires Readable(stream, subject) && SubjectEvents(stream, subject) != []
    requires revision == RevisionFrom(SubjectEvents(stream, subject))
    ensures ExpectedSequence(revision) == Ok(Some(sequence))
    ensures sequence <= LastSequence(stream, subject)
    ensures sequence == LastSequence(stream, subject) <==> EndsNonEmpty(stream, subject)
  {
    var i, index := LastEventFrom(stream, subject);
    LastThatCounts(stream, subject, i);
    EncodedExpectation(revision, stream[i].timestamp, i + 1, index);
    sequence := i + 1;
  }

  /** The subject has no message, or its last one is not empty. */
  predicate EndsNonEmpty(stream: Stream, subject: string) {
    var last := LastSequence(stream, subject);
    last == 0 || stream[last - 1].events != []
  }

  lemma EncodedExpectation(revision: Revision, timestamp: nat, sequence: uint64, index: uint16)
    requires timestamp < TIME_LIMIT && sequence > 0 && revision == RevisionText(timestamp, sequence, index)
    ensures ExpectedSequence(revision) == Ok(Some(sequence))
  {
    NotInitial(timestamp, sequence, index);
    DecodeEncoded(timestamp, sequence, index);
  }

  lemma LastThatCounts(stream: Stream, subject: string, i: nat)
    requires i < |stream| && Counts(stream[i], subject)
    requires forall k :: i < k < |stream| ==> !Counts(stream[k], subject)
    ensures i + 1 <= LastSequence(stream, subject)
    ensures i + 1 == LastSequence(stream, subject) <==> EndsNonEmpty(stream, subject)
  {
  }

  lemma LastSequenceIs(stream: Stream, subject: string, sequence: nat)
    requires sequence <= |stream|
    requires sequence > 0 ==> stream[sequence - 1].subject == subject
    requires forall i :: sequence <= i < |stream| ==> stream[i].subject != subject
    ensures LastSequence(stream, subject) == sequence
  {
    var last := LastSequence(stream, subject);
    assert sequence > 0 ==> sequence - 1 < last;
    assert last > 0 ==> last - 1 < sequence;
  }

  /** Messages to other subjects leave a subject's last sequence alone; messages to it replace it. */
  lemma LastSequenceLater(stream: Stream, later: Stream, subject: string)
    requires stream <= later
    ensures LastSequence(later, subject) == LastSequence(stream, subject) <==>
      forall i :: |stream| <= i < |later| ==> later[i].subject != subject
    ensures LastSequence(stream, subject) <= LastSequence(later, subject)
  {
    var last := LastSequence(stream, subject);
    if forall i :: |stream| <= i < |later| ==> later[i].subject != subject {
      forall i | last <= i < |later|
        ensures later[i].subject != subject
      {
        assert i < |stream| ==> later[i] == stream[i];
      }
      LastSequenceIs(later, subject, last);
    } else {
      var i :| |stream| <= i < |later| && later[i].subject == subject;
      assert i < LastSequence(later, subject);
    }
  }

  /**
   * Load, then publish with the loaded revision: it commits exactly if nothing was published to that subject in
   * between, whatever happened to other subjects, and the subject's last change set is not an empty one.
   */
  lemma LoadThenPublish(stream: Stream, later: Stream, subject: string)
    requires stream <= later && Readable(stream, subject)
    ensures Accepts(later, subject, RevisionFrom(SubjectEvents(stream, subject))) <==>
      && (forall i :: |stream| <= i < |later| ==> later[i].subject != subject)
      && EndsNonEmpty(stream, subject)
  {
    var sequence := LoadedSequence(stream, subject);
    LastSequenceLater(stream, later, subject);
  }

  /**
   * A publish without events locks out the loaded revision: on every stream, the revision loaded right after it is
   * refused, although nothing else was published.
   */
  lemma EmptyChangeSetLocksOut(stream: Stream, after: Stream, subject: string)
    requires after != [] && after[..|after| - 1] == stream && Readable(stream, subject)
    requires after[|stream|].subject == subject && after[|stream|].events == []
    ensures Readable(after, subject) && SubjectEvents(after, subject) == SubjectEvents(stream, subject)
    ensures !Accepts(after, subject, RevisionFrom(SubjectEvents(after, subject)))
  {
    assert forall i :: 0 <= i < |stream| ==> stream[i] == after[i];
    assert LastSequence(after, subject) == |after|;
    LoadThenPublish(after, after, subject);
  }

  /** Whatever revision a publisher expects: once a change set of the subject was accepted with it, no other is. */
  lemma AtMostOneWinner(stream: Stream, later: Stream, subject: string, expected: Revision)
    requires |stream| < |later| && stream <= later && later[|stream|].subject == subject
    requires expected != "" && Accepts(stream, subject, expected)
    ensures !Accepts(later, subject, expected)
  {
    LastSequenceLater(stream, later, subject);
  }

  /**
   * How the store's check relates to the promise of the event log, for every expectation: they differ for the loaded
   * revision after an empty change set, and for any other revision that carries the last message's sequence.
   */
  lemma AcceptsAsPromisedExactlyWhen(stream: Stream, subject: string, log: Log, expected: Revision)
    requires Readable(stream, subject) && Events(log) == SubjectEvents(stream, subject)
    ensures (Accepts(stream, subject, expected) <==> Admits(log, expected)) <==>
      expected == "" ||
      if expected == RevisionFrom(Events(log)) then EndsNonEmpty(stream, subject)
      else ExpectedSequence(expected) != Ok(Some(LastSequence(stream, subject)))
  {
    InitialMeansEmpty(stream, subject);
    LoadThenPublish(stream, stream, subject);
  }

  /** An expected revision is compared by its sequence alone: its time and its event index play no part. */
  lemma OnlySequenceCompared(stream: Stream, subject: string, timestamp: nat, sequence: uint64, index: uint16)
    requires timestamp < TIME_LIMIT && sequence > 0
    ensures Accepts(stream, subject, RevisionText(timestamp, sequence, index)) <==>
      LastSequence(stream, subject) == sequence
  {
    EncodedExpectation(RevisionText(timestamp, sequence, index), timestamp, sequence, index);
  }

  /** Different aggregates have different subjects, as long as their types have no dots. */
  lemma SubjectsDiffer(a: AggregateId, b: AggregateId)
    requires '.' !in a.kind && '.' !in b.kind
    ensures Subject(a) == Subject(b) <==> a == b
  {
    assert Subject(a)[|PREFIX|..] == Encode(a) && Subject(b)[|PREFIX|..] == Encode(b);
    EncodeInjective(a, b);
  }

  // --- the order of event revisions ---------------------------------------------------------------------------

  ghost predicate Increasing(events: seq<RecordedEvent>) {
    forall i, j :: 0 <= i < j < |events| ==> Less(events[i].revision, events[j].revision)
  }

  lemma IncreasingJoin(a: seq<RecordedEvent>, b: seq<RecordedEvent>)
    requires a != [] && b != []
    ensures Increasing(a + b) <==>
      Increasing(a) && Increasing(b) && Less(a[|a| - 1].revision, b[0].revision)
  {
    var c := a + b;
    if Increasing(c) {
      forall i, j | 0 <= i < j < |b|
        ensures Less(b[i].revision, b[j].revision)
      {
        assert c[|a| + i] == b[i] && c[|a| + j] == b[j];
      }
      forall i, j | 0 <= i < j < |a|
        ensures Less(a[i].revision, a[j].revision)
      {
        assert c[i] == a[i] && c[j] == a[j];
      }
      assert c[|a| - 1] == a[|a| - 1] && c[|a|] == b[0];
    }
    if Increasing(a) && Increasing(b) && Less(a[|a| - 1].revision, b[0].revision) {
      forall i, j | 0 <= i < j < |c|
        ensures Less(c[i].revision, c[j].revision)
      {
        if i < |a| <= j {
          AcrossJoin(a, b, i, j - |a|);
        }
      }
    }
  }

  lemma AcrossJoin(a: seq<RecordedEvent>, b: seq<RecordedEvent>, i: nat, j: nat)
    requires i < |a| && j < |b| && Increasing(a) && Increasing(b) && Less(a[|a| - 1].revision, b[0].revision)
    ensures Less(a[i].revision, b[j].revision)
  {
    if i < |a| - 1 {
      Transitive(a[i].revision, a[|a| - 1].revision, b[0].revision);
    }
    if j > 0 {
      Transitive(a[i].revision, b[0].revision, b[j].revision);
    }
  }

  /** Within one change set the 16-bit index makes 65536 events the exact bound. */
  lemma DecodedIncreasing(m: Message, sequence: uint64)
    requires m.timestamp < TIME_LIMIT
    ensures Increasing(Decoded(m, sequence)) <==> |m.events| <= 65536
  {
    if |m.events| <= INDEX_LIMIT {
      forall i, j | 0 <= i < j < |m.events|
        ensures Less(Decoded(m, sequence)[i].revision, Decoded(m, sequence)[j].revision)
      {
        DecodedOrder(m, sequence, i, j);
      }
    } else {
      DecodedOrder(m, sequence, 0, INDEX_LIMIT);
    }
  }

  lemma DecodedOrder(m: Message, sequence: uint64, i: nat, j: nat)
    requires m.timestamp < TIME_LIMIT && i < j < |m.events| && j <= INDEX_LIMIT
    ensures Less(Decoded(m, sequence)[i].revision, Decoded(m, sequence)[j].revision) <==> j < INDEX_LIMIT
  {
    assert i % INDEX_LIMIT == i && j % INDEX_LIMIT == if j < INDEX_LIMIT then j else 0;
    RevisionOrder(m.timestamp, sequence, i % INDEX_LIMIT, m.timestamp, sequence, j % INDEX_LIMIT);
  }

  /** Server times do not fall from one change set that is not empty to a later one of the subject. */
  ghost predicate TimesRise(stream: Stream, subject: string) {
    forall i, j :: 0 <= i < j < |stream| && Counts(stream[i], subject) && Counts(stream[j], subject) ==>
      stream[i].timestamp <= stream[j].timestamp
  }

  ghost predicate WithinIndex(stream: Stream, subject: string) {
    forall i :: 0 <= i < |stream| && Counts(stream[i], subject) ==> |stream[i].events| <= 65536
  }

  /**
   * The revisions of a loaded log increase strictly if and only if the server's times do not fall and no change set
   * has more than 65536 events.
   */
  lemma {:induction false} RevisionsIncreaseExactlyWhen(stream: Stream, subject: string)
    requires Readable(stream, subject)
    ensures Increasing(SubjectEvents(stream, subject)) <==> TimesRise(stream, subject) && WithinIndex(stream, subject)
  {
    if stream != [] {
      var n := |stream| - 1;
      var front, m := stream[..n], stream[n];
      RevisionsIncreaseExactlyWhen(front, subject);
      ConditionsAppend(stream, subject);
      if Counts(m, subject) && TimesRise(front, subject) {
        AppendCounting(stream, subject);
      } else if Counts(m, subject) {
        var before, all := SubjectEvents(front, subject), SubjectEvents(stream, subject);
        assert forall i :: 0 <= i < |before| ==> before[i] == all[i];
      } else {
        assert SubjectEvents(stream, subject) == SubjectEvents(front, subject);
      }
    }
  }

  lemma AppendCounting(stream: Stream, subject: string)
    requires Readable(stream, subject) && stream != [] && Counts(stream[|stream| - 1], subject)
    requires TimesRise(stream[..|stream| - 1], subject)
    ensures var n := |stream| - 1;
      Increasing(SubjectEvents(stream, subject)) <==>
        (Increasing(SubjectEvents(stream[..n], subject)) && RisesTo(stream, subject, n)
          && |stream[n].events| <= INDEX_LIMIT)
  {
    var n := |stream| - 1;
    var before, events := SubjectEvents(stream[..n], subject), Decoded(stream[n], |stream|);
    DecodedIncreasing(stream[n], |stream|);
    if before == [] {
      NoEventsMeansEmpty(stream[..n], subject);
      assert before + events == events;
    } else {
      IncreasingJoin(before, events);
      StartsAbove(stream, stream[..n], subject);
    }
  }

  /** The first revision of the last message lies above all earlier ones exactly if its time does not fall. */
  lemma StartsAbove(stream: Stream, front: Stream, subject: string)
    requires Readable(stream, subject) && stream != [] && Counts(stream[|stream| - 1], subject)
    requires front == stream[..|stream| - 1] && TimesRise(front, subject) && SubjectEvents(front, subject) != []
    ensures Less(RevisionFrom(SubjectEvents(front, subject)), Decoded(stream[|stream| - 1], |stream|)[0].revision) <==>
      RisesTo(stream, subject, |stream| - 1)
  {
    var i, index := LastEventFrom(front, subject);
    var m := stream[|stream| - 1];
    RevisionOrder(stream[i].timestamp, i + 1, index, m.timestamp, |stream|, 0);
    assert Decoded(m, |stream|)[0].revision == RevisionText(m.timestamp, |stream|, 0);
    RisesFromLast(stream, front, subject, i);
  }

  lemma RisesFromLast(stream: Stream, front: Stream, subject: string, i: nat)
    requires stream != [] && Counts(stream[|stream| - 1], subject) && TimesRise(front, subject)
    requires i < |stream| - 1 && Counts(stream[i], subject)
    requires front == stream[..|stream| - 1] && forall k :: i < k < |front| ==> !Counts(front[k], subject)
    ensures RisesTo(stream, subject, |stream| - 1) <==> stream[i].timestamp <= stream[|stream| - 1].timestamp
  {
    var n := |stream| - 1;
    forall k | 0 <= k < n && Counts(stream[k], subject)
      ensures stream[k].timestamp <= stream[i].timestamp
    {
      assert front[k] == stream[k] && front[i] == stream[i];
    }
  }

  ghost predicate RisesTo(stream: Stream, subject: string, n: nat)
    requires n < |stream|
  {
    Counts(stream[n], subject) ==>
      forall i :: 0 <= i < n && Counts(stream[i], subject) ==> stream[i].timestamp <= stream[n].timestamp
  }

  /** What one more message adds to the two conditions. */
  lemma ConditionsAppend(stream: Stream, subject: string)
    requires stream != []
    ensures var n := |stream| - 1;
      && (WithinIndex(stream, subject) <==>
        (WithinIndex(stream[..n], subject) && (Counts(stream[n], subject) ==> |stream[n].events| <= INDEX_LIMIT)))
      && (TimesRise(stream, subject) <==> (TimesRise(stream[..n], subject) && RisesTo(stream, subject, n)))
  {
    var n := |stream| - 1;
    var front := stream[..n];
    assert forall i :: 0 <= i < n ==> front[i] == stream[i];
  }
}
