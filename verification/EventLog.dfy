/**
 * The event log every store presents for one aggregate: change sets in commit order, and what
 * loading it yields.
 */
module EventLog {
  import opened TextOrder
  import opened Ulid

  const JSON := "application/json"

  /**
   * A payload: its encoding name and the integer fields of the object it decodes to, if it can be decoded at all. Field
   * names are in lower case, since decoding does not distinguish cases.
   */
  datatype Data = Data(encoding: string, fields: map<string, int>) | Malformed(encoding: string)

  datatype DomainEvent = DomainEvent(eventType: string, data: Data)

  /** What an array of events holds until it is filled. */
  const NO_EVENT := DomainEvent("", Data("", map[]))

  datatype RecordedEvent = RecordedEvent(revision: Revision, event: DomainEvent)

  /** The events of one publish; `revision` is the revision of the last of them. */
  datatype ChangeSet = ChangeSet(revision: Revision, events: seq<RecordedEvent>)

  type Log = seq<ChangeSet>

  /** All events of a log, in order. */
  function Events(log: Log): seq<RecordedEvent> {
    if log == [] then [] else Events(log[..|log| - 1]) + log[|log| - 1].events
  }

  lemma {:induction false} EventsOfJoin(a: Log, b: Log)
    ensures Events(a + b) == Events(a) + Events(b)
  {
    if b == [] {
      assert a + b == a;
    } else {
      assert (a + b)[..|a + b| - 1] == a + b[..|b| - 1];
      EventsOfJoin(a, b[..|b| - 1]);
    }
  }

  /** The aggregate's revision: that of the last event loaded, or the initial revision. */
  function RevisionFrom(events: seq<RecordedEvent>): Revision {
    if events == [] then INITIAL_REVISION else events[|events| - 1].revision
  }

  /** These events have the initial revision exactly if there are none. */
  predicate EndsRevised(events: seq<RecordedEvent>) {
    RevisionFrom(events) == INITIAL_REVISION <==> events == []
  }

  lemma EndsJoin(a: seq<RecordedEvent>, b: seq<RecordedEvent>)
    requires EndsRevised(a) && EndsRevised(b)
    ensures EndsRevised(a + b)
  {
    if b == [] {
      assert a + b == a;
    } else {
      LastOfJoin(a, b);
    }
  }

  /** The published events without the revisions they were recorded with. */
  function Payload(events: seq<RecordedEvent>): seq<DomainEvent> {
    seq(|events|, i requires 0 <= i < |events| => events[i].event)
  }

  /**
   * The promise of optimistic concurrency: a publish without expectation is always admissible, and one that
   * expects a revision is admissible exactly on the log that loads it.
   */
  predicate Admits(log: Log, expected: Revision) {
    expected == "" || expected == RevisionFrom(Events(log))
  }

  /** Change sets as publishers make them: not empty, named after their last event, never the initial revision. */
  predicate WellFormed(cs: ChangeSet) {
    && cs.events != []
    && cs.revision == cs.events[|cs.events| - 1].revision
    && cs.revision != INITIAL_REVISION
    && cs.revision != ""
  }

  ghost predicate AllWellFormed(log: Log) {
    forall i :: 0 <= i < |log| ==> WellFormed(log[i])
  }

  /** At most one change set of the log has this revision. */
  ghost predicate NamedOnce(log: Log, revision: Revision) {
    forall i, j :: 0 <= i < j < |log| ==> !(log[i].revision == revision == log[j].revision)
  }

  /** On a log that uses the expected revision at most once, it names exactly the log it was loaded from. */
  lemma {:induction false} LoadedNamesLog(log: Log, k: nat)
    requires AllWellFormed(log) && k <= |log| && NamedOnce(log, RevisionFrom(Events(log[..k])))
    ensures RevisionFrom(Events(log)) == RevisionFrom(Events(log[..k])) <==> k == |log|
  {
    LoadedRevision(log);
    LoadedRevision(log[..k]);
    assert log[..|log|] == log;
    if 0 < k < |log| {
      assert log[..k][k - 1] == log[k - 1];
    }
  }

  /** So publishing with a loaded revision is admissible exactly on the log it was loaded from. */
  lemma {:induction false} LoadedAdmits(seen: Log, log: Log)
    requires seen <= log && AllWellFormed(log) && NamedOnce(log, RevisionFrom(Events(seen)))
    ensures RevisionFrom(Events(seen)) != ""
    ensures Admits(log, RevisionFrom(Events(seen))) <==> log == seen
  {
    assert log[..|seen|] == seen;
    LoadedNamesLog(log, |seen|);
    assert seen != [] ==> WellFormed(log[|seen| - 1]) && seen[|seen| - 1] == log[|seen| - 1];
    forall i | 0 <= i < |seen|
      ensures WellFormed(seen[i])
    {
      assert seen[i] == log[i];
    }
    LoadedRevision(seen);
  }

  /** Revisions strictly increase from each change set to the next. */
  ghost predicate Ordered(log: Log) {
    forall i, j :: 0 <= i < j < |log| ==> Less(log[i].revision, log[j].revision)
  }

  lemma LastOfJoin(a: seq<RecordedEvent>, b: seq<RecordedEvent>)
    requires b != []
    ensures a + b != [] && RevisionFrom(a + b) == b[|b| - 1].revision
  {
  }

  lemma {:induction false} LoadedRevision(log: Log)
    requires AllWellFormed(log)
    ensures RevisionFrom(Events(log)) == if log == [] then INITIAL_REVISION else log[|log| - 1].revision
    ensures Events(log) == [] <==> log == []
  {
    if log != [] {
      var last := log[|log| - 1];
      assert WellFormed(last);
      LastOfJoin(Events(log[..|log| - 1]), last.events);
    }
  }

  /** In an ordered log the loaded revision says which prefix of it was loaded. */
  lemma LoadedRevisionNamesPrefix(log: Log, i: nat, j: nat)
    requires AllWellFormed(log) && Ordered(log) && i <= |log| && j <= |log|
    ensures RevisionFrom(Events(log[..i])) == RevisionFrom(Events(log[..j])) <==> i == j
  {
    LoadedRevision(log[..i]);
    LoadedRevision(log[..j]);
    if 0 < i && 0 < j && i != j {
      Trichotomy(log[i - 1].revision, log[j - 1].revision);
    }
  }

  lemma OrderedAppend(log: Log, cs: ChangeSet)
    requires Ordered(log)
    ensures Ordered(log + [cs]) <==> log == [] || Less(log[|log| - 1].revision, cs.revision)
  {
    var longer := log + [cs];
    if log != [] {
      if Less(log[|log| - 1].revision, cs.revision) {
        forall i, j | 0 <= i < j < |longer|
          ensures Less(longer[i].revision, longer[j].revision)
        {
          if j == |log| && i < |log| - 1 {
            Transitive(log[i].revision, log[|log| - 1].revision, cs.revision);
          }
        }
      } else {
        assert longer[|log| - 1] == log[|log| - 1] && longer[|log|] == cs;
      }
    }
  }
}
