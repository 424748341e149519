/**
 * What happens without the hypothesis on expecting writers: a second process whose clock is behind publishes with the
 * revision it has just loaded, commits, and leaves the table out of commit order.
 */
module DynamoWitness {
  import opened Wrappers
  import opened TextOrder
  import opened Ulid
  import opened EventLog
  import opened DynamoTable
  import opened DynamoProtocol
  import opened DynamoRuns

  /** The slow writer expects what the fast one committed at millisecond `late`, but draws at `early`. */
  function SlowWriterSteps(pk: string, first: DomainEvent, second: DomainEvent, late: nat, early: nat): seq<Step>
    requires late < TIME_LIMIT
  {
    PublishSteps(0, pk, "", first, late) + PublishSteps(1, pk, UlidText(late, 0), second, early)
  }

  /** One call with a generator of its own, whose random source answers zero. */
  function PublishSteps(id: nat, pk: string, expected: Revision, event: DomainEvent, time: nat): (steps: seq<Step>)
    ensures |steps| == 4
  {
    [Begin(id, id, pk, expected, [event], 1), Attempt(id, time), DrawRevision(id, 0, 1), Write(id)]
  }

  function Recorded(event: DomainEvent, time: nat): ChangeSet
    requires time < TIME_LIMIT
  {
    ChangeSet(UlidText(time, 0), [RecordedEvent(UlidText(time, 0), event)])
  }

  /** Up to its write, the call's steps are possible in a state that knows neither the call nor its generator. */
  lemma {:induction false} DrawOnce(s: State, id: nat, pk: string, expected: Revision, event: DomainEvent, time: nat)
    returns (history: seq<State>)
    requires id !in s.calls && id !in s.generators && time < TIME_LIMIT
    ensures |history| == 4 && history[0] == s
    ensures var steps := PublishSteps(id, pk, expected, event, time);
      forall i :: 0 <= i < 3 ==>
        Apply(history[i], steps[i]) == Some(history[i + 1]) && (time > 0 ==> Honest(history[i], steps[i]))
    ensures history[3].table == s.table && history[3].commits == s.commits
    ensures history[3].generators.Keys == s.generators.Keys + {id}
    ensures history[3].calls
         == s.calls[id := Call(id, pk, expected, [event], 1, 0, Drawing(time, [UlidText(time, 0)]))]
  {
    var a := Apply(s, Begin(id, id, pk, expected, [event], 1)).value;
    var b := Apply(a, Attempt(id, time)).value;
    var c := Apply(b, DrawRevision(id, 0, 1)).value;
    assert [] + [UlidText(time, 0)] == [UlidText(time, 0)];
    history := [s, a, b, c];
  }

  /** The call's four steps. */
  lemma PublishOnce(s: State, id: nat, pk: string, expected: Revision, event: DomainEvent, time: nat,
                    p: Partition)
    returns (history: seq<State>)
    requires id !in s.calls && id !in s.generators && time < TIME_LIMIT
    requires WriteChanges(At(s.table, pk), expected, Recorded(event, time)) == Some(p)
    ensures |history| == 5 && history[0] == s
    ensures var steps := PublishSteps(id, pk, expected, event, time);
      && (forall i :: 0 <= i < 4 ==> Apply(history[i], steps[i]) == Some(history[i + 1]))
      && (time > 0 ==> forall i :: 0 <= i < 3 ==> Honest(history[i], steps[i]))
      && (Honest(history[3], steps[3]) <==>
          expected == "" || expected == INITIAL_REVISION || Less(expected, UlidText(time, 0)))
    ensures history[4].table == s.table[pk := p]
    ensures history[4].commits == s.commits + [Commit(id, pk, expected, Recorded(event, time))]
    ensures history[4].calls.Keys == s.calls.Keys + {id} && history[4].generators.Keys == s.generators.Keys + {id}
  {
    var drawn := DrawOnce(s, id, pk, expected, event, time);
    var c := drawn[3];
    assert ChangeSetOf(c, id) == Recorded(event, time);
    history := drawn + [CommittedTo(c, id, p)];
  }

  lemma FirstWrite(high: ChangeSet)
    ensures WriteChanges([], "", high) == Some([ChangesFor(high), LatestFor(high)])
  {
    WriteExtendsLayout([], high);
    assert Layout([]) == [] && Layout([] + [high]) == [ChangesFor(high), LatestFor(high)];
  }

  lemma SecondWrite(low: ChangeSet, high: ChangeSet)
    requires Less(low.revision, high.revision) && high.revision != "" && high.revision != INITIAL_REVISION
    ensures WriteChanges([ChangesFor(high), LatestFor(high)], high.revision, low)
         == Some([ChangesFor(low), ChangesFor(high), LatestFor(low)])
  {
    var p := [ChangesFor(high), LatestFor(high)];
    assert p[1..] == [LatestFor(high)];
    HeadIsLast(high.revision);
    Trichotomy(SortKey(high.revision), LATEST);
    assert Get(p, LATEST) == Some(LatestFor(high));
    assert Put([LatestFor(high)], LatestFor(low)) == [LatestFor(low)];
    assert Put(p, LatestFor(low)) == [ChangesFor(high), LatestFor(low)];
    SortKeyOrder(low.revision, high.revision);
    Trichotomy(low.revision, high.revision);
    assert Put([ChangesFor(high), LatestFor(low)], ChangesFor(low))
        == [ChangesFor(low), ChangesFor(high), LatestFor(low)];
  }

  /** The partition then reads in sort-key order. */
  lemma ReadsOutOfOrder(low: ChangeSet, high: ChangeSet)
    ensures var items := [ChangesFor(low), ChangesFor(high)];
      && Query(items + [LatestFor(low)], CHANGE_SET, None, 2, false) == Page(items, None)
      && EventsOf(items) == low.events + high.events
  {
    var items := [ChangesFor(low), ChangesFor(high)];
    SortKeyOrder(low.revision, high.revision);
    SortKeyOrder(high.revision, low.revision);
    HeadIsLast(low.revision);
    SelectJoin(items, [LatestFor(low)], CHANGE_SET, None);
    SelectAll(items, CHANGE_SET, None);
    SelectNothing([LatestFor(low)], CHANGE_SET, None);
    assert items[..1] == [ChangesFor(low)];
    assert EventsOf(items[..1]) == low.events;
  }

  /** Its head is not what a reader takes for the revision, so a write that expects the latter is refused. */
  lemma RefusesLoadedRevision(low: ChangeSet, high: ChangeSet, cs: ChangeSet)
    requires low.revision != high.revision && high.revision != "" && high.revision != INITIAL_REVISION
    ensures WriteChanges([ChangesFor(low), ChangesFor(high)] + [LatestFor(low)], high.revision, cs) == None
  {
    HeadIsLast(low.revision);
    HeadIsLast(high.revision);
    GetPast([ChangesFor(low), ChangesFor(high)], [LatestFor(low)], LATEST);
  }

  lemma OneChangeSet(cs: ChangeSet)
    ensures Events([cs]) == cs.events
  {
    assert [cs][..0] == [];
    assert Events([]) + cs.events == cs.events;
  }

  lemma TwoInLog(commits: seq<Commit>, a: Commit, b: Commit)
    requires commits == [a] + [b] && a.pk == b.pk
    ensures LogOf(commits, a.pk) == [a.cs] + [b.cs]
  {
    AppendCommit([a], b, a.pk, 0);
    assert [a][..0] == [];
    assert LogOf([a], a.pk) == LogOf([], a.pk) + [a.cs];
  }

  lemma TwoCommits(commits: seq<Commit>, a: Commit, b: Commit)
    requires commits == [a] + [b] && a.pk == b.pk
    ensures Events(LogOf(commits, a.pk)) == a.cs.events + b.cs.events
  {
    TwoInLog(commits, a, b);
    EventsOfJoin([a.cs], [b.cs]);
    OneChangeSet(a.cs);
    OneChangeSet(b.cs);
  }

  /** The calls' eight steps are possible, and only the last one is not honest. */
  lemma {:induction false} SlowWriterRuns(pk: string, first: DomainEvent, second: DomainEvent, late: nat, early: nat)
    returns (history: seq<State>)
    requires 0 < early < late < TIME_LIMIT
    ensures var steps := SlowWriterSteps(pk, first, second, late, early);
      && IsRun(history, steps)
      && (forall i :: 0 <= i < 7 ==> Honest(history[i], steps[i])) && !Honest(history[7], steps[7])
    ensures var low, high := Recorded(second, early), Recorded(first, late);
      && At(history[8].table, pk) == [ChangesFor(low), ChangesFor(high), LatestFor(low)]
      && history[8].commits == [Commit(0, pk, "", high), Commit(1, pk, high.revision, low)]
  {
    var low, high := Recorded(second, early), Recorded(first, late);
    var p, q := [ChangesFor(high), LatestFor(high)], [ChangesFor(low), ChangesFor(high), LatestFor(low)];
    BothWrites(low, high, first, second, late, early);
    var h1 := PublishOnce(EMPTY, 0, pk, "", first, late, p);
    var h2 := PublishOnce(h1[4], 1, pk, high.revision, second, early, q);
    history := h1 + h2[1..];
    JoinRuns(h1, h2, PublishSteps(0, pk, "", first, late), PublishSteps(1, pk, high.revision, second, early));
  }

  lemma BothWrites(low: ChangeSet, high: ChangeSet, first: DomainEvent, second: DomainEvent, late: nat, early: nat)
    requires 0 < early < late < TIME_LIMIT && low == Recorded(second, early) && high == Recorded(first, late)
    ensures WriteChanges([], "", high) == Some([ChangesFor(high), LatestFor(high)])
    ensures WriteChanges([ChangesFor(high), LatestFor(high)], high.revision, low)
         == Some([ChangesFor(low), ChangesFor(high), LatestFor(low)])
    ensures high.revision != "" && high.revision != INITIAL_REVISION && !Less(high.revision, low.revision)
  {
    UlidOrder(early, 0, late, 0);
    UlidOrder(late, 0, early, 0);
    InitialOnlyZero(late, 0);
    FirstWrite(high);
    SecondWrite(low, high);
  }

  lemma JoinRuns(h1: seq<State>, h2: seq<State>, steps1: seq<Step>, steps2: seq<Step>)
    requires |h1| == 5 && |h2| == 5 && |steps1| == |steps2| == 4 && h1[0] == EMPTY && h1[4] == h2[0]
    requires forall i :: 0 <= i < 4 ==> Apply(h1[i], steps1[i]) == Some(h1[i + 1])
    requires forall i :: 0 <= i < 4 ==> Apply(h2[i], steps2[i]) == Some(h2[i + 1])
    requires forall i :: 0 <= i < 4 ==> Honest(h1[i], steps1[i])
    requires forall i :: 0 <= i < 3 ==> Honest(h2[i], steps2[i])
    ensures IsRun(h1 + h2[1..], steps1 + steps2)
    ensures forall i :: 0 <= i < 7 ==> Honest((h1 + h2[1..])[i], (steps1 + steps2)[i])
    ensures (h1 + h2[1..])[7] == h2[3] && (h1 + h2[1..])[8] == h2[4]
  {
    var history, steps := h1 + h2[1..], steps1 + steps2;
    forall i | 0 <= i < 8
      ensures Apply(history[i], steps[i]) == Some(history[i + 1])
      ensures i < 7 ==> Honest(history[i], steps[i])
    {
      if i < 4 {
        assert history[i] == h1[i] && history[i + 1] == h1[i + 1] && steps[i] == steps1[i];
      } else {
        assert history[i] == h2[i - 4] && history[i + 1] == h2[i - 3] && steps[i] == steps2[i - 4];
      }
    }
  }

  /**
   * The run: every clock is positive and every step possible, yet reading in sort-key order yields the second event
   * before the first, and the revision a reader loads is not the head record's, so that publishing with it is refused
   * although nothing was written in between.
   */
  lemma {:induction false} SlowWriterBreaksOrder(pk: string, first: DomainEvent, second: DomainEvent, late: nat,
                                                 early: nat)
    returns (history: seq<State>)
    requires 0 < early < late < TIME_LIMIT
    ensures var steps := SlowWriterSteps(pk, first, second, late, early);
      && IsRun(history, steps)
      && (forall i :: 0 <= i < 7 ==> Honest(history[i], steps[i])) && !Honest(history[7], steps[7])
    ensures var s, read := history[8], Query(At(history[8].table, pk), CHANGE_SET, None, 2, false);
      && Payload(Events(LogOf(s.commits, pk))) == [first, second]
      && read.last == None
      && Payload(EventsOf(read.items)) == [second, first]
      && forall cs :: WriteChanges(At(s.table, pk), RevisionFrom(EventsOf(read.items)), cs) == None
  {
    history := SlowWriterRuns(pk, first, second, late, early);
    var low, high := Recorded(second, early), Recorded(first, late);
    InitialOnlyZero(late, 0);
    UlidOrder(late, 0, early, 0);
    ReadsOutOfOrder(low, high);
    assert At(history[8].table, pk) == [ChangesFor(low), ChangesFor(high)] + [LatestFor(low)];
    forall cs
      ensures WriteChanges(At(history[8].table, pk), high.revision, cs) == None
    {
      RefusesLoadedRevision(low, high, cs);
    }
    TwoCommits(history[8].commits, history[8].commits[0], history[8].commits[1]);
  }

  // --- a revision used twice ----------------------------------------------------------------------------------

  /** States that follow each other by these steps. */
  ghost predicate IsSegment(history: seq<State>, steps: seq<Step>) {
    && |history| == |steps| + 1
    && forall i :: 0 <= i < |steps| ==> Apply(history[i], steps[i]) == Some(history[i + 1])
  }

  lemma Continued(h1: seq<State>, h2: seq<State>, steps1: seq<Step>, steps2: seq<Step>)
    requires IsRun(h1, steps1) && IsSegment(h2, steps2) && h1[|h1| - 1] == h2[0]
    ensures IsRun(h1 + h2[1..], steps1 + steps2)
    ensures (h1 + h2[1..])[|h1| + |h2| - 2] == h2[|h2| - 1]
  {
    var history, steps := h1 + h2[1..], steps1 + steps2;
    forall i | 0 <= i < |steps|
      ensures Apply(history[i], steps[i]) == Some(history[i + 1])
    {
      if i < |steps1| {
        assert history[i] == h1[i] && history[i + 1] == h1[i + 1] && steps[i] == steps1[i];
      } else {
        var k := i - |steps1|;
        assert history[i] == h2[k] && history[i + 1] == h2[k + 1] && steps[i] == steps2[k];
      }
    }
  }

  /** A change set that is named as the one it expects replaces its record. */
  lemma SameNameWrite(first: ChangeSet, second: ChangeSet)
    requires first.revision == second.revision && first.revision != "" && first.revision != INITIAL_REVISION
    ensures WriteChanges([ChangesFor(first), LatestFor(first)], first.revision, second)
         == Some([ChangesFor(second), LatestFor(second)])
  {
    HeadIsLast(first.revision);
    Trichotomy(SortKey(first.revision), LATEST);
    var p := [ChangesFor(first), LatestFor(first)];
    assert p[1..] == [LatestFor(first)];
    assert Get(p, LATEST) == Some(LatestFor(first));
    assert Put(p[1..], LatestFor(second)) == [LatestFor(second)];
    assert Put(p, LatestFor(second)) == [ChangesFor(first), LatestFor(second)];
    assert [ChangesFor(first), LatestFor(second)][1..] == [LatestFor(second)];
    assert Put([ChangesFor(first), LatestFor(second)], ChangesFor(second)) == [ChangesFor(second), LatestFor(second)];
  }

  lemma NextWrite(second: ChangeSet, third: ChangeSet)
    requires Less(second.revision, third.revision) && second.revision != "" && second.revision != INITIAL_REVISION
    ensures WriteChanges([ChangesFor(second), LatestFor(second)], second.revision, third)
         == Some([ChangesFor(second), ChangesFor(third), LatestFor(third)])
  {
    WriteExtendsLayout([second], third);
    assert Layout([second]) == [ChangesFor(second), LatestFor(second)];
    assert Layout([second] + [third]) == [ChangesFor(second), ChangesFor(third), LatestFor(third)];
    GetHead([second]);
  }

  /** Three calls: the second is given the revision it expects, the third expects it too. */
  function TwiceSteps(pk: string, events: (DomainEvent, DomainEvent, DomainEvent), time: nat, later: nat): seq<Step>
    requires time < TIME_LIMIT
  {
    PublishSteps(0, pk, "", events.0, time) + PublishSteps(1, pk, UlidText(time, 0), events.1, time)
    + PublishSteps(2, pk, UlidText(time, 0), events.2, later)
  }

  lemma TwiceWrites(first: ChangeSet, second: ChangeSet, third: ChangeSet, time: nat, later: nat)
    requires 0 < time < later < TIME_LIMIT
    requires first.revision == second.revision == UlidText(time, 0) && third.revision == UlidText(later, 0)
    ensures WriteChanges([], "", first) == Some([ChangesFor(first), LatestFor(first)])
    ensures WriteChanges([ChangesFor(first), LatestFor(first)], UlidText(time, 0), second)
         == Some([ChangesFor(second), LatestFor(second)])
    ensures WriteChanges([ChangesFor(second), LatestFor(second)], UlidText(time, 0), third)
         == Some([ChangesFor(second), ChangesFor(third), LatestFor(third)])
  {
    InitialOnlyZero(time, 0);
    UlidOrder(time, 0, later, 0);
    FirstWrite(first);
    SameNameWrite(first, second);
    NextWrite(second, third);
  }

  /** Two calls in turn, each with a generator of its own. */
  lemma {:induction false} TwoCalls(pk: string, expected: Revision, first: DomainEvent, second: DomainEvent, time: nat,
                                    p: Partition, q: Partition)
    returns (history: seq<State>)
    requires time < TIME_LIMIT
    requires WriteChanges([], "", Recorded(first, time)) == Some(p)
    requires WriteChanges(p, expected, Recorded(second, time)) == Some(q)
    ensures IsRun(history, PublishSteps(0, pk, "", first, time) + PublishSteps(1, pk, expected, second, time))
    ensures history[8].table == map[pk := q] && history[8].calls.Keys == history[8].generators.Keys == {0, 1}
    ensures history[8].commits
         == [Commit(0, pk, "", Recorded(first, time)), Commit(1, pk, expected, Recorded(second, time))]
  {
    var steps := PublishSteps(0, pk, "", first, time);
    history := ExtendRun([EMPTY], [], 0, pk, "", first, time, p);
    assert [] + steps == steps;
    history := ExtendRun(history, steps, 1, pk, expected, second, time, q);
  }

  /** A third one, at a later time. */
  lemma {:induction false} ThreeCalls(pk: string, expected: Revision, events: (DomainEvent, DomainEvent, DomainEvent),
                                      time: nat, later: nat, p: Partition, q: Partition, r: Partition)
    returns (history: seq<State>)
    requires time < TIME_LIMIT && later < TIME_LIMIT
    requires WriteChanges([], "", Recorded(events.0, time)) == Some(p)
    requires WriteChanges(p, expected, Recorded(events.1, time)) == Some(q)
    requires WriteChanges(q, expected, Recorded(events.2, later)) == Some(r)
    ensures IsRun(history, PublishSteps(0, pk, "", events.0, time) + PublishSteps(1, pk, expected, events.1, time)
                           + PublishSteps(2, pk, expected, events.2, later))
    ensures |history| == 13 && At(history[12].table, pk) == r
    ensures history[12].commits
         == [Commit(0, pk, "", Recorded(events.0, time)), Commit(1, pk, expected, Recorded(events.1, time)),
             Commit(2, pk, expected, Recorded(events.2, later))]
  {
    history := TwoCalls(pk, expected, events.0, events.1, time, p, q);
    var steps := PublishSteps(0, pk, "", events.0, time) + PublishSteps(1, pk, expected, events.1, time);
    history := ExtendRun(history, steps, 2, pk, expected, events.2, later, r);
  }

  /** One more call at the end of a run. */
  lemma {:induction false} ExtendRun(history: seq<State>, steps: seq<Step>, id: nat, pk: string, expected: Revision,
                                     event: DomainEvent, time: nat, p: Partition)
    returns (longer: seq<State>)
    requires IsRun(history, steps) && time < TIME_LIMIT
    requires var s := history[|steps|];
      && id !in s.calls && id !in s.generators
      && WriteChanges(At(s.table, pk), expected, Recorded(event, time)) == Some(p)
    ensures IsRun(longer, steps + PublishSteps(id, pk, expected, event, time))
    ensures var s, t := history[|steps|], longer[|steps| + 4];
      && t.table == s.table[pk := p]
      && t.commits == s.commits + [Commit(id, pk, expected, Recorded(event, time))]
      && t.calls.Keys == s.calls.Keys + {id} && t.generators.Keys == s.generators.Keys + {id}
  {
    var more := PublishOnce(history[|steps|], id, pk, expected, event, time, p);
    longer := history + more[1..];
    Continued(history, more, steps, PublishSteps(id, pk, expected, event, time));
  }

  /**
   * What happens when a revision is used twice: two publishers that expect it both commit, and the first of the change
   * sets with that name is gone from the table. All clocks are positive, only two generators drew the same ULID.
   */
  lemma {:induction false} RevisionUsedTwice(pk: string, events: (DomainEvent, DomainEvent, DomainEvent), time: nat,
                                             later: nat)
    returns (history: seq<State>)
    requires 0 < time < later < TIME_LIMIT && events.0 != events.1
    ensures IsRun(history, TwiceSteps(pk, events, time, later))
    ensures var first, second, third := Recorded(events.0, time), Recorded(events.1, time), Recorded(events.2, later);
      && first.revision == second.revision
      && history[12].commits
      == [Commit(0, pk, "", first), Commit(1, pk, first.revision, second), Commit(2, pk, first.revision, third)]
      && At(history[12].table, pk) == [ChangesFor(second), ChangesFor(third), LatestFor(third)]
      && ChangesFor(first) !in At(history[12].table, pk)
  {
    var first, second, third := Recorded(events.0, time), Recorded(events.1, time), Recorded(events.2, later);
    TwiceWrites(first, second, third, time, later);
    history := ThreeCalls(pk, first.revision, events, time, later, [ChangesFor(first), LatestFor(first)],
                          [ChangesFor(second), LatestFor(second)],
                          [ChangesFor(second), ChangesFor(third), LatestFor(third)]);
    assert first.events[0].event != second.events[0].event;
  }

  // --- an all-zero draw ----------------------------------------------------------------------------------------

  /** Why no draw may be the all-zero ULID: its change set is loaded with the initial revision. */
  lemma {:induction false} ZeroDrawLooksEmpty(pk: string, event: DomainEvent) returns (history: seq<State>)
    ensures IsRun(history, PublishSteps(0, pk, "", event, 0))
    ensures var events := Events(LogOf(history[4].commits, pk));
      Payload(events) == [event] && RevisionFrom(events) == INITIAL_REVISION
  {
    var cs := Recorded(event, 0);
    InitialOnlyZero(0, 0);
    FirstWrite(cs);
    history := PublishOnce(EMPTY, 0, pk, "", event, 0, [ChangesFor(cs), LatestFor(cs)]);
    OneInLog(history[4].commits, Commit(0, pk, "", cs));
  }

  lemma OneInLog(commits: seq<Commit>, c: Commit)
    requires commits == [] + [c]
    ensures Events(LogOf(commits, c.pk)) == c.cs.events
  {
    AppendCommit([], c, c.pk, 0);
    assert LogOf(commits, c.pk) == [c.cs];
    OneChangeSet(c.cs);
  }
}
