/**
 * The DynamoDB store's own loops, run against a table that other calls keep changing: filling a change set, the
 * retrying publish, and the paged read. Clocks, randomness, page sizes and the steps of others are arbitrary.
 */
module DynamoStore {
  import opened Wrappers
  import opened Ulid
  import opened EventLog
  import opened DynamoTable
  import opened DynamoProtocol
  import opened DynamoRuns

  datatype ReadError = QueryFailed | Unfinished

  /** How much of the log a reader holds: the first `k` change sets, and the key to continue after. */
  ghost predicate HasRead(s: State, pk: string, events: seq<RecordedEvent>, start: Option<string>, k: nat) {
    var log := LogOf(s.commits, pk);
    k <= |log| && events == Events(log[..k]) && StandsAt(start, log, k)
  }

  class DynamoEventStore {
    /** The table, the generators and the calls in flight now, and every state they have been in. */
    var state: State
    var history: seq<State>
    var steps: seq<Step>

    ghost predicate Valid()
      reads this
    {
      IsRun(history, steps) && state == history[|history| - 1]
    }

    constructor ()
      ensures Valid() && state == EMPTY
    {
      state := EMPTY;
      history := [EMPTY];
      steps := [];
    }

    method Take(step: Step)
      requires Valid() && Apply(state, step).Some?
      modifies this
      ensures Valid() && Apply(old(state), step) == Some(state)
      ensures history == old(history) + [state] && steps == old(steps) + [step]
    {
      state := Apply(state, step).value;
      history := history + [state];
      steps := steps + [step];
    }

    /** Any number of steps of any calls other than `me`, new ones included. */
    method Interfere(me: Option<nat>)
      requires Valid()
      modifies this
      ensures Valid() && old(history) <= history && old(steps) <= steps
      ensures forall i :: |old(steps)| <= i < |steps| ==> Some(steps[i].id) != me
      ensures me.Some? ==> (me.value in state.calls <==> me.value in old(state.calls))
      ensures me.Some? && me.value in state.calls ==> state.calls[me.value] == old(state.calls)[me.value]
    {
      var n: nat := *;
      while n > 0
        invariant Valid() && old(history) <= history && old(steps) <= steps
        invariant forall i :: |old(steps)| <= i < |steps| ==> Some(steps[i].id) != me
        invariant me.Some? ==> (me.value in state.calls <==> me.value in old(state.calls))
        invariant me.Some? && me.value in state.calls ==> state.calls[me.value] == old(state.calls)[me.value]
      {
        var step: Step := *;
        if Some(step.id) != me && Apply(state, step).Some? {
          Take(step);
        }
        n := n - 1;
      }
    }

    /** One draw from the call's generator, after others may have drawn from it. */
    method NewRevision(me: nat) returns (revision: Option<Revision>)
      requires Valid() && me in state.calls && state.calls[me].phase.Drawing? && !Complete(state, me)
      requires state.calls[me].events != []
      modifies this
      ensures Valid() && old(history) <= history && old(steps) <= steps
      ensures me in state.calls && state.calls[me] == old(state.calls)[me].(phase := state.calls[me].phase)
      ensures state.calls[me].phase == match revision
        case Some(r) => Drawing(old(state.calls)[me].phase.now, old(state.calls)[me].phase.drawn + [r])
        case None => Failed(NoRevision)
    {
      Interfere(Some(me));
      assert 0 < ENTROPY_LIMIT && 1 > 0;
      var random: nat :| random < ENTROPY_LIMIT;
      var increment: nat :| increment > 0;
      var count := |state.calls[me].phase.drawn|;
      Take(DrawRevision(me, random, increment));
      revision := if state.calls[me].phase.Drawing? then Some(state.calls[me].phase.drawn[count]) else None;
    }

    /** The change-set loop of one attempt: one locked draw per event, with others drawing in between. */
    method MakeChangeSet(me: nat) returns (changes: Option<ChangeSet>)
      requires Valid() && me in state.calls && state.calls[me].phase.Ready? && state.calls[me].events != []
      modifies this
      ensures Valid() && old(history) <= history && old(steps) <= steps
      ensures me in state.calls && state.calls[me] == old(state.calls)[me].(phase := state.calls[me].phase)
      ensures changes.Some? ==> Complete(state, me) && changes.value == ChangeSetOf(state, me)
      ensures changes.None? ==> state.calls[me].phase == Failed(NoRevision)
    {
      var now: nat := *;
      var call := state.calls[me];
      Take(Attempt(me, now));
      var recorded := new RecordedEvent[|call.events|](_ => RecordedEvent("", call.events[0]));
      for index := 0 to |call.events|
        invariant Valid() && old(history) <= history && old(steps) <= steps
        invariant me in state.calls && state.calls[me].phase.Drawing?
        invariant state.calls[me] == call.(phase := state.calls[me].phase)
        invariant |state.calls[me].phase.drawn| == index
        invariant forall i :: 0 <= i < index ==>
          recorded[i] == RecordedEvent(state.calls[me].phase.drawn[i], call.events[i])
      {
        var revision := NewRevision(me);
        if revision.None? {
          return None;
        }
        recorded[index] := RecordedEvent(revision.value, call.events[index]);
      }
      changes := Some(ChangeSet(recorded[recorded.Length - 1].revision, recorded[..]));
    }

    /** The conditional write of a filled change set, or an error of the backend instead of it. */
    method WriteChangeSet(me: nat, broken: bool)
      requires Valid() && Complete(state, me)
      modifies this
      ensures Valid() && old(history) <= history && old(steps) <= steps
      ensures me in state.calls
      ensures var before, call := old(state.calls)[me], state.calls[me];
        if broken then call == before.(phase := Failed(Backend))
        else
          && call == before.(tried := before.tried + 1, phase := call.phase)
          && call.phase == if old(Admitted(state, me)) then Committed
                           else if before.expected == "" && before.tried + 1 < before.attempts then Ready
                           else Failed(RevisionConflict)
    {
      if broken {
        Take(BackendError(me));
      } else {
        Take(Write(me));
        WriteOutcome(history, steps, |steps| - 1);
      }
    }

    /**
     * One attempt: fill a change set, then write it. It counts as tried if it was written, and ends in a backend error
     * only if the backend is broken.
     */
    method TryOnce(me: nat, broken: bool)
      requires Valid() && me in state.calls && state.calls[me].phase.Ready? && state.calls[me].events != []
      requires state.calls[me].tried < state.calls[me].attempts
      modifies this
      ensures Valid() && old(history) <= history && old(steps) <= steps
      ensures me in state.calls && !state.calls[me].phase.Drawing?
      ensures var call := state.calls[me]; call == old(state.calls)[me].(tried := call.tried, phase := call.phase)
      ensures var before, call := old(state.calls)[me], state.calls[me];
        if call.phase == Failed(Backend) then broken && call.tried == before.tried
        else if call.phase == Failed(NoRevision) then call.tried == before.tried
        else !broken && call.tried == before.tried + 1
      ensures state.calls[me].phase.Ready? ==> state.calls[me].tried < state.calls[me].attempts
    {
      Interfere(Some(me));
      var changes := MakeChangeSet(me);
      if changes.Some? {
        Interfere(Some(me));
        WriteChangeSet(me, broken);
      }
    }

    /**
     * Publish with its retries; `broken` says which of its attempts the backend answers with an error. Returning
     * without failure means that exactly one change set with all the events, in order, was added to the aggregate's
     * partition; returning a failure means that none was, and why.
     */
    method Publish(me: nat, generator: nat, pk: string, expected: Revision, events: seq<DomainEvent>, attempts: nat,
                   broken: nat -> bool)
      returns (failure: Option<Failure>)
      requires Valid() && me !in state.calls && attempts > 0
      modifies this
      ensures Valid() && old(history) <= history && old(steps) <= steps
      ensures me in state.calls && PublishedAs(me, state.calls[me])
      ensures var phase := if failure.None? then Committed else Failed(failure.value);
        state.calls[me] == Call(generator, pk, expected, events, attempts, state.calls[me].tried, phase)
      ensures forall n :: 0 <= n < state.calls[me].tried ==> !broken(n)
      ensures failure == Some(Backend) ==> broken(state.calls[me].tried)
    {
      Interfere(Some(me));
      Take(Begin(me, generator, pk, expected, events, attempts));
      while state.calls[me].phase.Ready?
        invariant Valid() && old(history) <= history && old(steps) <= steps
        invariant me in state.calls && !state.calls[me].phase.Drawing?
        invariant state.calls[me]
               == Call(generator, pk, expected, events, attempts, state.calls[me].tried, state.calls[me].phase)
        invariant state.calls[me].phase.Ready? ==> events != [] && state.calls[me].tried < attempts
        invariant forall n :: 0 <= n < state.calls[me].tried ==> !broken(n)
        invariant state.calls[me].phase == Failed(Backend) ==> broken(state.calls[me].tried)
        decreases if state.calls[me].phase.Ready? then attempts - state.calls[me].tried else 0
      {
        TryOnce(me, broken(state.calls[me].tried));
      }
      failure := if state.calls[me].phase.Failed? then Some(state.calls[me].phase.failure) else None;
      Returned(me);
    }

    /** What a returned publish means for the history of the store, how often it wrote, and how it ended. */
    ghost predicate PublishedAs(me: nat, call: Call)
      reads this
    {
      && CommittedOnce(state.commits, call, me)
      && CountWrites(steps, me) == call.tried <= call.attempts
      && (call.expected != "" ==> CountWrites(steps, me) <= 1)
      && (call.phase == Failed(RevisionConflict) ==>
            CountWrites(steps, me) == if call.expected == "" then call.attempts else 1)
      && (call.phase == Failed(EmptyPublish) <==> call.events == [])
      && EndedAs(me, call)
    }

    /** It committed if a write of it was admitted; it names the cause otherwise; all else is a revision conflict. */
    ghost predicate EndedAs(me: nat, call: Call)
      reads this
    {
      && |history| == |steps| + 1
      && (call.phase == Committed <==>
            exists k :: 0 <= k < |steps| && AcceptedWrite(history[k], steps[k], me))
      && (call.phase == Failed(Backend) <==> BackendError(me) in steps)
      && (call.phase == Failed(NoRevision) <==>
            exists k :: 0 <= k < |steps| && RefusedDraw(history[k], steps[k], me))
    }

    lemma Returned(me: nat)
      requires Valid() && me in state.calls && (state.calls[me].phase.Committed? || state.calls[me].phase.Failed?)
      ensures PublishedAs(me, state.calls[me])
    {
      var last := |history| - 1;
      assert steps[..|steps|] == steps;
      ExactlyOnce(history, steps, last, me);
      AttemptBound(history, steps, last, me);
      TriesAreWrites(history, steps, last, me);
      RunAccounting(history, steps, last);
      Ended(me);
    }

    lemma Ended(me: nat)
      requires Valid() && me in state.calls
      ensures EndedAs(me, state.calls[me])
    {
      var last := |history| - 1;
      assert steps[..|steps|] == steps;
      CommittedExactlyWhen(history, steps, last, me);
      BackendExactlyWhen(history, steps, last, me);
      NoRevisionExactlyWhen(history, steps, last, me);
    }

    /** What a reader holds stays a prefix of the log while others commit. */
    lemma StillHasRead(pk: string, i: nat, events: seq<RecordedEvent>, start: Option<string>, k: nat)
      requires Valid() && i < |history|
      requires HasRead(history[i], pk, events, start, k)
      ensures HasRead(state, pk, events, start, k)
    {
      LogsGrow(history, steps, i, |history| - 1, pk);
      assert LogOf(state.commits, pk)[..k] == LogOf(history[i].commits, pk)[..k];
    }

    /** One query, answered from any state since `oldest`, after others may have committed. */
    method QueryPage(pk: string, oldest: nat, start: Option<string>, answer: Answer,
                     ghost events: seq<RecordedEvent>, ghost k: nat)
      returns (out: Option<Page>, ghost k': nat)
      requires Valid() && oldest < |history|
      requires IsHonestRun(history, steps) ==> HasRead(state, pk, events, start, k)
      modifies this
      ensures Valid() && old(history) <= history && old(steps) <= steps
      ensures out.None? <==> answer == QueryFails
      ensures out.Some? && IsNonZeroRun(history, steps) ==> EndsRevised(EventsOf(out.value.items))
      ensures out.Some? && IsHonestRun(history, steps) ==>
        var page := out.value;
        && (page.last.Some? && IsPlain(answer) ==> k < k')
        && k <= k' <= |LogOf(state.commits, pk)|
        && events + EventsOf(page.items) == Events(LogOf(state.commits, pk)[..k'])
        && (page.last.Some? ==> HasRead(state, pk, events + EventsOf(page.items), page.last, k'))
        && (page.last.None? ==> |LogOf(history[oldest].commits, pk)| <= k')
    {
      ghost var before := |history| - 1;
      Interfere(None);
      k' := k;
      if answer == QueryFails {
        return None, k';
      }
      assert oldest < |history|;
      var h: nat :| oldest <= h < |history|;
      out := Some(Query(At(history[h].table, pk), CHANGE_SET, start, answer.limit, answer.more));
      if IsNonZeroRun(history, steps) {
        RunRevised(history, steps, h);
        PageRevised(At(history[h].table, pk), CHANGE_SET, start, answer.limit, answer.more);
      }
      if IsHonestRun(history, steps) {
        StillHasRead(pk, before, events, start, k);
        k' := ReadPage(pk, oldest, h, events, start, k, answer.limit, answer.more);
      }
    }

    /** The log as it was at some moment since `oldest`; `k` is its length. */
    ghost predicate WasLog(pk: string, oldest: nat, events: seq<RecordedEvent>, k: nat)
      reads this
    {
      exists h :: oldest <= h < |history| && |LogOf(history[h].commits, pk)| == k
        && events == Events(LogOf(history[h].commits, pk))
    }

    /**
     * The paged read, with others committing between the pages. Each page may be answered from any state the table has
     * been in since `oldest`, earlier or later than those of the pages before it; `answers` says how the backend cuts
     * them. A completed read is the log, in whole change sets, as it was at one moment since `oldest`. The read is
     * still unfinished after these answers only if no more of them than the log has change sets were plain ones.
     */
    method Read(pk: string, oldest: nat, answers: seq<Answer>)
      returns (r: Result<seq<RecordedEvent>, ReadError>, ghost k: nat)
      requires Valid() && oldest < |history|
      modifies this
      ensures Valid() && old(history) <= history && old(steps) <= steps
      ensures r.Ok? && IsNonZeroRun(history, steps) ==> EndsRevised(r.value)
      ensures r.Ok? && IsHonestRun(history, steps) ==>
        && |LogOf(history[oldest].commits, pk)| <= k <= |LogOf(state.commits, pk)|
        && r.value == Events(LogOf(state.commits, pk)[..k])
        && WasLog(pk, oldest, r.value, k)
      ensures r == Err(QueryFailed) ==> QueryFails in answers
      ensures r == Err(Unfinished) && IsHonestRun(history, steps) ==> Plain(answers) <= |LogOf(state.commits, pk)|
    {
      var events: seq<RecordedEvent> := [];
      var start: Option<string> := None;
      k := 0;
      for page := 0 to |answers|
        invariant Valid() && old(history) <= history && old(steps) <= steps
        invariant IsNonZeroRun(history, steps) ==> EndsRevised(events)
        invariant IsHonestRun(history, steps) ==> HasRead(state, pk, events, start, k) && Plain(answers[..page]) <= k
      {
        var out;
        assert answers[..page + 1][..page] == answers[..page];
        out, k := QueryPage(pk, oldest, start, answers[page], events, k);
        if out.None? {
          return Err(QueryFailed), k;
        }
        if IsNonZeroRun(history, steps) {
          EndsJoin(events, EventsOf(out.value.items));
        }
        events := events + EventsOf(out.value.items);
        start := out.value.last;
        if start == None {
          if IsHonestRun(history, steps) {
            MomentOf(pk, oldest, events, k);
          }
          return Ok(events), k;
        }
      }
      assert answers[..|answers|] == answers;
      r := Err(Unfinished);
    }

    lemma MomentOf(pk: string, oldest: nat, events: seq<RecordedEvent>, k: nat)
      requires Valid() && oldest < |history|
      requires |LogOf(history[oldest].commits, pk)| <= k <= |LogOf(state.commits, pk)|
      requires events == Events(LogOf(state.commits, pk)[..k])
      ensures WasLog(pk, oldest, events, k)
    {
      var h := LogPasses(history, steps, oldest, |history| - 1, pk, k);
    }

    lemma ReadPage(pk: string, oldest: nat, h: nat, events: seq<RecordedEvent>, start: Option<string>, k: nat,
                   limit: nat, more: bool)
      returns (k': nat)
      requires Valid() && IsHonestRun(history, steps) && oldest <= h < |history|
      requires HasRead(state, pk, events, start, k)
      ensures k <= k' <= |LogOf(state.commits, pk)|
      ensures var out := Query(At(history[h].table, pk), CHANGE_SET, start, limit, more);
        && events + EventsOf(out.items) == Events(LogOf(state.commits, pk)[..k'])
        && (out.last.Some? ==> HasRead(state, pk, events + EventsOf(out.items), out.last, k'))
        && (out.last.None? ==> |LogOf(history[oldest].commits, pk)| <= k')
        && (out.last.Some? && limit > 0 && !more ==> k < k')
    {
      var m := Snapshot(history, steps, h, |history| - 1, pk);
      LogsGrow(history, steps, oldest, h, pk);
      k' := PageExtendsPrefix(LogOf(state.commits, pk), m, start, k, limit, more);
    }

    /**
     * Load: the revision handed out is that of the last event, and in every run without an all-zero draw it is the
     * initial one exactly if there are no events, whatever pages were read from.
     */
    method Load(pk: string, oldest: nat, answers: seq<Answer>)
      returns (r: Result<(Revision, seq<RecordedEvent>), ReadError>, ghost k: nat)
      requires Valid() && oldest < |history|
      modifies this
      ensures Valid() && old(history) <= history && old(steps) <= steps
      ensures r.Ok? && IsHonestRun(history, steps) ==>
        && |LogOf(history[oldest].commits, pk)| <= k <= |LogOf(state.commits, pk)|
        && r.value.1 == Events(LogOf(state.commits, pk)[..k])
        && WasLog(pk, oldest, r.value.1, k)
      ensures r.Ok? ==> r.value.0 == RevisionFrom(r.value.1)
      ensures r.Ok? && IsNonZeroRun(history, steps) ==>
        (r.value.0 == INITIAL_REVISION <==> r.value.1 == [])
      ensures r == Err(QueryFailed) ==> QueryFails in answers
      ensures r == Err(Unfinished) && IsHonestRun(history, steps) ==> Plain(answers) <= |LogOf(state.commits, pk)|
    {
      var events;
      events, k := Read(pk, oldest, answers);
      match events
      case Err(e) => r := Err(e);
      case Ok(read) => r := Ok((RevisionFrom(read), read));
    }
  }
}
