/** What holds over whole runs of the publish protocol, for every interleaving of any number of calls. */
module DynamoRuns {
  import opened Wrappers
  import opened TextOrder
  import opened Ulid
  import opened Revisions
  import opened EventLog
  import opened DynamoTable
  import opened DynamoProtocol

  /** All states of a run, from the empty table, with the step taken at each. */
  ghost predicate IsRun(history: seq<State>, steps: seq<Step>) {
    && |history| == |steps| + 1
    && history[0] == EMPTY
    && forall i :: 0 <= i < |steps| ==> Apply(history[i], steps[i]) == Some(history[i + 1])
  }

  ghost predicate IsHonestRun(history: seq<State>, steps: seq<Step>) {
    IsRun(history, steps) && forall i :: 0 <= i < |steps| ==> Honest(history[i], steps[i])
  }

  lemma {:induction false} RunAccounting(history: seq<State>, steps: seq<Step>, i: nat)
    requires IsRun(history, steps) && i < |history|
    ensures Accounting(history[i])
  {
    if i > 0 {
      RunAccounting(history, steps, i - 1);
      AccountingStep(history[i - 1], steps[i - 1]);
    }
  }

  /** In every honest run each partition always lists its commits in commit order, with the last at its head. */
  lemma {:induction false} RunSequenced(history: seq<State>, steps: seq<Step>, i: nat)
    requires IsHonestRun(history, steps) && i < |history|
    ensures Sequenced(history[i])
  {
    if i == 0 {
      forall pk
        ensures InOrder(EMPTY, pk)
      {
        assert At(EMPTY.table, pk) == Layout([]);
      }
    } else {
      RunSequenced(history, steps, i - 1);
      assert Apply(history[i - 1], steps[i - 1]) == Some(history[i]);
      SequencedStep(history[i - 1], steps[i - 1]);
    }
  }

  /** The history is append-only. */
  lemma {:induction false} CommitsGrow(history: seq<State>, steps: seq<Step>, i: nat, j: nat)
    requires IsRun(history, steps) && i <= j < |history|
    ensures history[i].commits <= history[j].commits
    decreases j
  {
    if i < j {
      CommitsGrow(history, steps, i, j - 1);
      assert Apply(history[j - 1], steps[j - 1]) == Some(history[j]);
    }
  }

  lemma LogsGrow(history: seq<State>, steps: seq<Step>, i: nat, j: nat, pk: string)
    requires IsRun(history, steps) && i <= j < |history|
    ensures LogOf(history[i].commits, pk) <= LogOf(history[j].commits, pk)
  {
    CommitsGrow(history, steps, i, j);
    assert history[j].commits[..|history[i].commits|] == history[i].commits;
    LogGrows(history[j].commits, |history[i].commits|, pk);
  }

  /** Between two states a log passes through every length between its own. */
  lemma {:induction false} LogPasses(history: seq<State>, steps: seq<Step>, i: nat, j: nat, pk: string, k: nat)
    returns (h: nat)
    requires IsRun(history, steps) && i <= j < |history|
    requires |LogOf(history[i].commits, pk)| <= k <= |LogOf(history[j].commits, pk)|
    ensures i <= h <= j && LogOf(history[h].commits, pk) == LogOf(history[j].commits, pk)[..k]
    decreases j
  {
    LogsGrow(history, steps, i, j, pk);
    if k == |LogOf(history[j].commits, pk)| {
      h := j;
    } else {
      OneCommitAStep(history[j - 1], steps[j - 1], history[j], pk);
      LogsGrow(history, steps, j - 1, j, pk);
      h := LogPasses(history, steps, i, j - 1, pk, k);
    }
  }

  lemma OneCommitAStep(s: State, step: Step, t: State, pk: string)
    requires Apply(s, step) == Some(t)
    ensures |LogOf(t.commits, pk)| <= |LogOf(s.commits, pk)| + 1
  {
    if step.Write? && Commits(s, step.id) {
      AppendCommit(s.commits, CommitOf(s, step.id), pk, step.id);
    }
  }

  /** An earlier state's partition is the layout of a prefix of the log. */
  lemma Snapshot(history: seq<State>, steps: seq<Step>, i: nat, j: nat, pk: string) returns (m: nat)
    requires IsHonestRun(history, steps) && i <= j < |history|
    ensures m == |LogOf(history[i].commits, pk)| <= |LogOf(history[j].commits, pk)|
    ensures Ordered(LogOf(history[j].commits, pk))
    ensures At(history[i].table, pk) == Layout(LogOf(history[j].commits, pk)[..m])
  {
    RunSequenced(history, steps, i);
    RunSequenced(history, steps, j);
    assert InOrder(history[i], pk) && InOrder(history[j], pk);
    LogsGrow(history, steps, i, j, pk);
    m := |LogOf(history[i].commits, pk)|;
    assert LogOf(history[j].commits, pk)[..m] == LogOf(history[i].commits, pk);
  }

  // --- exactly once ----------------------------------------------------------------------------------

  lemma {:induction false} CommitsByIndex(commits: seq<Commit>, id: nat, k: nat)
    requires k < |commits| && commits[k].call == id
    ensures commits[k] in CommitsBy(commits, id)
    ensures forall m :: 0 <= m < k && commits[m].call == id ==> |CommitsBy(commits, id)| > 1
  {
    if k < |commits| - 1 {
      CommitsByIndex(commits[..|commits| - 1], id, k);
    } else {
      forall m | 0 <= m < k && commits[m].call == id
        ensures |CommitsBy(commits, id)| > 1
      {
        CommitsByIndex(commits[..|commits| - 1], id, m);
      }
    }
  }

  lemma {:induction false} CommitsByFrom(commits: seq<Commit>, id: nat)
    requires CommitsBy(commits, id) != []
    ensures exists k :: 0 <= k < |commits| && commits[k].call == id
  {
    if commits[|commits| - 1].call != id {
      CommitsByFrom(commits[..|commits| - 1], id);
    }
  }

  /**
   * A call whose change set was committed has exactly one commit in the history, to its own partition and with all its
   * events in order; any other call has none.
   */
  ghost predicate CommittedOnce(commits: seq<Commit>, call: Call, id: nat) {
    && (call.phase.Committed? <==> exists k :: 0 <= k < |commits| && commits[k].call == id)
    && (forall k, m :: 0 <= m < k < |commits| && commits[k].call == id ==> commits[m].call != id)
    && (forall k :: 0 <= k < |commits| && commits[k].call == id ==> CarriesCall(commits[k], call))
  }

  predicate CarriesCall(c: Commit, call: Call) {
    c.pk == call.pk && c.expected == call.expected && Payload(c.cs.events) == call.events
  }

  lemma AccountedOnce(commits: seq<Commit>, call: Call, id: nat)
    requires Accounted(call, id, CommitsBy(commits, id))
    ensures CommittedOnce(commits, call, id)
  {
    var own := CommitsBy(commits, id);
    forall k | 0 <= k < |commits| && commits[k].call == id
      ensures call.phase.Committed? && CarriesCall(commits[k], call)
      ensures forall m :: 0 <= m < k ==> commits[m].call != id
    {
      CommitsByIndex(commits, id, k);
      assert commits[k] in own;
      assert own != [] && |own| == 1 && commits[k] == own[0];
    }
    if call.phase.Committed? {
      CommitsByFrom(commits, id);
    }
  }

  /** Whatever the schedule, the retries and the errors: every call is committed exactly once, or not at all. */
  lemma ExactlyOnce(history: seq<State>, steps: seq<Step>, i: nat, id: nat)
    requires IsRun(history, steps) && i < |history| && id in history[i].calls
    ensures CommittedOnce(history[i].commits, history[i].calls[id], id)
  {
    RunAccounting(history, steps, i);
    AccountedOnce(history[i].commits, history[i].calls[id], id);
  }

  /**
   * With or without the hypothesis on expecting writers: as long as the commits of a partition differ in revision, its
   * change-set records are exactly the committed ones, in some order, and its head record names the last commit.
   */
  lemma {:induction false} RecordsAreCommits(history: seq<State>, steps: seq<Step>, i: nat, pk: string)
    requires IsRun(history, steps) && i < |history| && Distinct(LogOf(history[i].commits, pk))
    ensures Keeps(At(history[i].table, pk), LogOf(history[i].commits, pk))
  {
    if i > 0 {
      LogsGrow(history, steps, i - 1, i, pk);
      DistinctPrefix(LogOf(history[i - 1].commits, pk), LogOf(history[i].commits, pk));
      RecordsAreCommits(history, steps, i - 1, pk);
      StepKeepsRecords(history[i - 1], steps[i - 1], history[i], pk);
    } else {
      assert At(history[0].table, pk) == [] && LogOf(history[0].commits, pk) == [];
    }
  }

  lemma StepKeepsRecords(s: State, step: Step, t: State, pk: string)
    requires Apply(s, step) == Some(t) && Keeps(At(s.table, pk), LogOf(s.commits, pk))
    requires Distinct(LogOf(t.commits, pk))
    ensures Keeps(At(t.table, pk), LogOf(t.commits, pk))
  {
    if step.Write? && Commits(s, step.id) {
      WriteKeepsRecords(s, step.id, pk);
    }
  }

  lemma WriteKeepsRecords(s: State, id: nat, pk: string)
    requires Complete(s, id) && Commits(s, id)
    requires Keeps(At(s.table, pk), LogOf(s.commits, pk)) && Distinct(LogOf(Wrote(s, id).commits, pk))
    ensures Keeps(At(Wrote(s, id).table, pk), LogOf(Wrote(s, id).commits, pk))
  {
    var p, log, cs := At(s.table, pk), LogOf(s.commits, pk), ChangeSetOf(s, id);
    AppendCommit(s.commits, CommitOf(s, id), pk, id);
    if pk == s.calls[id].pk {
      assert LogOf(Wrote(s, id).commits, pk) == log + [cs];
      PutsKeepRecords(p, log, cs);
    } else {
      assert LogOf(Wrote(s, id).commits, pk) == log && At(Wrote(s, id).table, pk) == p;
    }
  }

  function CountWrites(steps: seq<Step>, id: nat): nat {
    if steps == [] then 0
    else CountWrites(steps[..|steps| - 1], id) + if steps[|steps| - 1] == Write(id) then 1 else 0
  }

  lemma {:induction false} TriesAreWrites(history: seq<State>, steps: seq<Step>, i: nat, id: nat)
    requires IsRun(history, steps) && i < |history|
    ensures CountWrites(steps[..i], id) == if id in history[i].calls then history[i].calls[id].tried else 0
  {
    if i > 0 {
      TriesAreWrites(history, steps, i - 1, id);
      assert steps[..i][..i - 1] == steps[..i - 1];
      assert Apply(history[i - 1], steps[i - 1]) == Some(history[i]);
    }
  }

  /**
   * How often a call sends its conditional write: never more than its attempt bound, at most once when it expects a
   * revision; and when it reports a conflict, once if it expects a revision and otherwise exactly up to the bound.
   */
  lemma AttemptBound(history: seq<State>, steps: seq<Step>, i: nat, id: nat)
    requires IsRun(history, steps) && i < |history| && id in history[i].calls
    ensures var call, writes := history[i].calls[id], CountWrites(steps[..i], id);
      && writes <= call.attempts
      && (call.expected != "" ==> writes <= 1)
      && (call.phase == Failed(RevisionConflict) ==> writes == if call.expected == "" then call.attempts else 1)
      && (call.phase == Failed(EmptyPublish) ==> writes == 0)
  {
    RunAccounting(history, steps, i);
    TriesAreWrites(history, steps, i, id);
  }

  // --- the head record, in every run --------------------------------------------------------------------

  /** In every run, honest or not, the head record names the last commit and expectations were met. */
  lemma {:induction false} RunHeads(history: seq<State>, steps: seq<Step>, i: nat)
    requires IsRun(history, steps) && i < |history|
    ensures Headed(history[i])
  {
    if i == 0 {
      EmptyHeaded();
    } else {
      RunHeads(history, steps, i - 1);
      HeadedStep(history[i - 1], steps[i - 1], history[i]);
    }
  }

  lemma EmptyHeaded()
    ensures Headed(EMPTY)
  {
    forall pk
      ensures HeadedAt(EMPTY, pk)
    {
      assert At(EMPTY.table, pk) == [];
    }
  }

  /** In every run, when a write goes through: the last commit alone decides. */
  lemma WritesExactlyWhen(history: seq<State>, steps: seq<Step>, i: nat, id: nat)
    requires IsRun(history, steps) && i < |history| && Complete(history[i], id)
    ensures var call, cs := history[i].calls[id], ChangeSetOf(history[i], id);
      var log := LogOf(history[i].commits, call.pk);
      Commits(history[i], id) <==>
        if call.expected == "" then log == [] || Less(log[|log| - 1].revision, cs.revision)
        else Follows(log, call.expected)
  {
    RunHeads(history, steps, i);
    var s, call := history[i], history[i].calls[id];
    assert HeadedAt(s, call.pk);
    WriteFollowsExactlyWhen(At(s.table, call.pk), LogOf(s.commits, call.pk), call.expected, ChangeSetOf(s, id));
  }

  // --- how a call ends --------------------------------------------------------------------------------------

  /** What a write comes to, in every run, by the last commit of its partition alone. */
  lemma WriteOutcome(history: seq<State>, steps: seq<Step>, i: nat)
    requires IsRun(history, steps) && i < |steps| && steps[i].Write?
    ensures var s, t, id := history[i], history[i + 1], steps[i].id;
      && Complete(s, id) && id in t.calls
      && var call := s.calls[id];
      && t.calls[id] == call.(tried := call.tried + 1, phase := t.calls[id].phase)
      && if Admitted(s, id) then
           && t.calls[id].phase == Committed && |t.commits| == |s.commits| + 1 && s.commits <= t.commits
           && t.commits[|s.commits|].call == id && CarriesCall(t.commits[|s.commits|], call)
         else
           && t.table == s.table && t.commits == s.commits
           && t.calls[id].phase == if call.expected == "" && call.tried + 1 < call.attempts
                                   then Ready else Failed(RevisionConflict)
  {
    var s, id := history[i], steps[i].id;
    assert Apply(s, steps[i]) == Some(history[i + 1]);
    AdmittedIsCommits(history, steps, i, id);
    MadeOf(s.calls[id].events, s.calls[id].phase.drawn);
  }

  lemma AdmittedIsCommits(history: seq<State>, steps: seq<Step>, i: nat, id: nat)
    requires IsRun(history, steps) && i < |history| && Complete(history[i], id)
    ensures Commits(history[i], id) <==> Admitted(history[i], id)
  {
    WritesExactlyWhen(history, steps, i, id);
  }

  /** The call sends a write that the last commit of its partition admits. */
  predicate AcceptedWrite(s: State, step: Step, id: nat) {
    step == Write(id) && Complete(s, id) && Admitted(s, id)
  }

  /** The call's generator has no revision for it: the time needs more than 48 bits, or the entropy overflows. */
  predicate RefusedDraw(s: State, step: Step, id: nat) {
    step.DrawRevision? && step.id == id && IsDrawing(s, id) &&
    var now, g := s.calls[id].phase.now, GeneratorOf(s, s.calls[id].generator);
    now >= TIME_LIMIT || (g.Drawn? && g.ms == now && g.entropy + step.increment >= ENTROPY_LIMIT)
  }

  /** A phase that is reached by these steps only, and not left again, was reached if one of them was taken. */
  lemma {:induction false} ReachedWhen(history: seq<State>, steps: seq<Step>, i: nat, id: nat, phase: Phase,
                                       event: (State, Step) -> bool)
    requires IsRun(history, steps) && i < |history|
    requires forall k :: 0 <= k < i ==>
      (PhaseOf(history[k + 1], id) == Some(phase) <==>
        (PhaseOf(history[k], id) == Some(phase) || event(history[k], steps[k])))
    ensures PhaseOf(history[i], id) == Some(phase) <==> exists k :: 0 <= k < i && event(history[k], steps[k])
  {
    if i > 0 {
      ReachedWhen(history, steps, i - 1, id, phase, event);
    }
  }

  /** A call has committed exactly if one of its writes was admitted. */
  lemma CommittedExactlyWhen(history: seq<State>, steps: seq<Step>, i: nat, id: nat)
    requires IsRun(history, steps) && i < |history|
    ensures PhaseOf(history[i], id) == Some(Committed) <==>
      exists k :: 0 <= k < i && AcceptedWrite(history[k], steps[k], id)
  {
    forall k | 0 <= k < i
      ensures PhaseOf(history[k + 1], id) == Some(Committed) <==>
        (PhaseOf(history[k], id) == Some(Committed) || AcceptedWrite(history[k], steps[k], id))
    {
      assert Apply(history[k], steps[k]) == Some(history[k + 1]);
      if Complete(history[k], id) {
        AdmittedIsCommits(history, steps, k, id);
      }
    }
    ReachedWhen(history, steps, i, id, Committed, (s, step) => AcceptedWrite(s, step, id));
  }

  /** A call has failed in the backend exactly if the backend answered it with an error. */
  lemma BackendExactlyWhen(history: seq<State>, steps: seq<Step>, i: nat, id: nat)
    requires IsRun(history, steps) && i < |history|
    ensures PhaseOf(history[i], id) == Some(Failed(Backend)) <==> BackendError(id) in steps[..i]
  {
    forall k | 0 <= k < i
      ensures PhaseOf(history[k + 1], id) == Some(Failed(Backend)) <==>
        (PhaseOf(history[k], id) == Some(Failed(Backend)) || steps[k] == BackendError(id))
    {
      assert Apply(history[k], steps[k]) == Some(history[k + 1]);
    }
    ReachedWhen(history, steps, i, id, Failed(Backend), (s, step) => step == BackendError(id));
  }

  /** A call has failed for want of a revision exactly if a draw of it was refused. */
  lemma NoRevisionExactlyWhen(history: seq<State>, steps: seq<Step>, i: nat, id: nat)
    requires IsRun(history, steps) && i < |history|
    ensures PhaseOf(history[i], id) == Some(Failed(NoRevision)) <==>
      exists k :: 0 <= k < i && RefusedDraw(history[k], steps[k], id)
  {
    forall k | 0 <= k < i
      ensures PhaseOf(history[k + 1], id) == Some(Failed(NoRevision)) <==>
        (PhaseOf(history[k], id) == Some(Failed(NoRevision)) || RefusedDraw(history[k], steps[k], id))
    {
      assert Apply(history[k], steps[k]) == Some(history[k + 1]);
    }
    ReachedWhen(history, steps, i, id, Failed(NoRevision), (s, step) => RefusedDraw(s, step, id));
  }

  // --- no lost update, in every run ---------------------------------------------------------------------------

  /**
   * In every run, whatever the clocks show, a commit that expected a revision was made on exactly the log whose last
   * change set is named by it, or on the empty log: the log that loads it.
   */
  lemma NoLostUpdate(history: seq<State>, steps: seq<Step>, i: nat, k: nat)
    requires IsRun(history, steps) && i < |history| && k < |history[i].commits|
    requires history[i].commits[k].expected != ""
    ensures var c := history[i].commits[k];
      && Follows(LogOf(history[i].commits[..k], c.pk), c.expected)
      && RevisionFrom(Events(LogOf(history[i].commits[..k], c.pk))) == c.expected
  {
    RunHeads(history, steps, i);
    var commits, c := history[i].commits, history[i].commits[k];
    assert Anchored(commits, k);
    NamedPrefix(commits, k, c.pk);
    NamedLoads(LogOf(commits[..k], c.pk));
  }

  lemma CommitInLog(commits: seq<Commit>, k: nat)
    requires k < |commits|
    ensures |LogOf(commits[..k], commits[k].pk)| < |LogOf(commits, commits[k].pk)|
  {
    var pk := commits[k].pk;
    LogGrows(commits, k + 1, pk);
    assert commits[..k + 1][..k] == commits[..k];
  }

  /**
   * Among all publishers that expect the same revision of the same aggregate at most one commits. This needs no
   * hypothesis on clocks, only that the log does not use the expected revision twice; none for the initial revision.
   */
  lemma AtMostOneWinner(history: seq<State>, steps: seq<Step>, i: nat, k: nat, m: nat)
    requires IsRun(history, steps) && i < |history| && k < |history[i].commits| && m < |history[i].commits|
    requires history[i].commits[k].pk == history[i].commits[m].pk
    requires var expected := history[i].commits[k].expected;
      && expected == history[i].commits[m].expected != ""
      && (expected == INITIAL_REVISION || NamedOnce(LogOf(history[i].commits, history[i].commits[k].pk), expected))
    ensures k == m
  {
    if k < m {
      WinnersDiffer(history, steps, i, k, m);
    } else if m < k {
      WinnersDiffer(history, steps, i, m, k);
    }
  }

  lemma WinnersDiffer(history: seq<State>, steps: seq<Step>, i: nat, k: nat, m: nat)
    requires IsRun(history, steps) && i < |history| && k < m < |history[i].commits|
    requires history[i].commits[k].pk == history[i].commits[m].pk
    requires var expected := history[i].commits[k].expected;
      && expected != ""
      && (expected == INITIAL_REVISION || NamedOnce(LogOf(history[i].commits, history[i].commits[k].pk), expected))
    ensures history[i].commits[k].expected != history[i].commits[m].expected
  {
    var commits, pk := history[i].commits, history[i].commits[k].pk;
    if commits[k].expected == commits[m].expected {
      NoLostUpdate(history, steps, i, k);
      NoLostUpdate(history, steps, i, m);
      var log := LogOf(commits, pk);
      var a, b := PrefixLengths(commits, k, m, pk);
    }
  }

  /** In honest runs no revision is used twice. */
  lemma HonestAtMostOneWinner(history: seq<State>, steps: seq<Step>, i: nat, k: nat, m: nat)
    requires IsHonestRun(history, steps) && i < |history| && k < |history[i].commits| && m < |history[i].commits|
    requires history[i].commits[k].pk == history[i].commits[m].pk
    requires history[i].commits[k].expected == history[i].commits[m].expected != ""
    ensures k == m
  {
    var pk := history[i].commits[k].pk;
    RunSequenced(history, steps, i);
    assert InOrder(history[i], pk);
    OrderedIsDistinct(LogOf(history[i].commits, pk));
    AtMostOneWinner(history, steps, i, k, m);
  }

  lemma OrderedIsDistinct(log: Log)
    requires Ordered(log)
    ensures Distinct(log)
  {
    forall i, j | 0 <= i < j < |log|
      ensures log[i].revision != log[j].revision
    {
      Trichotomy(log[i].revision, log[j].revision);
    }
  }

  lemma PrefixLengths(commits: seq<Commit>, k: nat, m: nat, pk: string) returns (a: nat, b: nat)
    requires k < m < |commits| && commits[k].pk == pk
    ensures a < b <= |LogOf(commits, pk)|
    ensures LogOf(commits, pk)[..a] == LogOf(commits[..k], pk)
    ensures LogOf(commits, pk)[..b] == LogOf(commits[..m], pk)
  {
    LogGrows(commits, k, pk);
    LogGrows(commits, m, pk);
    assert commits[..m][..k] == commits[..k];
    CommitInLog(commits[..m], k);
    a, b := |LogOf(commits[..k], pk)|, |LogOf(commits[..m], pk)|;
  }

  /** A run in which no draw is the all-zero ULID. */
  ghost predicate IsNonZeroRun(history: seq<State>, steps: seq<Step>) {
    IsRun(history, steps) && forall i :: 0 <= i < |steps| ==> NonZero(history[i], steps[i])
  }

  lemma {:induction false} RunRevised(history: seq<State>, steps: seq<Step>, i: nat)
    requires IsNonZeroRun(history, steps) && i < |history|
    ensures Revised(history[i])
  {
    if i == 0 {
      forall pk
        ensures AllRevised(At(EMPTY.table, pk))
      {
        assert At(EMPTY.table, pk) == [];
      }
    } else {
      RunRevised(history, steps, i - 1);
      RevisedStep(history[i - 1], steps[i - 1], history[i]);
    }
  }

  /** Clocks that show a time after 1970 are enough. */
  lemma {:induction false} PositiveClocksAreNonZero(history: seq<State>, steps: seq<Step>)
    requires IsRun(history, steps) && forall i :: 0 <= i < |steps| && steps[i].Attempt? ==> steps[i].now > 0
    ensures IsNonZeroRun(history, steps)
  {
    forall i | 0 <= i < |steps|
      ensures NonZero(history[i], steps[i])
    {
      ClocksPositive(history, steps, i);
      if steps[i].DrawRevision? && IsDrawing(history[i], steps[i].id) {
        PositiveDraw(history[i], steps[i]);
      }
    }
  }

  lemma {:induction false} ClocksPositive(history: seq<State>, steps: seq<Step>, i: nat)
    requires IsRun(history, steps) && forall k :: 0 <= k < |steps| && steps[k].Attempt? ==> steps[k].now > 0
    requires i < |history|
    ensures forall id :: IsDrawing(history[i], id) ==> history[i].calls[id].phase.now > 0
  {
    if i > 0 {
      ClocksPositive(history, steps, i - 1);
      assert Apply(history[i - 1], steps[i - 1]) == Some(history[i]);
    }
  }

  lemma PositiveDraw(s: State, step: Step)
    requires step.DrawRevision? && IsDrawing(s, step.id) && s.calls[step.id].phase.now > 0
    ensures NonZero(s, step)
  {
    if step.random < ENTROPY_LIMIT && step.increment > 0 {
      var call := s.calls[step.id];
      var grown := Grown(GeneratorOf(s, call.generator), Draw(call.phase.now, step.random, step.increment));
      if grown.Some? {
        InitialOnlyZero(call.phase.now, grown.value.entropy);
      }
    }
  }

  lemma HonestIsNonZero(history: seq<State>, steps: seq<Step>)
    requires IsHonestRun(history, steps)
    ensures IsNonZeroRun(history, steps)
  {
    assert forall i :: 0 <= i < |steps| && steps[i].Attempt? ==> Honest(history[i], steps[i]);
    PositiveClocksAreNonZero(history, steps);
  }

  /**
   * Load, then publish with the loaded revision: if the reader saw the first `k` change sets of the log, its write
   * commits exactly if those are still all of it, unless the log uses that revision twice.
   */
  lemma LoadThenPublish(history: seq<State>, steps: seq<Step>, i: nat, id: nat, k: nat)
    requires IsNonZeroRun(history, steps) && i < |history| && Complete(history[i], id)
    requires var log := LogOf(history[i].commits, history[i].calls[id].pk);
      && k <= |log| && NamedOnce(log, history[i].calls[id].expected)
      && history[i].calls[id].expected == RevisionFrom(Events(log[..k]))
    ensures Commits(history[i], id) <==> k == |LogOf(history[i].commits, history[i].calls[id].pk)|
  {
    var s, call := history[i], history[i].calls[id];
    var log := LogOf(s.commits, call.pk);
    RunRevised(history, steps, i);
    RevisedLog(s.commits, call.pk);
    WritesExactlyWhen(history, steps, i, id);
    FollowsIsAdmits(log, call.expected);
    LoadedRevision(log[..k]);
    LoadedNamesLog(log, k);
  }

  /** In honest runs no revision is used twice. */
  lemma HonestLoadThenPublish(history: seq<State>, steps: seq<Step>, i: nat, id: nat, k: nat)
    requires IsHonestRun(history, steps) && i < |history| && Complete(history[i], id)
    requires k <= |LogOf(history[i].commits, history[i].calls[id].pk)|
    requires history[i].calls[id].expected
          == RevisionFrom(Events(LogOf(history[i].commits, history[i].calls[id].pk)[..k]))
    ensures Commits(history[i], id) <==> k == |LogOf(history[i].commits, history[i].calls[id].pk)|
  {
    var pk := history[i].calls[id].pk;
    RunSequenced(history, steps, i);
    assert InOrder(history[i], pk);
    OrderedIsDistinct(LogOf(history[i].commits, pk));
    HonestIsNonZero(history, steps);
    LoadThenPublish(history, steps, i, id, k);
  }

  /** In every reachable state, a prefix of the log has the initial revision exactly if it holds no events. */
  lemma InitialMeansEmpty(history: seq<State>, steps: seq<Step>, i: nat, pk: string, k: nat)
    requires IsNonZeroRun(history, steps) && i < |history| && k <= |LogOf(history[i].commits, pk)|
    ensures var events := Events(LogOf(history[i].commits, pk)[..k]);
      RevisionFrom(events) == INITIAL_REVISION <==> events == []
  {
    RunRevised(history, steps, i);
    RevisedLog(history[i].commits, pk);
    LoadedRevision(LogOf(history[i].commits, pk)[..k]);
  }

  // --- the hypothesis on expecting writers --------------------------------------------------------------

  /** A clock that is past the expected revision's millisecond is enough to draw above it. */
  lemma LaterClockDrawsAbove(s: State, id: nat, time: nat)
    requires Complete(s, id) && ProperDraws(s.calls[id])
    requires DrawnAt(s.calls[id].expected, time) && time < s.calls[id].phase.now
    ensures DrawnAbove(s, id)
  {
    var call := s.calls[id];
    var revision := call.phase.drawn[|call.phase.drawn| - 1];
    assert DrawnAt(revision, call.phase.now);
    var e: nat :| e < ENTROPY_LIMIT && call.expected == UlidText(time, e);
    var f: nat :| f < ENTROPY_LIMIT && revision == UlidText(call.phase.now, f);
    UlidOrder(time, e, call.phase.now, f);
  }

  /** Whatever the random source answers to the call's last draw, its change set lies above the expectation. */
  ghost predicate AboveForEveryDraw(s: State, id: nat)
    requires IsDrawing(s, id)
  {
    forall random: nat, increment: nat | random < ENTROPY_LIMIT && increment > 0 ::
      Complete(Drew(s, id, random, increment), id) ==> DrawnAbove(Drew(s, id, random, increment), id)
  }

  /** The call has drawn all but its last revision, and its generator can still draw at that millisecond. */
  predicate LastDraw(s: State, id: nat) {
    && IsDrawing(s, id)
    && |s.calls[id].phase.drawn| + 1 == |s.calls[id].events|
    && s.calls[id].phase.now < TIME_LIMIT
    && GeneratorOf(s, s.calls[id].generator) != Drawn(s.calls[id].phase.now, ENTROPY_LIMIT - 1)
  }

  /**
   * What a writer's clock must show, exactly: whatever is drawn lies above the expected revision if and only if the
   * clock is past the expected millisecond, or shows it while the generator already stands at the expected entropy or
   * above it. The clock alone is not enough in the expected millisecond, and never behind it.
   */
  lemma ClockSufficesExactlyWhen(s: State, id: nat, time: nat, entropy: nat)
    requires LastDraw(s, id) && time < TIME_LIMIT && entropy < ENTROPY_LIMIT && (time > 0 || entropy > 0)
    requires s.calls[id].expected == UlidText(time, entropy)
    ensures var g, now := GeneratorOf(s, s.calls[id].generator), s.calls[id].phase.now;
      AboveForEveryDraw(s, id) <==> time < now || (time == now && g.Drawn? && g.ms == now && entropy <= g.entropy)
  {
    var g, now := GeneratorOf(s, s.calls[id].generator), s.calls[id].phase.now;
    if time < now || (time == now && g.Drawn? && g.ms == now && entropy <= g.entropy) {
      forall random: nat, increment: nat | random < ENTROPY_LIMIT && increment > 0
        ensures Complete(Drew(s, id, random, increment), id) ==> DrawnAbove(Drew(s, id, random, increment), id)
      {
        DrawAgainstExpected(s, id, time, entropy, random, increment);
      }
    } else {
      DrawAgainstExpected(s, id, time, entropy, 0, 1);
    }
  }

  /** Behind the expected revision's millisecond no draw helps: if the write commits, it is not honest. */
  lemma ClockBehindIsNeverHonest(s: State, id: nat, time: nat, entropy: nat, random: nat, increment: nat)
    requires LastDraw(s, id) && time < TIME_LIMIT && entropy < ENTROPY_LIMIT && random < ENTROPY_LIMIT && increment > 0
    requires s.calls[id].expected == UlidText(time, entropy) && s.calls[id].phase.now < time
    requires Complete(Drew(s, id, random, increment), id)
    ensures !DrawnAbove(Drew(s, id, random, increment), id)
    ensures Commits(Drew(s, id, random, increment), id) ==> !Honest(Drew(s, id, random, increment), Write(id))
  {
    DrawAgainstExpected(s, id, time, entropy, random, increment);
  }

  /** One last draw against the expected revision: either no revision is drawn, or they compare as their parts do. */
  lemma DrawAgainstExpected(s: State, id: nat, time: nat, entropy: nat, random: nat, increment: nat)
    requires LastDraw(s, id) && time < TIME_LIMIT && entropy < ENTROPY_LIMIT && (time > 0 || entropy > 0)
    requires s.calls[id].expected == UlidText(time, entropy) && random < ENTROPY_LIMIT && increment > 0
    ensures var g, now := GeneratorOf(s, s.calls[id].generator), s.calls[id].phase.now;
      match Grown(g, Draw(now, random, increment))
      case None => !Complete(Drew(s, id, random, increment), id)
      case Some(e) =>
        && Complete(Drew(s, id, random, increment), id)
        && (DrawnAbove(Drew(s, id, random, increment), id) <==> time < now || (time == now && entropy < e.entropy))
  {
    var call, t := s.calls[id], Drew(s, id, random, increment);
    var grown := Grown(GeneratorOf(s, call.generator), Draw(call.phase.now, random, increment));
    if grown.Some? {
      InitialOnlyZero(time, entropy);
      UlidOrder(time, entropy, call.phase.now, grown.value.entropy);
      assert ChangeSetOf(t, id).revision == UlidText(call.phase.now, grown.value.entropy);
    }
  }

  /** The hypothesis is exact: a committing write keeps the table in order if and only if it meets it. */
  lemma CommitKeepsOrderExactlyWhenHonest(s: State, id: nat)
    requires Sequenced(s) && Complete(s, id) && Commits(s, id)
    ensures InOrder(Wrote(s, id), s.calls[id].pk) <==> Honest(s, Write(id))
  {
    if Honest(s, Write(id)) {
      CommitSequenced(s, id);
    } else {
      var call, cs := s.calls[id], ChangeSetOf(s, id);
      assert InOrder(s, call.pk);
      var log := LogOf(s.commits, call.pk);
      AppendCommit(s.commits, CommitOf(s, id), call.pk, id);
      WriteAccepts(log, call.expected, cs);
      LoadedRevision(log);
      OrderedAppend(log, cs);
      assert LogOf(Wrote(s, id).commits, call.pk) == log + [cs];
    }
  }

  // --- the revisions inside one change set ----------------------------------------------------------------

  ghost predicate Increasing(revisions: seq<Revision>) {
    forall i, j :: 0 <= i < j < |revisions| ==> Less(revisions[i], revisions[j])
  }

  /** The step draws from the generator of call `id`, at another millisecond. */
  predicate Disturbs(s: State, step: Step, id: nat) {
    && step.DrawRevision? && IsDrawing(s, step.id) && IsDrawing(s, id)
    && s.calls[step.id].generator == s.calls[id].generator
    && s.calls[step.id].phase.now != s.calls[id].phase.now
  }

  predicate IsDrawing(s: State, id: nat) {
    id in s.calls && s.calls[id].phase.Drawing?
  }

  /** What the call has drawn increases, and its generator still stands at or above the last of it. */
  ghost predicate Climbing(s: State, id: nat) {
    IsDrawing(s, id) ==>
      var call := s.calls[id];
      var drawn, g := call.phase.drawn, GeneratorOf(s, call.generator);
      && Increasing(drawn)
      && (drawn != [] ==> g.Drawn? && g.ms == call.phase.now && !Less(UlidText(g.ms, g.entropy), drawn[|drawn| - 1]))
  }

  lemma ClimbingStep(s: State, step: Step, t: State, id: nat)
    requires Apply(s, step) == Some(t) && Climbing(s, id) && IsDrawing(s, id)
    requires !Disturbs(s, step, id)
    ensures Climbing(t, id)
  {
    if step.DrawRevision? && s.calls[step.id].generator == s.calls[id].generator {
      ClimbingDraw(s, step.id, step.random, step.increment, id);
    }
  }

  lemma ClimbingDraw(s: State, other: nat, random: nat, increment: nat, id: nat)
    requires IsDrawing(s, other) && IsDrawing(s, id) && Climbing(s, id) && random < ENTROPY_LIMIT && increment > 0
    requires s.calls[other].generator == s.calls[id].generator && s.calls[other].phase.now == s.calls[id].phase.now
    ensures Climbing(Drew(s, other, random, increment), id)
  {
    var call := s.calls[id];
    var g, d := GeneratorOf(s, call.generator), Draw(call.phase.now, random, increment);
    NextIsAbove(g, d, call.phase.drawn);
    if other == id && Next(g, d).1.Some? {
      AppendIncreasing(call.phase.drawn, Next(g, d).1.value);
    }
  }

  lemma NextIsAbove(g: Entropy, d: Draw, drawn: seq<Revision>)
    requires drawn != [] ==> g.Drawn? && g.ms == d.ms && !Less(UlidText(g.ms, g.entropy), drawn[|drawn| - 1])
    ensures var (e, r) := Next(g, d);
      && (drawn != [] ==> e.Drawn? && e.ms == d.ms && !Less(UlidText(e.ms, e.entropy), drawn[|drawn| - 1]))
      && (r.Some? ==> e.Drawn? && e.ms == d.ms && r.value == UlidText(e.ms, e.entropy) && !Less(r.value, r.value))
      && (r.Some? && drawn != [] ==> Less(drawn[|drawn| - 1], r.value))
  {
    var (e, r) := Next(g, d);
    if r.Some? {
      Trichotomy(r.value, r.value);
      if drawn != [] {
        var last := drawn[|drawn| - 1];
        UlidOrder(g.ms, g.entropy, e.ms, e.entropy);
        Trichotomy(UlidText(g.ms, g.entropy), last);
        if last != UlidText(g.ms, g.entropy) {
          Transitive(last, UlidText(g.ms, g.entropy), r.value);
        }
        Trichotomy(last, r.value);
      }
    }
  }

  lemma AppendIncreasing(drawn: seq<Revision>, revision: Revision)
    requires Increasing(drawn) && (drawn != [] ==> Less(drawn[|drawn| - 1], revision))
    ensures Increasing(drawn + [revision])
  {
    forall i | 0 <= i < |drawn|
      ensures Less(drawn[i], revision)
    {
      if i < |drawn| - 1 {
        Transitive(drawn[i], drawn[|drawn| - 1], revision);
      }
    }
  }

  /**
   * The revisions that one attempt draws increase strictly, as long as nobody draws from the same generator at
   * another millisecond between the attempt's start (state `from`) and now.
   */
  lemma {:induction false} OwnRevisionsIncrease(history: seq<State>, steps: seq<Step>, from: nat, i: nat, id: nat)
    requires IsRun(history, steps) && from <= i < |history|
    requires forall k :: from <= k <= i ==> IsDrawing(history[k], id)
    requires IsDrawing(history[from], id) && history[from].calls[id].phase.drawn == []
    requires forall k :: from <= k < i ==> !Disturbs(history[k], steps[k], id)
    ensures IsDrawing(history[i], id) && Climbing(history[i], id)
    ensures Increasing(history[i].calls[id].phase.drawn)
    decreases i
  {
    if from < i {
      var j := i - 1;
      OwnRevisionsIncrease(history, steps, from, j, id);
      ClimbingStep(history[j], steps[j], history[j + 1], id);
    }
  }
}
