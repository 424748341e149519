/**
 * The DynamoDB publish protocol: any number of publish calls, on any number of aggregates, drawing revisions from
 * any number of shared generators, with their steps interleaved in any order.
 */
module DynamoProtocol {
  import opened Wrappers
  import opened TextOrder
  import opened Ulid
  import opened Revisions
  import opened EventLog
  import opened DynamoTable

  datatype Failure = EmptyPublish | NoRevision | RevisionConflict | Backend

  /** Where a call stands: between attempts, filling its change set, or returned. */
  datatype Phase =
    | Ready
    | Drawing(now: nat, drawn: seq<Revision>)
    | Committed
    | Failed(failure: Failure)

  /** One call of `publish`; `tried` counts the conditional writes it has issued, at most `attempts`. */
  datatype Call = Call(
    generator: nat,
    pk: string,
    expected: Revision,
    events: seq<DomainEvent>,
    attempts: nat,
    tried: nat,
    phase: Phase)

  datatype Commit = Commit(call: nat, pk: string, expected: Revision, cs: ChangeSet)

  /** `commits` is the history of successful writes; no step reads it. */
  datatype State = State(table: Table, generators: map<nat, Entropy>, calls: map<nat, Call>, commits: seq<Commit>)

  const EMPTY: State := State(map[], map[], map[], [])

  datatype Step =
    | Begin(id: nat, generator: nat, pk: string, expected: Revision, events: seq<DomainEvent>, attempts: nat)
    | Attempt(id: nat, now: nat)
    | DrawRevision(id: nat, random: nat, increment: nat)
    | Write(id: nat)
    | BackendError(id: nat)

  function MakeChangeSet(events: seq<DomainEvent>, drawn: seq<Revision>): ChangeSet
    requires |events| == |drawn| > 0
  {
    ChangeSet(drawn[|drawn| - 1], seq(|events|, i requires 0 <= i < |events| => RecordedEvent(drawn[i], events[i])))
  }

  predicate Active(s: State, id: nat) {
    id in s.calls && (s.calls[id].phase.Ready? || s.calls[id].phase.Drawing?)
  }

  predicate Complete(s: State, id: nat) {
    && id in s.calls && s.calls[id].phase.Drawing?
    && |s.calls[id].phase.drawn| == |s.calls[id].events| > 0
  }

  function ChangeSetOf(s: State, id: nat): ChangeSet
    requires Complete(s, id)
  {
    MakeChangeSet(s.calls[id].events, s.calls[id].phase.drawn)
  }

  function GeneratorOf(s: State, generator: nat): Entropy {
    if generator in s.generators then s.generators[generator] else Undrawn
  }

  /** One step of one call; None when the step is not possible in `s`. */
  function Apply(s: State, step: Step): Option<State> {
    match step
    case Begin(id, generator, pk, expected, events, attempts) =>
      if id in s.calls || attempts == 0 then None
      else
        var phase := if events == [] then Failed(EmptyPublish) else Ready;
        Some(s.(calls := s.calls[id := Call(generator, pk, expected, events, attempts, 0, phase)]))
    case Attempt(id, now) =>
      if Active(s, id) && s.calls[id].phase.Ready? then Some(Moved(s, id, Drawing(now, []))) else None
    case DrawRevision(id, random, increment) =>
      if Active(s, id) && s.calls[id].phase.Drawing? && !Complete(s, id) && random < ENTROPY_LIMIT && increment > 0
      then Some(Drew(s, id, random, increment)) else None
    case Write(id) =>
      if Complete(s, id) then Some(Wrote(s, id)) else None
    case BackendError(id) =>
      if Active(s, id) then Some(Moved(s, id, Failed(Backend))) else None
  }

  function Moved(s: State, id: nat, phase: Phase): State
    requires id in s.calls
  {
    s.(calls := s.calls[id := s.calls[id].(phase := phase)])
  }

  /** One draw of the change-set loop, under the generator's lock; without a revision the call is lost. */
  function Drew(s: State, id: nat, random: nat, increment: nat): State
    requires id in s.calls && s.calls[id].phase.Drawing? && random < ENTROPY_LIMIT && increment > 0
  {
    var call := s.calls[id];
    var (entropy, revision) := Next(GeneratorOf(s, call.generator), Draw(call.phase.now, random, increment));
    var phase := match revision
      case Some(r) => Drawing(call.phase.now, call.phase.drawn + [r])
      case None => Failed(NoRevision);
    Moved(s.(generators := s.generators[call.generator := entropy]), id, phase)
  }

  /** The conditional write: a conflict is retried only if no revision was expected and attempts are left. */
  function Wrote(s: State, id: nat): State
    requires Complete(s, id)
  {
    var call := s.calls[id];
    match WriteChanges(At(s.table, call.pk), call.expected, ChangeSetOf(s, id))
    case Some(partition) => CommittedTo(s, id, partition)
    case None => Conflicted(s, id)
  }

  function CommittedTo(s: State, id: nat, partition: Partition): State
    requires Complete(s, id)
  {
    var call := s.calls[id];
    State(s.table[call.pk := partition],
          s.generators,
          s.calls[id := call.(tried := call.tried + 1, phase := Committed)],
          s.commits + [CommitOf(s, id)])
  }

  function CommitOf(s: State, id: nat): Commit
    requires Complete(s, id)
  {
    Commit(id, s.calls[id].pk, s.calls[id].expected, ChangeSetOf(s, id))
  }

  function Conflicted(s: State, id: nat): State
    requires id in s.calls
  {
    var call := s.calls[id].(tried := s.calls[id].tried + 1);
    var again := call.expected == "" && call.tried < call.attempts;
    s.(calls := s.calls[id := call.(phase := if again then Ready else Failed(RevisionConflict))])
  }

  predicate Commits(s: State, id: nat)
    requires Complete(s, id)
  {
    WriteChanges(At(s.table, s.calls[id].pk), s.calls[id].expected, ChangeSetOf(s, id)).Some?
  }

  /** Where a call stands, if it has begun. */
  function PhaseOf(s: State, id: nat): Option<Phase> {
    if id in s.calls then Some(s.calls[id].phase) else None
  }

  // --- histories -------------------------------------------------------------------------------------

  /** The commit log of one partition. */
  function LogOf(commits: seq<Commit>, pk: string): Log {
    if commits == [] then []
    else
      var last := commits[|commits| - 1];
      LogOf(commits[..|commits| - 1], pk) + if last.pk == pk then [last.cs] else []
  }

  /**
   * Whether the last commit of its partition admits what the call is about to write: a call that expects a revision
   * demands that it is the last, or that there is none; any other must have drawn a larger one.
   */
  predicate Admitted(s: State, id: nat)
    requires Complete(s, id)
  {
    var call := s.calls[id];
    var log := LogOf(s.commits, call.pk);
    if call.expected == "" then log == [] || Less(log[|log| - 1].revision, call.phase.drawn[|call.events| - 1])
    else Follows(log, call.expected)
  }

  /** The commits that one call made. */
  function CommitsBy(commits: seq<Commit>, id: nat): seq<Commit> {
    if commits == [] then []
    else
      var last := commits[|commits| - 1];
      CommitsBy(commits[..|commits| - 1], id) + if last.call == id then [last] else []
  }

  lemma AppendCommit(commits: seq<Commit>, c: Commit, pk: string, id: nat)
    ensures LogOf(commits + [c], pk) == LogOf(commits, pk) + if c.pk == pk then [c.cs] else []
    ensures CommitsBy(commits + [c], id) == CommitsBy(commits, id) + if c.call == id then [c] else []
  {
    assert (commits + [c])[..|commits|] == commits;
  }

  lemma {:induction false} LogGrows(commits: seq<Commit>, i: nat, pk: string)
    requires i <= |commits|
    ensures LogOf(commits[..i], pk) <= LogOf(commits, pk)
    decreases |commits|
  {
    if i < |commits| {
      var front := commits[..|commits| - 1];
      assert commits[..i] == front[..i];
      LogGrows(front, i, pk);
    } else {
      assert commits[..i] == commits;
    }
  }

  // --- the accounting of each call, in every interleaving ------------------------------------------------

  /** What a returned or running call has put into the history: one change set with all its events, or nothing. */
  ghost predicate Accounted(call: Call, id: nat, own: seq<Commit>) {
    if call.phase.Committed? then
      && |own| == 1
      && own[0] == Commit(id, call.pk, call.expected, own[0].cs)
      && Payload(own[0].cs.events) == call.events
      && call.events != []
      && own[0].cs.revision == own[0].cs.events[|call.events| - 1].revision
    else
      own == []
  }

  /** How often it has tried: a publish that expects a revision tries once, any other until its attempts are used up. */
  ghost predicate Bounded(call: Call) {
    && call.tried <= call.attempts
    && (call.expected != "" ==> call.tried <= 1)
    && (call.phase.Ready? || call.phase.Drawing? ==>
      call.events != [] && call.tried < call.attempts && (call.expected != "" ==> call.tried == 0))
    && (call.phase.Drawing? ==> |call.phase.drawn| <= |call.events|)
    && (call.phase.Committed? ==> call.tried > 0)
    && (call.phase == Failed(RevisionConflict) ==> call.tried == if call.expected == "" then call.attempts else 1)
    && (call.phase == Failed(EmptyPublish) <==> call.events == [])
    && (call.events == [] ==> call.tried == 0)
  }

  ghost predicate Accounting(s: State) {
    && (forall id :: id in s.calls ==> Bounded(s.calls[id]) && Accounted(s.calls[id], id, CommitsBy(s.commits, id)))
    && (forall id :: id !in s.calls ==> CommitsBy(s.commits, id) == [])
  }

  lemma AccountingStep(s: State, step: Step)
    requires Accounting(s) && Apply(s, step).Some?
    ensures Accounting(Apply(s, step).value)
  {
    if step.Write? && Commits(s, step.id) {
      var call := s.calls[step.id];
      CommitAccounted(s, step.id, WriteChanges(At(s.table, call.pk), call.expected, ChangeSetOf(s, step.id)).value);
    } else {
      NoCommitAccounted(s, Apply(s, step).value, step.id);
    }
  }

  /** A step that commits nothing leaves the account of every other call alone. */
  lemma NoCommitAccounted(s: State, t: State, id: nat)
    requires Accounting(s) && t.commits == s.commits
    requires id in t.calls && t.calls == s.calls[id := t.calls[id]]
    requires id in s.calls ==> !s.calls[id].phase.Committed?
    requires Bounded(t.calls[id]) && !t.calls[id].phase.Committed?
    ensures Accounting(t)
  {
    assert CommitsBy(s.commits, id) == [];
  }

  lemma CommitAccounted(s: State, id: nat, partition: Partition)
    requires Accounting(s) && Complete(s, id)
    ensures Accounting(CommittedTo(s, id, partition))
  {
    var t, c := CommittedTo(s, id, partition), CommitOf(s, id);
    assert CommitsBy(s.commits, id) == [];
    MadeOf(s.calls[id].events, s.calls[id].phase.drawn);
    forall other
      ensures CommitsBy(t.commits, other) == if other == id then [c] else CommitsBy(s.commits, other)
    {
      AppendCommit(s.commits, c, "", other);
    }
    assert Accounted(t.calls[id], id, [c]);
    assert Bounded(t.calls[id]);
  }

  lemma MadeOf(events: seq<DomainEvent>, drawn: seq<Revision>)
    requires |events| == |drawn| > 0
    ensures var cs := MakeChangeSet(events, drawn);
      && |cs.events| == |events|
      && Payload(cs.events) == events
      && (forall i :: 0 <= i < |events| ==> cs.events[i].revision == drawn[i])
      && cs.revision == cs.events[|cs.events| - 1].revision == drawn[|drawn| - 1]
  {
    assert Payload(MakeChangeSet(events, drawn).events) == events;
  }

  // --- the head of each log, in every interleaving -----------------------------------------------------------

  /** Change sets are not empty and named after their last event. */
  ghost predicate Named(log: Log) {
    forall i :: 0 <= i < |log| ==> IsNamed(log[i])
  }

  predicate IsNamed(cs: ChangeSet) {
    cs.events != [] && cs.revision == cs.events[|cs.events| - 1].revision
  }

  /** The commit at this index, if it expected a revision, was made on a log that ends with it; it is well named. */
  ghost predicate Anchored(commits: seq<Commit>, i: nat)
    requires i < |commits|
  {
    Follows(LogOf(commits[..i], commits[i].pk), commits[i].expected) && IsNamed(commits[i].cs)
  }

  ghost predicate AllAnchored(commits: seq<Commit>) {
    forall i {:trigger Anchored(commits, i)} :: 0 <= i < |commits| ==> Anchored(commits, i)
  }

  ghost predicate HeadedAt(s: State, pk: string) {
    HeadLast(At(s.table, pk), LogOf(s.commits, pk))
  }

  ghost predicate Headed(s: State) {
    && (forall pk :: HeadedAt(s, pk))
    && AllAnchored(s.commits)
  }

  lemma HeadedStep(s: State, step: Step, t: State)
    requires Headed(s) && Apply(s, step) == Some(t)
    ensures Headed(t)
  {
    if step.Write? && Commits(s, step.id) {
      var partition := HeadedWrite(s, step.id);
      CommitHeaded(s, step.id, partition);
    } else {
      SameHeads(s, t);
    }
  }

  /** What a committing write puts in place. */
  lemma HeadedWrite(s: State, id: nat) returns (partition: Partition)
    requires Headed(s) && Complete(s, id) && Commits(s, id)
    ensures Wrote(s, id) == CommittedTo(s, id, partition) && IsNamed(ChangeSetOf(s, id))
    ensures var log := LogOf(s.commits, s.calls[id].pk);
      HeadLast(partition, log + [ChangeSetOf(s, id)]) && Follows(log, s.calls[id].expected)
  {
    var call := s.calls[id];
    assert HeadedAt(s, call.pk);
    partition := WriteChanges(At(s.table, call.pk), call.expected, ChangeSetOf(s, id)).value;
    WriteKeepsHead(At(s.table, call.pk), LogOf(s.commits, call.pk), call.expected, ChangeSetOf(s, id), partition);
  }

  lemma SameHeads(s: State, t: State)
    requires Headed(s) && t.table == s.table && t.commits == s.commits
    ensures Headed(t)
  {
    forall pk
      ensures HeadedAt(t, pk)
    {
      assert HeadedAt(s, pk);
    }
  }

  lemma CommitHeaded(s: State, id: nat, partition: Partition)
    requires Headed(s) && Complete(s, id) && IsNamed(ChangeSetOf(s, id))
    requires var log := LogOf(s.commits, s.calls[id].pk);
      HeadLast(partition, log + [ChangeSetOf(s, id)]) && Follows(log, s.calls[id].expected)
    ensures Headed(CommittedTo(s, id, partition))
  {
    HeadsAfterCommit(s, id, partition);
    AllFollowed(s.commits, CommitOf(s, id));
  }

  lemma HeadsAfterCommit(s: State, id: nat, partition: Partition)
    requires Complete(s, id) && forall pk :: HeadedAt(s, pk)
    requires HeadLast(partition, LogOf(s.commits, s.calls[id].pk) + [ChangeSetOf(s, id)])
    ensures forall pk :: HeadedAt(CommittedTo(s, id, partition), pk)
  {
    forall pk
      ensures HeadedAt(CommittedTo(s, id, partition), pk)
    {
      HeadAfterCommit(s, id, partition, pk);
    }
  }

  lemma HeadAfterCommit(s: State, id: nat, partition: Partition, pk: string)
    requires Complete(s, id) && HeadedAt(s, pk)
    requires HeadLast(partition, LogOf(s.commits, s.calls[id].pk) + [ChangeSetOf(s, id)])
    ensures HeadedAt(CommittedTo(s, id, partition), pk)
  {
    var t := CommittedTo(s, id, partition);
    AppendCommit(s.commits, CommitOf(s, id), pk, id);
    if pk == s.calls[id].pk {
      assert LogOf(t.commits, pk) == LogOf(s.commits, pk) + [ChangeSetOf(s, id)] && At(t.table, pk) == partition;
    } else {
      assert LogOf(t.commits, pk) == LogOf(s.commits, pk) && At(t.table, pk) == At(s.table, pk);
    }
  }

  lemma AllFollowed(commits: seq<Commit>, c: Commit)
    requires AllAnchored(commits) && Follows(LogOf(commits, c.pk), c.expected) && IsNamed(c.cs)
    ensures AllAnchored(commits + [c])
  {
    forall i | 0 <= i < |commits + [c]|
      ensures Anchored(commits + [c], i)
    {
      assert i < |commits| ==> Anchored(commits, i);
      FollowedAppend(commits, c, i);
    }
  }

  lemma FollowedAppend(commits: seq<Commit>, c: Commit, i: nat)
    requires i <= |commits|
    requires if i < |commits| then Anchored(commits, i) else Follows(LogOf(commits, c.pk), c.expected) && IsNamed(c.cs)
    ensures Anchored(commits + [c], i)
  {
    assert (commits + [c])[..i] == commits[..i];
    assert commits[..|commits|] == commits;
  }

  lemma {:induction false} NamedPrefix(commits: seq<Commit>, k: nat, pk: string)
    requires k <= |commits| && AllAnchored(commits)
    ensures Named(LogOf(commits[..k], pk))
    decreases k
  {
    if k > 0 {
      NamedPrefix(commits, k - 1, pk);
      assert Anchored(commits, k - 1);
      assert commits[..k][..k - 1] == commits[..k - 1];
    }
  }

  /** A log that ends with a revision is the log whose loading yields it. */
  lemma {:induction false} NamedLoads(log: Log)
    requires Named(log)
    ensures RevisionFrom(Events(log)) == if log == [] then INITIAL_REVISION else log[|log| - 1].revision
  {
    if log != [] {
      assert IsNamed(log[|log| - 1]);
      LastOfJoin(Events(log[..|log| - 1]), log[|log| - 1].events);
    }
  }

  // --- draws that are not zero, in every interleaving ------------------------------------------------------

  /** The step does not draw the all-zero ULID, which is written as the initial revision. */
  predicate NonZero(s: State, step: Step) {
    step.DrawRevision? && step.id in s.calls && s.calls[step.id].phase.Drawing?
      && step.random < ENTROPY_LIMIT && step.increment > 0 ==>
      Next(GeneratorOf(s, s.calls[step.id].generator), Draw(s.calls[step.id].phase.now, step.random, step.increment)).1
        != Some(INITIAL_REVISION)
  }

  predicate IsRevision(revision: Revision) {
    revision != INITIAL_REVISION && revision != ""
  }

  ghost predicate DrewRevisions(call: Call) {
    call.phase.Drawing? ==> forall i :: 0 <= i < |call.phase.drawn| ==> IsRevision(call.phase.drawn[i])
  }

  /** No change set, drawn, committed or stored, is named after the initial revision. */
  ghost predicate Revised(s: State) {
    && (forall id :: id in s.calls ==> DrewRevisions(s.calls[id]))
    && (forall i {:trigger WellFormed(s.commits[i].cs)} :: 0 <= i < |s.commits| ==> WellFormed(s.commits[i].cs))
    && (forall pk :: AllRevised(At(s.table, pk)))
  }

  lemma RevisedStep(s: State, step: Step, t: State)
    requires Revised(s) && NonZero(s, step) && Apply(s, step) == Some(t)
    ensures Revised(t)
  {
    if step.Write? && Commits(s, step.id) {
      var call := s.calls[step.id];
      var partition := WriteChanges(At(s.table, call.pk), call.expected, ChangeSetOf(s, step.id)).value;
      CommitRevised(s, step.id, partition);
    } else if step.DrawRevision? {
      DrawRevised(s, step.id, step.random, step.increment);
      SameRevised(s, t);
    } else {
      SameRevised(s, t);
    }
  }

  lemma SameRevised(s: State, t: State)
    requires Revised(s) && t.table == s.table && t.commits == s.commits
    requires forall id :: id in t.calls ==> DrewRevisions(t.calls[id])
    ensures Revised(t)
  {
    forall pk
      ensures AllRevised(At(t.table, pk))
    {
      assert AllRevised(At(s.table, pk));
    }
  }

  lemma DrawRevised(s: State, id: nat, random: nat, increment: nat)
    requires id in s.calls && s.calls[id].phase.Drawing? && DrewRevisions(s.calls[id])
    requires random < ENTROPY_LIMIT && increment > 0 && NonZero(s, DrawRevision(id, random, increment))
    ensures DrewRevisions(Drew(s, id, random, increment).calls[id])
  {
    var r := Next(GeneratorOf(s, s.calls[id].generator), Draw(s.calls[id].phase.now, random, increment)).1;
    assert r.Some? ==> |r.value| == 26;
  }

  lemma CommitRevised(s: State, id: nat, partition: Partition)
    requires Revised(s) && Complete(s, id)
    requires WriteChanges(At(s.table, s.calls[id].pk), s.calls[id].expected, ChangeSetOf(s, id)) == Some(partition)
    ensures Revised(CommittedTo(s, id, partition))
  {
    var cs, t := ChangeSetOf(s, id), CommittedTo(s, id, partition);
    assert DrewRevisions(s.calls[id]) && IsRevision(cs.revision) && WellFormed(cs);
    assert AllRevised(At(s.table, s.calls[id].pk));
    WriteRevised(At(s.table, s.calls[id].pk), s.calls[id].expected, cs, partition);
    forall pk
      ensures AllRevised(At(t.table, pk))
    {
      assert AllRevised(At(s.table, pk));
    }
  }

  /** Every log of such a state is well-formed. */
  lemma {:induction false} RevisedLog(commits: seq<Commit>, pk: string)
    requires forall i {:trigger WellFormed(commits[i].cs)} :: 0 <= i < |commits| ==> WellFormed(commits[i].cs)
    ensures AllWellFormed(LogOf(commits, pk))
  {
    if commits != [] {
      RevisedLog(commits[..|commits| - 1], pk);
      assert WellFormed(commits[|commits| - 1].cs);
    }
  }

  // --- the order of each log, in every honest interleaving -----------------------------------------------

  /** The filled change set is named above the expected revision, if there is one. */
  predicate DrawnAbove(s: State, id: nat)
    requires Complete(s, id)
  {
    var expected := s.calls[id].expected;
    expected == "" || expected == INITIAL_REVISION || Less(expected, ChangeSetOf(s, id).revision)
  }

  /**
   * What the order relies on besides the table's atomic writes: clocks that show a time after 1970, and writers that,
   * when they commit with an expected revision, have drawn one above it.
   */
  predicate Honest(s: State, step: Step) {
    match step
    case Attempt(_, now) => now > 0
    case Write(id) => Complete(s, id) && Commits(s, id) ==> DrawnAbove(s, id)
    case _ => true
  }

  /** A revision drawn at millisecond `now`. */
  ghost predicate DrawnAt(revision: Revision, now: nat) {
    now < TIME_LIMIT && exists entropy: nat :: entropy < ENTROPY_LIMIT && revision == UlidText(now, entropy)
  }

  ghost predicate ProperDraws(call: Call) {
    call.phase.Drawing? ==>
      && call.phase.now > 0
      && forall i :: 0 <= i < |call.phase.drawn| ==> DrawnAt(call.phase.drawn[i], call.phase.now)
  }

  lemma DrawnIsProper(revision: Revision, now: nat)
    requires DrawnAt(revision, now) && now > 0
    ensures revision != INITIAL_REVISION && revision != ""
  {
    var entropy: nat :| entropy < ENTROPY_LIMIT && revision == UlidText(now, entropy);
    InitialOnlyZero(now, entropy);
  }

  /** A partition holds its commit log in order, its head record names the last commit. */
  ghost predicate InOrder(s: State, pk: string) {
    var log := LogOf(s.commits, pk);
    At(s.table, pk) == Layout(log) && Ordered(log) && AllWellFormed(log)
  }

  /** Every commit that expected a revision was made on exactly the log that loads it. */
  ghost predicate Guarded(commits: seq<Commit>) {
    forall i :: 0 <= i < |commits| ==> Admits(LogOf(commits[..i], commits[i].pk), commits[i].expected)
  }

  ghost predicate Sequenced(s: State) {
    && (forall pk :: InOrder(s, pk))
    && Guarded(s.commits)
    && (forall id :: id in s.calls ==> ProperDraws(s.calls[id]))
  }

  lemma SequencedStep(s: State, step: Step)
    requires Sequenced(s) && Apply(s, step).Some? && Honest(s, step)
    ensures Sequenced(Apply(s, step).value)
  {
    if step.Write? && Commits(s, step.id) {
      CommitSequenced(s, step.id);
    } else {
      if step.DrawRevision? {
        DrawIsProper(s, step.id, step.random, step.increment);
      }
      KeepsTable(s, Apply(s, step).value);
    }
  }

  lemma KeepsTable(s: State, t: State)
    requires Sequenced(s) && t.table == s.table && t.commits == s.commits
    ensures forall pk :: InOrder(t, pk)
    ensures Guarded(t.commits)
  {
    forall pk
      ensures InOrder(t, pk)
    {
      assert InOrder(s, pk);
    }
  }

  lemma DrawIsProper(s: State, id: nat, random: nat, increment: nat)
    requires id in s.calls && s.calls[id].phase.Drawing? && ProperDraws(s.calls[id])
    requires random < ENTROPY_LIMIT && increment > 0
    ensures ProperDraws(Drew(s, id, random, increment).calls[id])
  {
    var now := s.calls[id].phase.now;
    var (e, r) := Next(GeneratorOf(s, s.calls[id].generator), Draw(now, random, increment));
    if r.Some? {
      assert r.value == UlidText(now, e.entropy);
      assert DrawnAt(r.value, now);
    }
  }

  lemma CommitSequenced(s: State, id: nat)
    requires Sequenced(s) && Complete(s, id) && Honest(s, Write(id)) && Commits(s, id)
    ensures Sequenced(Wrote(s, id))
  {
    var call, cs := s.calls[id], ChangeSetOf(s, id);
    var log := LogOf(s.commits, call.pk);
    assert InOrder(s, call.pk);
    MadeOf(call.events, call.phase.drawn);
    DrawnIsProper(cs.revision, call.phase.now);
    assert WellFormed(cs);
    CommitKeepsLayoutExactlyWhen(log, call.expected, cs);
    WriteAccepts(log, call.expected, cs);
    CommitInOrder(s, id, Layout(log + [cs]));
    GuardedAppend(s.commits, CommitOf(s, id));
  }

  lemma CommitInOrder(s: State, id: nat, partition: Partition)
    requires Complete(s, id) && WellFormed(ChangeSetOf(s, id))
    requires forall pk :: InOrder(s, pk)
    requires var log := LogOf(s.commits, s.calls[id].pk) + [ChangeSetOf(s, id)];
      Ordered(log) && partition == Layout(log)
    ensures forall pk :: InOrder(CommittedTo(s, id, partition), pk)
  {
    forall pk
      ensures InOrder(CommittedTo(s, id, partition), pk)
    {
      assert InOrder(s, pk);
      if pk == s.calls[id].pk {
        CommittedInOrder(s, id, partition);
      } else {
        OthersInOrder(s, id, partition, pk);
      }
    }
  }

  lemma OthersInOrder(s: State, id: nat, partition: Partition, pk: string)
    requires Complete(s, id) && pk != s.calls[id].pk && InOrder(s, pk)
    ensures InOrder(CommittedTo(s, id, partition), pk)
  {
    AppendCommit(s.commits, CommitOf(s, id), pk, id);
  }

  lemma CommittedInOrder(s: State, id: nat, partition: Partition)
    requires Complete(s, id) && WellFormed(ChangeSetOf(s, id)) && InOrder(s, s.calls[id].pk)
    requires var log := LogOf(s.commits, s.calls[id].pk) + [ChangeSetOf(s, id)];
      Ordered(log) && partition == Layout(log)
    ensures InOrder(CommittedTo(s, id, partition), s.calls[id].pk)
  {
    var pk, cs := s.calls[id].pk, ChangeSetOf(s, id);
    AppendCommit(s.commits, CommitOf(s, id), pk, id);
    assert LogOf(CommittedTo(s, id, partition).commits, pk) == LogOf(s.commits, pk) + [cs];
    assert AllWellFormed(LogOf(s.commits, pk) + [cs]);
  }

  lemma GuardedAppend(commits: seq<Commit>, c: Commit)
    requires Guarded(commits) && Admits(LogOf(commits, c.pk), c.expected)
    ensures Guarded(commits + [c])
  {
    var longer := commits + [c];
    forall i | 0 <= i < |longer|
      ensures Admits(LogOf(longer[..i], longer[i].pk), longer[i].expected)
    {
      assert longer[..i] == commits[..i];
      assert commits[..|commits|] == commits;
    }
  }
}
