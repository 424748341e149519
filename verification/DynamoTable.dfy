/**
 * The DynamoDB table as the store uses it: partitions whose records are kept in sort-key order, an atomic
 * conditional write of two records, and a paged query.
 */
module DynamoTable {
  import opened Wrappers
  import opened TextOrder
  import opened Ulid
  import opened EventLog

  const CHANGE_SET := "change-set#"
  const LATEST := "latest-revision"

  function SortKey(revision: Revision): string {
    CHANGE_SET + revision
  }

  datatype Record =
    | Changes(sk: string, revision: Revision, events: seq<RecordedEvent>)
    | Latest(sk: string, revision: Revision)

  function ChangesFor(cs: ChangeSet): Record {
    Changes(SortKey(cs.revision), cs.revision, cs.events)
  }

  function LatestFor(cs: ChangeSet): Record {
    Latest(LATEST, cs.revision)
  }

  type Partition = seq<Record>

  type Table = map<string, Partition>

  function At(table: Table, pk: string): Partition {
    if pk in table then table[pk] else []
  }

  // --- the backend's operations --------------------------------------------------------------------

  /** Put replaces the record with the same sort key, or inserts in sort-key order. */
  function Put(p: Partition, r: Record): Partition {
    if p == [] then [r]
    else if p[0].sk == r.sk then [r] + p[1..]
    else if Less(r.sk, p[0].sk) then [r] + p
    else [p[0]] + Put(p[1..], r)
  }

  function Get(p: Partition, sk: string): Option<Record> {
    if p == [] then None
    else if p[0].sk == sk then Some(p[0])
    else Get(p[1..], sk)
  }

  datatype Condition = BelowOrAbsent(revision: Revision) | Absent | Equals(revision: Revision)

  predicate Holds(condition: Condition, stored: Option<Record>) {
    match condition
    case BelowOrAbsent(r) => stored.None? || Less(stored.value.revision, r)
    case Absent => stored.None?
    case Equals(r) => stored.Some? && stored.value.revision == r
  }

  /** TransactWriteItems: both records are put, or neither when the condition on the first fails. */
  function TransactWrite(p: Partition, condition: Condition, latest: Record, record: Record): Option<Partition> {
    if Holds(condition, Get(p, latest.sk)) then Some(Put(Put(p, latest), record)) else None
  }

  predicate StartsWith(text: string, prefix: string) {
    |prefix| <= |text| && text[..|prefix|] == prefix
  }

  /** The records a query evaluates: those with the sort-key prefix, past the exclusive start key. */
  function Select(p: Partition, prefix: string, start: Option<string>): Partition {
    if p == [] then []
    else
      var rest := Select(p[1..], prefix, start);
      if StartsWith(p[0].sk, prefix) && (start.Some? ==> Less(start.value, p[0].sk)) then [p[0]] + rest else rest
  }

  /** One page, and the key to continue after; no key means that nothing is left. */
  datatype Page = Page(items: Partition, last: Option<string>)

  /**
   * A query answers with at most `limit` of the selected records. It may hand out a continuation key even if
   * nothing is left (`more`), and a page may be empty; the key is then the one it started from.
   */
  function Query(p: Partition, prefix: string, start: Option<string>, limit: nat, more: bool): Page {
    Paginate(Select(p, prefix, start), start, limit, more)
  }

  function Paginate(rest: Partition, start: Option<string>, limit: nat, more: bool): Page {
    var count := if limit < |rest| then limit else |rest|;
    Page(rest[..count],
         if count == |rest| && !more then None
         else if count == 0 then Some(start.GetOr(""))
         else Some(rest[count - 1].sk))
  }

  /** What the backend does with one query: it fails, or answers with at most `limit` records. */
  datatype Answer = QueryFails | Answered(limit: nat, more: bool)

  /** The answer has room for a record and hands out no continuation key without need. */
  predicate IsPlain(answer: Answer) {
    answer.Answered? && answer.limit > 0 && !answer.more
  }

  /** How many of the answers are plain. */
  function Plain(answers: seq<Answer>): nat {
    if answers == [] then 0
    else
      var n := |answers| - 1;
      Plain(answers[..n]) + if IsPlain(answers[n]) then 1 else 0
  }

  lemma {:induction false} PlainFirst(answers: seq<Answer>)
    requires answers != []
    ensures Plain(answers) == (if IsPlain(answers[0]) then 1 else 0) + Plain(answers[1..])
  {
    var n := |answers| - 1;
    if n > 0 {
      PlainFirst(answers[..n]);
      assert answers[..n][1..] == answers[1..][..n - 1];
    }
  }

  // --- the store's use of them ---------------------------------------------------------------------

  function LatestCondition(revision: Revision, expected: Revision): Condition {
    if |expected| == 0 then BelowOrAbsent(revision)
    else if expected == INITIAL_REVISION then Absent
    else Equals(expected)
  }

  function WriteChanges(p: Partition, expected: Revision, cs: ChangeSet): Option<Partition> {
    TransactWrite(p, LatestCondition(cs.revision, expected), LatestFor(cs), ChangesFor(cs))
  }

  /** A partition as it should look for a commit log: its change sets in commit order, then the head record. */
  function Layout(log: Log): Partition {
    Items(log) + Head(log)
  }

  function Items(log: Log): Partition {
    seq(|log|, i requires 0 <= i < |log| => ChangesFor(log[i]))
  }

  function Head(log: Log): Partition {
    if log == [] then [] else [LatestFor(log[|log| - 1])]
  }

  // --- keys ------------------------------------------------------------------------------------------

  lemma SortKeyOrder(a: Revision, b: Revision)
    ensures Less(SortKey(a), SortKey(b)) <==> Less(a, b)
    ensures SortKey(a) == SortKey(b) <==> a == b
    ensures StartsWith(SortKey(a), CHANGE_SET)
  {
    SharedPrefix(CHANGE_SET, a, b);
    assert SortKey(a)[|CHANGE_SET|..] == a && SortKey(b)[|CHANGE_SET|..] == b;
  }

  /** "change-set#" sorts before "latest-revision", so the head record is last in its partition. */
  lemma HeadIsLast(a: Revision)
    ensures Less(SortKey(a), LATEST) && SortKey(a) != LATEST
    ensures !StartsWith(LATEST, CHANGE_SET)
  {
    assert SortKey(a)[0] == 'c' && LATEST[0] == 'l' && CHANGE_SET[0] == 'c';
  }

  /** The sort keys as the table shows them. */
  lemma KeyTexts(cs: ChangeSet)
    ensures ChangesFor(cs).sk == "change-set#" + cs.revision && LatestFor(cs).sk == "latest-revision"
  {
  }

  // --- what a write does to the layout ----------------------------------------------------------------

  ghost predicate AllBelow(p: Partition, sk: string) {
    forall i :: 0 <= i < |p| ==> Less(p[i].sk, sk)
  }

  lemma {:induction false} PutPast(p: Partition, q: Partition, r: Record)
    requires AllBelow(p, r.sk)
    ensures Put(p + q, r) == p + Put(q, r)
  {
    if p == [] {
      assert p + q == q;
    } else {
      Trichotomy(p[0].sk, r.sk);
      assert (p + q)[1..] == p[1..] + q;
      PutPast(p[1..], q, r);
      assert [p[0]] + (p[1..] + Put(q, r)) == p + Put(q, r);
    }
  }

  lemma {:induction false} GetPast(p: Partition, q: Partition, sk: string)
    requires AllBelow(p, sk)
    ensures Get(p + q, sk) == Get(q, sk)
  {
    if p == [] {
      assert p + q == q;
    } else {
      Trichotomy(p[0].sk, sk);
      assert (p + q)[1..] == p[1..] + q;
      GetPast(p[1..], q, sk);
    }
  }

  lemma ItemsBelowHead(log: Log)
    ensures AllBelow(Items(log), LATEST)
  {
    forall i | 0 <= i < |log|
      ensures Less(Items(log)[i].sk, LATEST)
    {
      HeadIsLast(log[i].revision);
    }
  }

  lemma GetHead(log: Log)
    ensures Get(Layout(log), LATEST) == if log == [] then None else Some(LatestFor(log[|log| - 1]))
  {
    ItemsBelowHead(log);
    GetPast(Items(log), Head(log), LATEST);
  }

  /** Writing an ordered change set over a layout gives the layout of the longer log. */
  lemma WriteExtendsLayout(log: Log, cs: ChangeSet)
    requires Ordered(log + [cs])
    ensures Put(Put(Layout(log), LatestFor(cs)), ChangesFor(cs)) == Layout(log + [cs])
  {
    ItemsBelowHead(log);
    PutPast(Items(log), Head(log), LatestFor(cs));
    assert Put(Head(log), LatestFor(cs)) == [LatestFor(cs)];
    forall i | 0 <= i < |log|
      ensures Less(Items(log)[i].sk, SortKey(cs.revision))
    {
      assert (log + [cs])[i] == log[i] && (log + [cs])[|log|] == cs;
      SortKeyOrder(log[i].revision, cs.revision);
    }
    PutPast(Items(log), [LatestFor(cs)], ChangesFor(cs));
    HeadIsLast(cs.revision);
    assert Items(log + [cs]) == Items(log) + [ChangesFor(cs)];
  }

  // --- the records of a partition, in whatever order -------------------------------------------------------

  ghost predicate Distinct(log: Log) {
    forall i, j :: 0 <= i < j < |log| ==> log[i].revision != log[j].revision
  }

  /** The partition holds a record for each change set of the log, in some order, and then the head record. */
  ghost predicate Keeps(p: Partition, log: Log) {
    && |log| <= |p| && p[|log|..] == Head(log)
    && multiset(p[..|log|]) == multiset(Items(log))
  }

  lemma DistinctPrefix(log: Log, longer: Log)
    requires log <= longer && Distinct(longer)
    ensures Distinct(log)
  {
    assert forall i :: 0 <= i < |log| ==> log[i] == longer[i];
  }

  lemma {:induction false} PutNew(p: Partition, r: Record)
    requires forall i :: 0 <= i < |p| ==> p[i].sk != r.sk
    ensures multiset(Put(p, r)) == multiset(p) + multiset{r}
  {
    if p != [] {
      assert p == [p[0]] + p[1..];
      if !Less(r.sk, p[0].sk) {
        PutNew(p[1..], r);
      }
    }
  }

  lemma {:induction false} PutBefore(p: Partition, head: Record, r: Record)
    requires Less(r.sk, head.sk) && r.sk != head.sk
    ensures Put(p + [head], r) == Put(p, r) + [head]
  {
    if p == [] {
      assert p + [head] == [head];
    } else {
      assert (p + [head])[1..] == p[1..] + [head] && (p + [head])[0] == p[0];
      if p[0].sk != r.sk && !Less(r.sk, p[0].sk) {
        PutBefore(p[1..], head, r);
      }
    }
  }

  lemma {:induction false} PutLength(p: Partition, r: Record)
    requires forall i :: 0 <= i < |p| ==> p[i].sk != r.sk
    ensures |Put(p, r)| == |p| + 1
  {
    if p != [] && !Less(r.sk, p[0].sk) {
      PutLength(p[1..], r);
    }
  }

  ghost predicate Sorted(p: Partition) {
    forall i, j :: 0 <= i < j < |p| ==> Less(p[i].sk, p[j].sk)
  }

  /** The records of `q` are the new one and those of `p` with other keys. */
  ghost predicate IsPut(q: Partition, p: Partition, r: Record) {
    forall x :: x in q <==> x == r || (x in p && x.sk != r.sk)
  }

  /** Put keeps the partition sorted, holds the new record, and leaves all others as they were. */
  lemma {:induction false} PutExactly(p: Partition, r: Record, sk: string)
    requires Sorted(p)
    ensures Sorted(Put(p, r)) && IsPut(Put(p, r), p, r)
    ensures Get(Put(p, r), sk) == if sk == r.sk then Some(r) else Get(p, sk)
  {
    if p != [] {
      Trichotomy(p[0].sk, r.sk);
      var rest := p[1..];
      if p[0].sk == r.sk {
        PutInPlace(p, r);
      } else if Less(r.sk, p[0].sk) {
        PutInFront(p, r);
      } else {
        PutExactly(rest, r, sk);
        BehindSorted(p, Put(rest, r), r);
        BehindHolds(p, Put(rest, r), r);
      }
    }
  }

  lemma PutInPlace(p: Partition, r: Record)
    requires Sorted(p) && p != [] && p[0].sk == r.sk
    ensures Sorted([r] + p[1..]) && IsPut([r] + p[1..], p, r)
  {
    forall x | x in p[1..]
      ensures x.sk != r.sk
    {
      var i :| 0 <= i < |p| - 1 && p[1..][i] == x;
      Trichotomy(p[0].sk, p[i + 1].sk);
    }
    assert p == [p[0]] + p[1..];
  }

  lemma PutInFront(p: Partition, r: Record)
    requires Sorted(p) && p != [] && Less(r.sk, p[0].sk)
    ensures Sorted([r] + p) && IsPut([r] + p, p, r)
  {
    forall i | 0 <= i < |p|
      ensures Less(r.sk, p[i].sk) && p[i].sk != r.sk
    {
      if i > 0 {
        Transitive(r.sk, p[0].sk, p[i].sk);
      }
      Trichotomy(r.sk, p[i].sk);
    }
  }

  lemma BehindSorted(p: Partition, q: Partition, r: Record)
    requires Sorted(p) && p != [] && Less(p[0].sk, r.sk) && Sorted(q) && IsPut(q, p[1..], r)
    ensures Sorted([p[0]] + q)
  {
    forall i | 0 <= i < |q|
      ensures Less(p[0].sk, q[i].sk)
    {
      assert q[i] in q;
      if q[i] != r {
        var k :| 0 <= k < |p| - 1 && p[1..][k] == q[i];
        assert p[k + 1] == q[i];
      }
    }
  }

  lemma BehindHolds(p: Partition, q: Partition, r: Record)
    requires p != [] && p[0].sk != r.sk && IsPut(q, p[1..], r)
    ensures IsPut([p[0]] + q, p, r)
  {
    assert p == [p[0]] + p[1..];
  }

  /** A record among the change sets of a log is that of one of them. */
  lemma RecordFromLog(items: Partition, log: Log, i: nat) returns (k: nat)
    requires i < |items| && multiset(items) == multiset(Items(log))
    ensures k < |log| && items[i] == ChangesFor(log[k])
  {
    assert items[i] in multiset(Items(log));
    k :| 0 <= k < |log| && Items(log)[k] == items[i];
  }

  /** The two puts leave the change-set records in front of the new head. */
  lemma PutsBeforeHead(items: Partition, log: Log, cs: ChangeSet)
    requires AllBelow(items, LATEST)
    ensures Put(Put(items + Head(log), LatestFor(cs)), ChangesFor(cs)) == Put(items, ChangesFor(cs)) + Head(log + [cs])
  {
    PutPast(items, Head(log), LatestFor(cs));
    assert Put(Head(log), LatestFor(cs)) == [LatestFor(cs)];
    HeadIsLast(cs.revision);
    PutBefore(items, LatestFor(cs), ChangesFor(cs));
  }

  lemma NewKey(items: Partition, log: Log, cs: ChangeSet)
    requires multiset(items) == multiset(Items(log)) && Distinct(log + [cs])
    ensures AllBelow(items, LATEST) && forall i :: 0 <= i < |items| ==> items[i].sk != SortKey(cs.revision)
  {
    forall i | 0 <= i < |items|
      ensures Less(items[i].sk, LATEST) && items[i].sk != SortKey(cs.revision)
    {
      var k := RecordFromLog(items, log, i);
      HeadIsLast(log[k].revision);
      SortKeyOrder(log[k].revision, cs.revision);
      assert (log + [cs])[k] == log[k] && (log + [cs])[|log|] == cs;
    }
  }

  /** The two puts of a change set with a new revision add its record and replace the head. */
  lemma PutsKeepRecords(p: Partition, log: Log, cs: ChangeSet)
    requires Keeps(p, log) && Distinct(log + [cs])
    ensures Keeps(Put(Put(p, LatestFor(cs)), ChangesFor(cs)), log + [cs])
  {
    var items, r := p[..|log|], ChangesFor(cs);
    assert p == items + Head(log);
    NewKey(items, log, cs);
    PutsBeforeHead(items, log, cs);
    PutNew(items, r);
    PutLength(items, r);
    assert Items(log + [cs]) == Items(log) + [r];
  }

  /** The records before the head all sort before it, and the head names the last change set. */
  ghost predicate HeadLast(p: Partition, log: Log) {
    var n := |p| - |Head(log)|;
    n >= 0 && p[n..] == Head(log) && AllBelow(p[..n], LATEST)
  }

  lemma HeadFound(p: Partition, log: Log)
    requires HeadLast(p, log)
    ensures Get(p, LATEST) == if log == [] then None else Some(LatestFor(log[|log| - 1]))
  {
    var items := p[..|p| - |Head(log)|];
    assert p == items + Head(log);
    GetPast(items, Head(log), LATEST);
  }

  lemma {:induction false} PutKeepsBelow(p: Partition, r: Record, sk: string)
    requires AllBelow(p, sk) && Less(r.sk, sk)
    ensures AllBelow(Put(p, r), sk)
  {
    if p != [] && p[0].sk != r.sk && !Less(r.sk, p[0].sk) {
      PutKeepsBelow(p[1..], r, sk);
    }
  }

  /** The two puts of any change set keep the head record last and let it name that change set. */
  lemma PutsKeepHead(p: Partition, log: Log, cs: ChangeSet)
    requires HeadLast(p, log)
    ensures HeadLast(Put(Put(p, LatestFor(cs)), ChangesFor(cs)), log + [cs])
  {
    var items := p[..|p| - |Head(log)|];
    assert p == items + Head(log);
    PutsBeforeHead(items, log, cs);
    HeadIsLast(cs.revision);
    PutKeepsBelow(items, ChangesFor(cs), LATEST);
  }

  /** A stored change set has events, and its last one does not carry the initial revision. */
  predicate IsRevised(r: Record) {
    r.Changes? ==> r.events != [] && RevisionFrom(r.events) != INITIAL_REVISION
  }

  ghost predicate AllRevised(p: Partition) {
    forall i {:trigger IsRevised(p[i])} :: 0 <= i < |p| ==> IsRevised(p[i])
  }

  lemma {:induction false} PutRevised(p: Partition, r: Record)
    requires AllRevised(p) && IsRevised(r)
    ensures AllRevised(Put(p, r))
  {
    if p != [] {
      assert IsRevised(p[0]);
      AllRevisedRest(p);
      PutRevised(p[1..], r);
    }
  }

  lemma AllRevisedRest(p: Partition)
    requires p != [] && AllRevised(p)
    ensures AllRevised(p[1..])
  {
    forall i | 0 <= i < |p| - 1
      ensures IsRevised(p[1..][i])
    {
      assert IsRevised(p[i + 1]);
    }
  }

  lemma WriteRevised(p: Partition, expected: Revision, cs: ChangeSet, written: Partition)
    requires AllRevised(p) && WellFormed(cs) && WriteChanges(p, expected, cs) == Some(written)
    ensures AllRevised(written)
  {
    PutRevised(p, LatestFor(cs));
    PutRevised(Put(p, LatestFor(cs)), ChangesFor(cs));
  }

  /** What an expectation demands of the log: that its last change set is named so, or that it is empty. */
  predicate Follows(log: Log, expected: Revision) {
    if expected == "" then true
    else if expected == INITIAL_REVISION then log == []
    else log != [] && log[|log| - 1].revision == expected
  }

  /** On well-formed change sets that is what the abstract log demands. */
  lemma FollowsIsAdmits(log: Log, expected: Revision)
    requires AllWellFormed(log)
    ensures Follows(log, expected) <==> Admits(log, expected)
  {
    LoadedRevision(log);
  }

  /** When the conditional write goes through, whatever the order of the records: the head record alone decides. */
  lemma WriteFollowsExactlyWhen(p: Partition, log: Log, expected: Revision, cs: ChangeSet)
    requires HeadLast(p, log)
    ensures WriteChanges(p, expected, cs).Some? <==>
      if expected == "" then log == [] || Less(log[|log| - 1].revision, cs.revision) else Follows(log, expected)
  {
    HeadFound(p, log);
  }

  lemma WriteKeepsHead(p: Partition, log: Log, expected: Revision, cs: ChangeSet, written: Partition)
    requires HeadLast(p, log) && WriteChanges(p, expected, cs) == Some(written)
    ensures HeadLast(written, log + [cs]) && Follows(log, expected)
  {
    WriteFollowsExactlyWhen(p, log, expected, cs);
    PutsKeepHead(p, log, cs);
  }

  // --- writes, in terms of the log -------------------------------------------------------------------------

  /**
   * When the conditional write goes through, in terms of the log alone: an expectation is checked exactly as the
   * event log demands, and without one the new revision must lie above the last.
   */
  lemma WriteAccepts(log: Log, expected: Revision, cs: ChangeSet)
    requires AllWellFormed(log)
    ensures WriteChanges(Layout(log), expected, cs).Some? <==>
      if expected == "" then log == [] || Less(log[|log| - 1].revision, cs.revision) else Admits(log, expected)
  {
    GetHead(log);
    LoadedRevision(log);
  }

  /**
   * A committed write keeps the partition readable in commit order exactly if its revision lies above the last.
   * Without an expectation the condition itself sees to that; with one, only the expected revision is compared,
   * so it rests on what the writer draws.
   */
  lemma CommitKeepsLayoutExactlyWhen(log: Log, expected: Revision, cs: ChangeSet)
    requires AllWellFormed(log) && Ordered(log) && WellFormed(cs)
    requires WriteChanges(Layout(log), expected, cs).Some?
    ensures
      (Ordered(log + [cs]) && WriteChanges(Layout(log), expected, cs).value == Layout(log + [cs])) <==>
      (expected == "" || expected == INITIAL_REVISION || Less(expected, cs.revision))
  {
    WriteAccepts(log, expected, cs);
    LoadedRevision(log);
    OrderedAppend(log, cs);
    if Ordered(log + [cs]) {
      WriteExtendsLayout(log, cs);
    }
  }

  // --- what a query reads ------------------------------------------------------------------------------

  lemma {:induction false} SelectJoin(p: Partition, q: Partition, prefix: string, start: Option<string>)
    ensures Select(p + q, prefix, start) == Select(p, prefix, start) + Select(q, prefix, start)
  {
    if p == [] {
      assert p + q == q;
    } else {
      assert (p + q)[1..] == p[1..] + q;
      SelectJoin(p[1..], q, prefix, start);
    }
  }

  lemma {:induction false} SelectNothing(p: Partition, prefix: string, start: Option<string>)
    requires forall i :: 0 <= i < |p| ==> !StartsWith(p[i].sk, prefix) || (start.Some? && !Less(start.value, p[i].sk))
    ensures Select(p, prefix, start) == []
  {
    if p != [] {
      SelectNothing(p[1..], prefix, start);
    }
  }

  lemma {:induction false} SelectAll(p: Partition, prefix: string, start: Option<string>)
    requires forall i :: 0 <= i < |p| ==> StartsWith(p[i].sk, prefix) && (start.Some? ==> Less(start.value, p[i].sk))
    ensures Select(p, prefix, start) == p
  {
    if p != [] {
      SelectAll(p[1..], prefix, start);
      assert p == [p[0]] + p[1..];
    }
  }

  /** The start key with which a reader that has the first `k` change sets continues. */
  ghost predicate StandsAt(start: Option<string>, log: Log, k: nat) {
    k <= |log| && if k == 0 then start == None || start == Some("") else start == Some(SortKey(log[k - 1].revision))
  }

  lemma SelectSeen(log: Log, start: Option<string>, k: nat, cut: nat)
    requires Ordered(log) && StandsAt(start, log, k) && cut <= k
    ensures Select(Items(log[..cut]), CHANGE_SET, start) == []
  {
    forall i | 0 <= i < cut
      ensures start.Some? && !Less(start.value, SortKey(log[i].revision))
    {
      SortKeyOrder(log[k - 1].revision, log[i].revision);
      Trichotomy(log[k - 1].revision, log[i].revision);
    }
    SelectNothing(Items(log[..cut]), CHANGE_SET, start);
  }

  lemma SelectUnseen(log: Log, start: Option<string>, k: nat, m: nat)
    requires Ordered(log) && StandsAt(start, log, k) && k <= m <= |log|
    ensures Select(Items(log[k..m]), CHANGE_SET, start) == Items(log[k..m])
  {
    var items := Items(log[k..m]);
    forall i | 0 <= i < |items|
      ensures StartsWith(items[i].sk, CHANGE_SET) && (start.Some? ==> Less(start.value, items[i].sk))
    {
      assert items[i].sk == SortKey(log[k + i].revision);
      SortKeyOrder(if k == 0 then "" else log[k - 1].revision, log[k + i].revision);
      SortKeyOrder(log[k + i].revision, "");
    }
    SelectAll(items, CHANGE_SET, start);
  }

  lemma SelectHead(log: Log, start: Option<string>)
    ensures Select(Head(log), CHANGE_SET, start) == []
  {
    HeadIsLast("");
    SelectNothing(Head(log), CHANGE_SET, start);
  }

  /** A query over any earlier state of the partition selects exactly what the reader has not seen of it. */
  lemma SelectContinues(log: Log, m: nat, start: Option<string>, k: nat)
    requires Ordered(log) && m <= |log| && StandsAt(start, log, k)
    ensures Select(Layout(log[..m]), CHANGE_SET, start) == if k < m then Items(log[k..m]) else []
  {
    SelectJoin(Items(log[..m]), Head(log[..m]), CHANGE_SET, start);
    SelectHead(log[..m], start);
    if k < m {
      assert Items(log[..m]) == Items(log[..k]) + Items(log[k..m]);
      SelectJoin(Items(log[..k]), Items(log[k..m]), CHANGE_SET, start);
      SelectSeen(log, start, k, k);
      SelectUnseen(log, start, k, m);
    } else {
      SelectSeen(log, start, k, m);
    }
  }

  lemma {:induction false} SelectRevised(p: Partition, prefix: string, start: Option<string>)
    requires AllRevised(p)
    ensures AllRevised(Select(p, prefix, start))
  {
    if p != [] {
      assert IsRevised(p[0]);
      AllRevisedRest(p);
      SelectRevised(p[1..], prefix, start);
    }
  }

  function RecordEvents(r: Record): seq<RecordedEvent> {
    if r.Changes? then r.events else []
  }

  function EventsOf(items: Partition): seq<RecordedEvent> {
    if items == [] then [] else EventsOf(items[..|items| - 1]) + RecordEvents(items[|items| - 1])
  }

  lemma {:induction false} EventsOfItems(log: Log)
    ensures EventsOf(Items(log)) == Events(log)
  {
    if log != [] {
      assert Items(log)[..|log| - 1] == Items(log[..|log| - 1]);
      EventsOfItems(log[..|log| - 1]);
    }
  }

  /** Whatever a page of such a partition holds: if there are events, the last does not carry the initial revision. */
  lemma PageRevised(p: Partition, prefix: string, start: Option<string>, limit: nat, more: bool)
    requires AllRevised(p)
    ensures EndsRevised(EventsOf(Query(p, prefix, start, limit, more).items))
  {
    SelectRevised(p, prefix, start);
    var items := Query(p, prefix, start, limit, more).items;
    assert forall i :: 0 <= i < |items| ==> items[i] == Select(p, prefix, start)[i];
    EventsRevised(items);
  }

  lemma {:induction false} EventsRevised(items: Partition)
    requires AllRevised(items)
    ensures EndsRevised(EventsOf(items))
  {
    if items != [] {
      var n := |items| - 1;
      assert IsRevised(items[n]);
      forall i | 0 <= i < n
        ensures IsRevised(items[..n][i])
      {
        assert IsRevised(items[i]);
      }
      EventsRevised(items[..n]);
      EndsJoin(EventsOf(items[..n]), RecordEvents(items[n]));
    }
  }

  /**
   * One page, answered from any state the partition was in, moves a reader from one prefix of the log to a longer
   * one, in whole change sets; a page without continuation key takes in all of the state it was answered from.
   */
  lemma PageExtendsPrefix(log: Log, m: nat, start: Option<string>, k: nat, limit: nat, more: bool) returns (k': nat)
    requires Ordered(log) && m <= |log| && StandsAt(start, log, k)
    ensures k <= k' <= |log|
    ensures var page := Query(Layout(log[..m]), CHANGE_SET, start, limit, more);
      && Events(log[..k]) + EventsOf(page.items) == Events(log[..k'])
      && (page.last.Some? ==> StandsAt(page.last, log, k'))
      && (page.last.None? ==> m <= k')
      && (page.last.Some? && limit > 0 && !more ==> k < k')
      && (more ==> page.last.Some?)
  {
    SelectContinues(log, m, start, k);
    k' := PaginateUnseen(log, m, start, k, limit, more);
    ReadOn(log, k, k');
  }

  lemma PaginateUnseen(log: Log, m: nat, start: Option<string>, k: nat, limit: nat, more: bool) returns (k': nat)
    requires m <= |log| && StandsAt(start, log, k)
    ensures k <= k' <= |log|
    ensures var page := Paginate(if k < m then Items(log[k..m]) else [], start, limit, more);
      && page.items == Items(log[k..k'])
      && (page.last.Some? ==> StandsAt(page.last, log, k'))
      && (page.last.None? ==> m <= k')
      && (page.last.Some? && limit > 0 && !more ==> k < k')
      && (more ==> page.last.Some?)
  {
    var rest := if k < m then Items(log[k..m]) else [];
    var count := if limit < |rest| then limit else |rest|;
    k' := k + count;
    assert rest[..count] == Items(log[k..k']);
    assert count > 0 ==> rest[count - 1] == ChangesFor(log[k' - 1]);
  }

  lemma ReadOn(log: Log, k: nat, k': nat)
    requires k <= k' <= |log|
    ensures Events(log[..k]) + EventsOf(Items(log[k..k'])) == Events(log[..k'])
  {
    EventsOfItems(log[k..k']);
    EventsOfJoin(log[..k], log[k..k']);
    assert log[..k] + log[k..k'] == log[..k'];
  }
}
