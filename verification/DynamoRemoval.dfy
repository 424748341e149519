/** Removing an aggregate from the DynamoDB table, page by page, with nobody else writing its partition. */
module DynamoRemoval {
  import opened Wrappers
  import opened TextOrder
  import opened EventLog
  import opened DynamoTable

  /** What the backend does in one round: how it answers the query, and whether the delete that follows succeeds. */
  datatype Round = Round(query: Answer, deletes: bool)

  datatype Outcome = Outcome(partition: Partition, count: nat, done: bool)

  const PAGE_LIMIT: nat := 25

  function Limit(answer: Answer): nat
    requires answer.Answered?
  {
    if answer.limit < PAGE_LIMIT then answer.limit else PAGE_LIMIT
  }

  /** TransactWriteItems with deletes: all of the keys go. */
  function Delete(p: Partition, gone: Partition): Partition {
    if p == [] then []
    else if exists i :: 0 <= i < |gone| && gone[i].sk == p[0].sk then Delete(p[1..], gone)
    else [p[0]] + Delete(p[1..], gone)
  }

  class DynamoTableClient {
    var table: Table

    /** DynamoDB keeps every partition in sort-key order. */
    ghost predicate Valid()
      reads this
    {
      forall pk :: Keyed(At(table, pk), None)
    }

    /** One page: query it, and delete its keys in one transaction if it has any. */
    method RemovePage(pk: string, start: Option<string>, round: Round) returns (page: Page, failed: bool)
      requires round.query.Answered?
      modifies this
      ensures page == Query(At(old(table), pk), "", start, Limit(round.query), round.query.more)
      ensures |page.items| <= 25 && |page.items| <= round.query.limit
      ensures failed <==> page.items != [] && !round.deletes
      ensures At(table, pk) ==
        if failed || page.items == [] then At(old(table), pk) else Delete(At(old(table), pk), page.items)
      ensures forall other :: other != pk ==> At(table, other) == At(old(table), other)
    {
      page := Query(At(table, pk), "", start, Limit(round.query), round.query.more);
      failed := false;
      if page.items != [] {
        if !round.deletes {
          return page, true;
        }
        table := table[pk := Delete(At(table, pk), page.items)];
      }
    }

    /** The page loop: query, delete the page's keys in one transaction, continue after its last key. */
    method RemovePages(pk: string, rounds: seq<Round>) returns (count: nat, done: bool)
      modifies this
      ensures Outcome(At(table, pk), count, done) == Removal(At(old(table), pk), None, rounds)
      ensures forall other :: other != pk ==> At(table, other) == At(old(table), other)
    {
      count, done := 0, false;
      var start: Option<string> := None;
      ghost var p := At(table, pk);
      var next := 0;
      while next < |rounds| && rounds[next].query.Answered?
        invariant 0 <= next <= |rounds|
        invariant forall other :: other != pk ==> At(table, other) == At(old(table), other)
        invariant Removal(p, None, rounds) == Counted(count, Removal(At(table, pk), start, rounds[next..]))
      {
        assert rounds[next..][0] == rounds[next] && rounds[next..][1..] == rounds[next + 1..];
        var page, failed := RemovePage(pk, start, rounds[next]);
        if failed {
          return count, false;
        }
        count := count + |page.items|;
        if page.last == None {
          return count, true;
        }
        start := page.last;
        next := next + 1;
      }
    }

    /**
     * Deletes the aggregate's records in key order. It returns the number of records it deleted; if it stops early,
     * what is left of the partition is the rest in key order. Other partitions are not touched.
     */
    method Remove(pk: string, rounds: seq<Round>) returns (count: nat, done: bool)
      requires Valid()
      modifies this
      ensures Valid()
      ensures count <= |At(old(table), pk)| && At(table, pk) == At(old(table), pk)[count..]
      ensures done ==> At(table, pk) == []
      ensures Plain(Queries(rounds)) > |At(old(table), pk)| && AllSucceed(rounds) ==> done
      ensures Outcome(At(table, pk), count, done) == Removal(At(old(table), pk), None, rounds)
      ensures forall other :: other != pk ==> At(table, other) == At(old(table), other)
    {
      ghost var before := table;
      assert Keyed(At(before, pk), None);
      count, done := RemovePages(pk, rounds);
      RemovalTakesFront(At(before, pk), None, rounds);
      if Plain(Queries(rounds)) > |At(before, pk)| && AllSucceed(rounds) {
        RemovalTerminates(At(before, pk), None, rounds);
      }
      forall other
        ensures Keyed(At(table, other), None)
      {
        assert Keyed(At(before, other), None);
      }
    }
  }

  function Counted(before: nat, o: Outcome): Outcome {
    Outcome(o.partition, before + o.count, o.done)
  }

  /** The rounds of a removal from a partition whose records up to `start` are gone. */
  function Removal(p: Partition, start: Option<string>, rounds: seq<Round>): Outcome
    decreases |rounds|
  {
    if rounds == [] || rounds[0].query == QueryFails then Outcome(p, 0, false)
    else
      var page := Query(p, "", start, Limit(rounds[0].query), rounds[0].query.more);
      if page.items != [] && !rounds[0].deletes then Outcome(p, 0, false)
      else
        var left := if page.items == [] then p else Delete(p, page.items);
        if page.last == None then Outcome(left, |page.items|, true)
        else
          Counted(|page.items|, Removal(left, page.last, rounds[1..]))
  }

  /** A partition in sort-key order, all of it past the key to continue after. */
  ghost predicate Keyed(p: Partition, start: Option<string>) {
    && Sorted(p)
    && forall i :: 0 <= i < |p| ==> Less(start.GetOr(""), p[i].sk)
  }

  lemma DeleteFront(p: Partition, count: nat)
    requires Keyed(p, None) && count <= |p|
    ensures Delete(p, p[..count]) == p[count..]
  {
    DeleteGone(p, p[..count], count);
  }

  lemma {:induction false} DeleteGone(p: Partition, gone: Partition, count: nat)
    requires count <= |p|
    requires Sorted(p)
    requires forall i :: 0 <= i < count ==> p[i] in gone
    requires forall i, j :: count <= i < |p| && 0 <= j < |gone| ==> Less(gone[j].sk, p[i].sk)
    ensures Delete(p, gone) == p[count..]
  {
    if p != [] {
      if count > 0 {
        var i :| 0 <= i < |gone| && gone[i] == p[0];
        DeleteGone(p[1..], gone, count - 1);
      } else {
        forall j | 0 <= j < |gone|
          ensures gone[j].sk != p[0].sk
        {
          Trichotomy(gone[j].sk, p[0].sk);
        }
        DeleteGone(p[1..], gone, 0);
      }
    }
  }

  /** The next page is the front of what is left, and deleting it leaves the rest past the continuation key. */
  lemma {:induction false} PageIsFront(p: Partition, start: Option<string>, limit: nat, more: bool)
    requires Keyed(p, start)
    ensures var page := Query(p, "", start, limit, more);
      && |page.items| == (if limit < |p| then limit else |p|)
      && page.items == p[..|page.items|]
      && Delete(p, page.items) == p[|page.items|..]
      && (page.last == None ==> |page.items| == |p|)
      && (page.last.Some? ==> Keyed(p[|page.items|..], page.last))
      && (page.last.Some? && !more ==> |page.items| < |p|)
  {
    AllSelected(p, start);
    var count := if limit < |p| then limit else |p|;
    DeleteFront(p, count);
    if count > 0 {
      KeyedRest(p, start, count);
    } else {
      assert p[0..] == p;
    }
  }

  /** All records are past the key the page continues after, and past no key at all. */
  lemma AllSelected(p: Partition, start: Option<string>)
    requires Keyed(p, start)
    ensures Select(p, "", start) == p && Keyed(p, None)
  {
    SelectAll(p, "", start);
    forall i | 0 <= i < |p|
      ensures Less("", p[i].sk)
    {
    }
  }

  lemma KeyedRest(p: Partition, start: Option<string>, count: nat)
    requires Keyed(p, start) && 0 < count <= |p|
    ensures Keyed(p[count..], Some(p[count - 1].sk))
  {
  }

  /** How many records a page of a removal holds: as many as there are, up to the backend's limit and to 25. */
  lemma PageSize(p: Partition, start: Option<string>, answer: Answer)
    requires Keyed(p, start) && answer.Answered?
    ensures var limit := if answer.limit < 25 then answer.limit else 25;
      |Query(p, "", start, Limit(answer), answer.more).items| == if limit < |p| then limit else |p|
  {
    PageIsFront(p, start, Limit(answer), answer.more);
  }

  /** One round in terms of the front it takes. */
  lemma RemovalRound(p: Partition, start: Option<string>, rounds: seq<Round>) returns (count: nat, last: Option<string>)
    requires Keyed(p, start) && rounds != [] && rounds[0].query.Answered?
    ensures count == if Limit(rounds[0].query) < |p| then Limit(rounds[0].query) else |p|
    ensures last == None ==> count == |p|
    ensures last.Some? ==> Keyed(p[count..], last) && (!rounds[0].query.more ==> count < |p|)
    ensures Removal(p, start, rounds) ==
      if count > 0 && !rounds[0].deletes then Outcome(p, 0, false)
      else if last == None then Outcome([], |p|, true)
      else Counted(count, Removal(p[count..], last, rounds[1..]))
  {
    PageIsFront(p, start, Limit(rounds[0].query), rounds[0].query.more);
    var page := Query(p, "", start, Limit(rounds[0].query), rounds[0].query.more);
    count, last := |page.items|, page.last;
    assert p[0..] == p;
  }

  lemma SuffixOfSuffix(p: Partition, i: nat, j: nat)
    requires i <= |p| && j <= |p| - i
    ensures p[i..][j..] == p[i + j..]
  {
  }

  /**
   * What a removal does, for every sequence of rounds: its count is what it deleted, always from the front in key
   * order; a completed removal leaves nothing.
   */
  lemma {:induction false} RemovalTakesFront(p: Partition, start: Option<string>, rounds: seq<Round>)
    requires Keyed(p, start)
    ensures Removal(p, start, rounds).count <= |p|
    ensures Removal(p, start, rounds).partition == p[Removal(p, start, rounds).count..]
    ensures Removal(p, start, rounds).done ==> Removal(p, start, rounds).count == |p|
    ensures Removal(p, start, rounds).done ==> exists i :: 0 <= i < |rounds| && rounds[i].query.Answered?
    decreases |rounds|
  {
    if rounds != [] && rounds[0].query.Answered? {
      var count, last := RemovalRound(p, start, rounds);
      if last.Some? {
        RemovalTakesFront(p[count..], last, rounds[1..]);
        SuffixOfSuffix(p, count, Removal(p[count..], last, rounds[1..]).count);
      }
    }
  }

  function Queries(rounds: seq<Round>): seq<Answer> {
    seq(|rounds|, i requires 0 <= i < |rounds| => rounds[i].query)
  }

  predicate AllSucceed(rounds: seq<Round>) {
    forall r :: r in rounds ==> r.query.Answered? && r.deletes
  }

  /**
   * It terminates, whatever else the backend answers: as soon as more answers than there are records were plain ones,
   * nothing is left, however many empty pages and needless continuation keys came between them.
   */
  lemma {:induction false} RemovalTerminates(p: Partition, start: Option<string>, rounds: seq<Round>)
    requires Keyed(p, start) && Plain(Queries(rounds)) > |p|
    requires AllSucceed(rounds)
    ensures Removal(p, start, rounds) == Outcome([], |p|, true)
    decreases |rounds|
  {
    assert rounds[0] in rounds;
    PlainFirst(Queries(rounds));
    assert Queries(rounds)[1..] == Queries(rounds[1..]);
    var count, last := RemovalRound(p, start, rounds);
    if last.Some? {
      RemovalTerminates(p[count..], last, rounds[1..]);
    }
  }

  /** The store's partitions are in key order, their head record is the last to go. */
  lemma RemovingAggregate(log: Log, rounds: seq<Round>)
    requires Ordered(log)
    ensures Keyed(Layout(log), None)
    ensures var o := Removal(Layout(log), None, rounds);
      && (o.done ==> o.partition == [] && o.count == if log == [] then 0 else |log| + 1)
      && (log != [] && o.partition != [] ==> o.partition[|o.partition| - 1] == LatestFor(log[|log| - 1]))
  {
    LayoutKeyed(log);
    RemovalTakesFront(Layout(log), None, rounds);
  }

  lemma LayoutKeyed(log: Log)
    requires Ordered(log)
    ensures Keyed(Layout(log), None)
  {
    var p := Layout(log);
    ItemsBelowHead(log);
    forall i, j | 0 <= i < j < |p|
      ensures Less(p[i].sk, p[j].sk)
    {
      if j < |log| {
        SortKeyOrder(log[i].revision, log[j].revision);
      }
    }
  }
}
