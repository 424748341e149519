/**
 * The shared revision generator: ULIDs whose entropy grows while the millisecond stays the same
 * (the ULID specification, section "Monotonicity"). The clock and the random source are parameters.
 */
module Revisions {
  import opened Wrappers
  import opened TextOrder
  import opened Ulid

  datatype RawEntropy = Undrawn | Drawn(ms: nat, entropy: nat)

  /** What the generator remembers: its last millisecond and the entropy drawn then. */
  type Entropy = e: RawEntropy | e.Drawn? ==> e.ms < TIME_LIMIT && e.entropy < ENTROPY_LIMIT witness Undrawn

  datatype RawDraw = Draw(ms: nat, random: nat, increment: nat)

  /** One call: the millisecond passed in, and what the random source would answer to either question. */
  type Draw = d: RawDraw | d.random < ENTROPY_LIMIT && d.increment > 0 witness Draw(0, 0, 1)

  /** The entropy of one locked draw. There is none when the time needs more than 48 bits or the entropy overflows. */
  function Grown(g: Entropy, d: Draw): Option<Entropy> {
    if d.ms >= TIME_LIMIT then None
    else if g.Drawn? && g.ms == d.ms then
      var entropy := g.entropy + d.increment;
      if entropy < ENTROPY_LIMIT then Some(Drawn(d.ms, entropy)) else None
    else Some(Drawn(d.ms, d.random))
  }

  /** One draw: what the generator remembers afterwards, and the revision if there is one. */
  function Next(g: Entropy, d: Draw): (Entropy, Option<Revision>) {
    match Grown(g, d)
    case Some(e) => (e, Some(UlidText(e.ms, e.entropy)))
    case None => (g, None)
  }

  class RevisionGenerator {
    var entropy: Entropy

    constructor ()
      ensures entropy == Undrawn
    {
      entropy := Undrawn;
    }

    method NewRevision(d: Draw) returns (revision: Option<Revision>)
      modifies this
      ensures (entropy, revision) == Next(old(entropy), d)
    {
      if d.ms >= TIME_LIMIT {
        return None;
      }
      if entropy.Drawn? && entropy.ms == d.ms {
        var next := entropy.entropy + d.increment;
        if next >= ENTROPY_LIMIT {
          return None;
        }
        entropy := Drawn(d.ms, next);
      } else {
        entropy := Drawn(d.ms, d.random);
      }
      revision := Some(UlidText(d.ms, entropy.entropy));
    }
  }

  /** The generator after the first `k` of the calls that all goroutines made on it. */
  function After(g: Entropy, calls: seq<Draw>, k: nat): Entropy
    requires k <= |calls|
    decreases k
  {
    if k == 0 then g
    else
      var before := After(g, calls, k - 1);
      Grown(before, calls[k - 1]).GetOr(before)
  }

  /** What call `i` returned. */
  function Returned(g: Entropy, calls: seq<Draw>, i: nat): Option<Revision>
    requires i < |calls|
  {
    Next(After(g, calls, i), calls[i]).1
  }

  /** A returned revision is the text of the state the call leaves behind. */
  lemma ReturnedIsState(g: Entropy, calls: seq<Draw>, i: nat)
    requires i < |calls| && Returned(g, calls, i).Some?
    ensures calls[i].ms < TIME_LIMIT
    ensures After(g, calls, i + 1).Drawn? && After(g, calls, i + 1).ms == calls[i].ms
    ensures Returned(g, calls, i).value == UlidText(calls[i].ms, After(g, calls, i + 1).entropy)
  {
  }

  /** While every call is at one millisecond the entropy never falls back. */
  lemma {:induction false} EntropyKept(g: Entropy, calls: seq<Draw>, i: nat, k: nat)
    requires i < k <= |calls| && After(g, calls, i + 1).Drawn?
    requires forall m :: i < m < k ==> calls[m].ms == After(g, calls, i + 1).ms
    ensures After(g, calls, k).Drawn? && After(g, calls, k).ms == After(g, calls, i + 1).ms
    ensures After(g, calls, i + 1).entropy <= After(g, calls, k).entropy
    decreases k
  {
    if i + 1 < k {
      EntropyKept(g, calls, i, k - 1);
    }
  }

  /** Nothing at another millisecond happens from call `i` to call `j`. */
  predicate SameMillisecond(times: seq<nat>, i: nat, j: nat)
    requires i < j < |times|
  {
    forall k :: i <= k <= j ==> times[k] == times[i]
  }

  predicate AtTimes(calls: seq<Draw>, times: seq<nat>) {
    |calls| == |times| && forall k :: 0 <= k < |calls| ==> calls[k].ms == times[k]
  }

  /** Call `i` comes before call `j`: their revisions increase if the clock moved on, or never left the millisecond. */
  lemma DrawsIncrease(g: Entropy, calls: seq<Draw>, times: seq<nat>, i: nat, j: nat)
    requires i < j < |times| && AtTimes(calls, times)
    requires times[i] < times[j] || SameMillisecond(times, i, j)
    requires Returned(g, calls, i).Some? && Returned(g, calls, j).Some?
    ensures Less(Returned(g, calls, i).value, Returned(g, calls, j).value)
  {
    ReturnedIsState(g, calls, i);
    ReturnedIsState(g, calls, j);
    var a, b := After(g, calls, i + 1), After(g, calls, j + 1);
    if times[i] == times[j] {
      EntropyKept(g, calls, i, j);
    }
    UlidOrder(a.ms, a.entropy, b.ms, b.entropy);
  }

  ghost predicate IncreaseForEveryEntropy(times: seq<nat>, i: nat, j: nat)
    requires i < j < |times|
  {
    forall g: Entropy, calls: seq<Draw> |
      AtTimes(calls, times) && Returned(g, calls, i).Some? && Returned(g, calls, j).Some? ::
      Less(Returned(g, calls, i).value, Returned(g, calls, j).value)
  }

  /**
   * Exactly when two draws are ordered whatever the random source answers: the clock moved on, or no draw at
   * another millisecond came between. The lock covers one draw, so a change set whose draws share one
   * millisecond is only ordered if nobody draws at a different one in the middle of its loop.
   */
  lemma DrawsIncreaseExactlyWhen(times: seq<nat>, i: nat, j: nat)
    requires i < j < |times|
    requires forall k :: 0 <= k < |times| ==> times[k] < TIME_LIMIT
    ensures IncreaseForEveryEntropy(times, i, j) <==> times[i] < times[j] || SameMillisecond(times, i, j)
  {
    if times[i] < times[j] || SameMillisecond(times, i, j) {
      forall g: Entropy, calls: seq<Draw> |
        AtTimes(calls, times) && Returned(g, calls, i).Some? && Returned(g, calls, j).Some?
        ensures Less(Returned(g, calls, i).value, Returned(g, calls, j).value)
      {
        DrawsIncrease(g, calls, times, i, j);
      }
    } else {
      var calls := seq(|times|, k requires 0 <= k < |times| => TopDraw(times[k], k == i || k == j));
      TopDraws(calls, times, i, j);
      NotIncreasing(calls, i, j);
    }
  }

  /** Draws at the top of the entropy: only the chosen ones find room for a larger one. */
  function TopDraw(ms: nat, chosen: bool): Draw {
    if chosen then Draw(ms, ENTROPY_LIMIT - 1, 1) else Draw(ms, ENTROPY_LIMIT - 2, 2)
  }

  ghost predicate AllTop(calls: seq<Draw>, times: seq<nat>, i: nat, j: nat) {
    && |calls| == |times|
    && forall k :: 0 <= k < |times| ==> times[k] < TIME_LIMIT && calls[k] == TopDraw(times[k], k == i || k == j)
  }

  /** Both calls of a fresh generator draw, and the later one draws no higher. */
  ghost predicate NotAbove(calls: seq<Draw>, i: nat, j: nat)
    requires i < |calls| && j < |calls|
  {
    var a, b := After(Undrawn, calls, i + 1), After(Undrawn, calls, j + 1);
    && Grown(After(Undrawn, calls, i), calls[i]) == Some(a)
    && Grown(After(Undrawn, calls, j), calls[j]) == Some(b)
    && a.Drawn? && b.Drawn? && (b.ms < a.ms || (b.ms == a.ms && b.entropy <= a.entropy))
  }

  lemma NotIncreasing(calls: seq<Draw>, i: nat, j: nat)
    requires i < j < |calls| && NotAbove(calls, i, j)
    ensures Returned(Undrawn, calls, i).Some? && Returned(Undrawn, calls, j).Some?
    ensures !Less(Returned(Undrawn, calls, i).value, Returned(Undrawn, calls, j).value)
  {
    var a, b := After(Undrawn, calls, i + 1), After(Undrawn, calls, j + 1);
    UlidOrder(a.ms, a.entropy, b.ms, b.entropy);
  }

  /** The highest entropy is out only while the draws stay in the millisecond of call `i`. */
  lemma {:induction false} TopUpTo(calls: seq<Draw>, times: seq<nat>, i: nat, j: nat, k: nat)
    requires i < j < |times| && AllTop(calls, times, i, j) && 0 < k <= j
    ensures var a := After(Undrawn, calls, k);
      && a.Drawn? && a.ms == times[k - 1]
      && a.entropy == if i < k && (k == i + 1 || SameMillisecond(times, i, k - 1))
                      then ENTROPY_LIMIT - 1 else ENTROPY_LIMIT - 2
    decreases k
  {
    if k > 1 {
      TopUpTo(calls, times, i, j, k - 1);
    }
    TopStep(After(Undrawn, calls, k - 1), times[k - 1], k - 1 == i);
    if k > i + 2 {
      SameForLonger(times, i, k - 2);
    }
  }

  /** One draw of that schedule, away from a chosen one at the top. */
  lemma TopStep(a: Entropy, ms: nat, chosen: bool)
    requires ms < TIME_LIMIT
    requires a.Drawn? ==> a.entropy == ENTROPY_LIMIT - 2 || (a.entropy == ENTROPY_LIMIT - 1 && !(chosen && a.ms == ms))
    ensures var b := Grown(a, TopDraw(ms, chosen)).GetOr(a);
      && b.Drawn? && b.ms == ms
      && b.entropy == if chosen || (a.Drawn? && a.ms == ms && a.entropy == ENTROPY_LIMIT - 1)
                      then ENTROPY_LIMIT - 1 else ENTROPY_LIMIT - 2
    ensures chosen ==> Grown(a, TopDraw(ms, chosen)).Some?
  {
  }

  lemma TopDraws(calls: seq<Draw>, times: seq<nat>, i: nat, j: nat)
    requires i < j < |times| && AllTop(calls, times, i, j)
    requires times[i] >= times[j] && !SameMillisecond(times, i, j)
    ensures NotAbove(calls, i, j)
  {
    if i > 0 {
      TopUpTo(calls, times, i, j, i);
    }
    TopUpTo(calls, times, i, j, i + 1);
    TopStep(After(Undrawn, calls, i), times[i], true);
    TopUpTo(calls, times, i, j, j);
    if i + 1 < j {
      SameForLonger(times, i, j - 1);
    }
    TopStep(After(Undrawn, calls, j), times[j], true);
  }

  lemma SameForLonger(times: seq<nat>, i: nat, k: nat)
    requires i < k < |times| - 1
    ensures SameMillisecond(times, i, k + 1) <==> SameMillisecond(times, i, k) && times[k + 1] == times[k]
  {
  }
}
