/** The counter sample: its state on 64-bit integers, its reducers, and what any interleaving of events amounts to. */
module Counters {
  import opened Wrappers
  import opened EventLog
  import opened Rendering

  const INCREMENTED := "counter:incremented"
  const DECREMENTED := "counter:decremented"
  const RANDOMIZED := "counter:randomized"

  const WRAP: int := 0x1_0000_0000_0000_0000
  const HALF: int := 0x8000_0000_0000_0000

  /** Go's int. */
  type int64 = n: int | -HALF <= n < HALF

  /** What 64-bit arithmetic leaves of `n`. */
  function Wrapped(n: int): int64 {
    (n + HALF) % WRAP - HALF
  }

  /** Unmarshalling refuses what is not a JSON object. */
  predicate IsObject(data: Data) {
    data.encoding == JSON && data.Data?
  }

  /** It leaves a missing field zero, and refuses numbers that need more than 64 bits. */
  function Field(data: Data, name: string): Option<int64> {
    if !IsObject(data) then None
    else if name !in data.fields then Some(0)
    else if -HALF <= data.fields[name] < HALF then Some(data.fields[name])
    else None
  }

  function Increment(current: int, data: Data): Option<int> {
    match Field(data, "amount")
    case Some(amount) => Some(Wrapped(current + amount))
    case None => None
  }

  function Decrement(current: int, data: Data): Option<int> {
    match Field(data, "amount")
    case Some(amount) => Some(Wrapped(current - amount))
    case None => None
  }

  function Randomize(current: int, data: Data): Option<int> {
    match Field(data, "value")
    case Some(value) => Some(value)
    case None => None
  }

  const REDUCERS: Reducers<int> := map[INCREMENTED := Increment, DECREMENTED := Decrement, RANDOMIZED := Randomize]

  /** The state the reducers assign in place. */
  class Counter {
    var current: int

    constructor ()
      ensures current == 0
    {
      current := 0;
    }

    /** Reduces one event into the counter; a refused payload leaves it as it was. */
    method Reduce(event: DomainEvent) returns (ok: bool)
      modifies this
      ensures Fold(REDUCERS, old(current), [event]) == if ok then Some(current) else None
      ensures !ok ==> current == old(current)
    {
      assert [event][1..] == [];
      if event.eventType == INCREMENTED {
        var amount := Field(event.data, "amount");
        if amount.None? {
          return false;
        }
        current := Wrapped(current + amount.value);
      } else if event.eventType == DECREMENTED {
        var amount := Field(event.data, "amount");
        if amount.None? {
          return false;
        }
        current := Wrapped(current - amount.value);
      } else if event.eventType == RANDOMIZED {
        var value := Field(event.data, "value");
        if value.None? {
          return false;
        }
        current := value.value;
      }
      ok := true;
    }
  }

  /** Arithmetic is that of 64-bit two's complement. */
  lemma WrappedExactly(n: int)
    ensures -0x8000_0000_0000_0000 <= Wrapped(n) < 0x8000_0000_0000_0000
    ensures (n - Wrapped(n)) % 0x1_0000_0000_0000_0000 == 0
    ensures -0x8000_0000_0000_0000 <= n < 0x8000_0000_0000_0000 ==> Wrapped(n) == n
  {
  }

  // --- the value of a log ---------------------------------------------------------------------------------

  /** The number an event carries. */
  function Number(event: DomainEvent): Option<int64> {
    Field(event.data, if event.eventType == RANDOMIZED then "value" else "amount")
  }

  /** If the event has a reducer, its payload can be read. */
  predicate Readable(event: DomainEvent) {
    event.eventType in REDUCERS ==> Number(event).Some?
  }

  predicate AllReadable(events: seq<DomainEvent>) {
    forall i :: 0 <= i < |events| ==> Readable(events[i])
  }

  predicate NoRandomize(events: seq<DomainEvent>) {
    forall i :: 0 <= i < |events| ==> events[i].eventType != RANDOMIZED
  }

  /** What one event adds. */
  function Step(event: DomainEvent): int {
    if event.eventType == INCREMENTED then Number(event).GetOr(0)
    else if event.eventType == DECREMENTED then 0 - Number(event).GetOr(0)
    else 0
  }

  /** Increments minus decrements, on unbounded integers. */
  function Total(events: seq<DomainEvent>): int {
    if events == [] then 0 else Step(events[0]) + Total(events[1..])
  }

  lemma WrappedSum(a: int, b: int)
    ensures Wrapped(Wrapped(a) + b) == Wrapped(a + b)
  {
    SameRemainder(Wrapped(a) + b + HALF, a + b + HALF, (a + HALF) / WRAP);
  }

  lemma SameRemainder(x: int, y: int, k: int)
    requires y == x + k * WRAP
    ensures x % WRAP == y % WRAP
  {
    var q := x / WRAP;
    assert y == (q + k) * WRAP + x % WRAP;
    Remainder(y, q + k, x % WRAP);
  }

  lemma Remainder(y: int, q: int, r: int)
    requires y == q * WRAP + r && 0 <= r < WRAP
    ensures y % WRAP == r
  {
  }

  /** Without randomize events a log moves the counter by its total, with one wrap at the end. */
  lemma {:induction false} CounterMovesByTotal(current: int, events: seq<DomainEvent>)
    requires AllReadable(events) && NoRandomize(events) && Wrapped(current) == current
    ensures Fold(REDUCERS, current, events) == Some(Wrapped(current + Total(events)))
    decreases |events|
  {
    if events != [] {
      var next := Wrapped(current + Step(events[0]));
      WrappedSum(current + Step(events[0]), Total(events[1..]));
      WrappedSum(current + Step(events[0]), 0);
      CounterMovesByTotal(next, events[1..]);
      StepReduces(current, events[0]);
    }
  }

  lemma StepReduces(current: int, event: DomainEvent)
    requires Readable(event) && event.eventType != RANDOMIZED && Wrapped(current) == current
    ensures if event.eventType in REDUCERS
      then REDUCERS[event.eventType](current, event.data) == Some(Wrapped(current + Step(event)))
      else Wrapped(current + Step(event)) == current
  {
  }

  /**
   * The value of any log of counter events: the last randomized value, or zero if there is none, plus the increments
   * and minus the decrements that follow it; whatever came before it does not matter.
   */
  lemma CounterValue(front: seq<DomainEvent>, last: DomainEvent, rest: seq<DomainEvent>)
    requires AllReadable(front) && last.eventType == RANDOMIZED && Number(last).Some?
    requires AllReadable(rest) && NoRandomize(rest)
    ensures Fold(REDUCERS, 0, front + [last] + rest) == Some(Wrapped(Number(last).value + Total(rest)))
    ensures Fold(REDUCERS, 0, rest) == Some(Wrapped(Total(rest)))
  {
    var value := Number(last).value;
    RefusedExactlyWhen(0, front);
    FoldJoin(REDUCERS, 0, front, [last]);
    FoldJoin(REDUCERS, 0, front + [last], rest);
    assert [last][1..] == [];
    assert Fold(REDUCERS, 0, front + [last]) == Some(value);
    CounterMovesByTotal(value, rest);
    CounterMovesByTotal(0, rest);
  }

  /** Rendering a counter fails exactly if the payload of an event with a reducer cannot be read. */
  lemma {:induction false} RefusedExactlyWhen(current: int, events: seq<DomainEvent>)
    ensures Fold(REDUCERS, current, events).Some? <==> AllReadable(events)
    decreases |events|
  {
    if events != [] {
      var event, rest := events[0], events[1..];
      ReadableJoin(event, rest);
      if event.eventType in REDUCERS {
        ReducesExactlyWhen(current, event);
        if Number(event).Some? {
          RefusedExactlyWhen(REDUCERS[event.eventType](current, event.data).value, rest);
        }
      } else {
        RefusedExactlyWhen(current, rest);
      }
    }
  }

  lemma ReadableJoin(event: DomainEvent, rest: seq<DomainEvent>)
    ensures AllReadable([event] + rest) <==> Readable(event) && AllReadable(rest)
  {
    var all := [event] + rest;
    assert all[0] == event;
    assert forall i :: 0 <= i < |rest| ==> rest[i] == all[i + 1];
  }

  lemma ReducesExactlyWhen(current: int, event: DomainEvent)
    requires event.eventType in REDUCERS
    ensures REDUCERS[event.eventType](current, event.data).Some? <==> Number(event).Some?
  {
  }

  lemma {:induction false} TotalOfJoin(a: seq<DomainEvent>, b: seq<DomainEvent>)
    ensures Total(a + b) == Total(a) + Total(b)
  {
    if a == [] {
      assert a + b == b;
    } else {
      assert (a + b)[1..] == a[1..] + b;
      TotalOfJoin(a[1..], b);
    }
  }

  lemma {:induction false} TotalOfPermutation(a: seq<DomainEvent>, b: seq<DomainEvent>)
    requires multiset(a) == multiset(b)
    ensures Total(a) == Total(b)
  {
    if a == [] {
      assert |multiset(b)| == 0;
    } else {
      assert a[0] in multiset(b);
      var i :| 0 <= i < |b| && b[i] == a[0];
      WithoutOne(a, b, i);
      TotalOfPermutation(a[1..], b[..i] + b[i + 1..]);
      assert b == b[..i] + ([b[i]] + b[i + 1..]);
      TotalAround(b, b[..i], b[i], b[i + 1..]);
    }
  }

  lemma WithoutOne(a: seq<DomainEvent>, b: seq<DomainEvent>, i: nat)
    requires a != [] && multiset(a) == multiset(b) && i < |b| && b[i] == a[0]
    ensures multiset(a[1..]) == multiset(b[..i] + b[i + 1..])
  {
    assert a == [a[0]] + a[1..];
    assert b == b[..i] + [b[i]] + b[i + 1..];
    assert multiset(a[1..]) == multiset(a) - multiset{a[0]};
  }

  lemma TotalAround(events: seq<DomainEvent>, front: seq<DomainEvent>, x: DomainEvent, back: seq<DomainEvent>)
    requires events == front + ([x] + back)
    ensures Total(events) == Step(x) + Total(front + back)
  {
    TotalOfJoin(front, [x] + back);
    TotalOfJoin(front, back);
    TotalOfFirst([x] + back, x, back);
  }

  lemma TotalOfFirst(events: seq<DomainEvent>, first: DomainEvent, rest: seq<DomainEvent>)
    requires events == [first] + rest
    ensures Total(events) == Step(first) + Total(rest)
  {
    assert events[1..] == rest;
  }

  lemma SameEvents(a: seq<DomainEvent>, b: seq<DomainEvent>)
    requires multiset(a) == multiset(b) && AllReadable(a) && NoRandomize(a)
    ensures AllReadable(b) && NoRandomize(b)
  {
    forall i | 0 <= i < |b|
      ensures Readable(b[i]) && b[i].eventType != RANDOMIZED
    {
      assert b[i] in multiset(a);
    }
  }

  /** Without randomize, the value does not depend on how the events were interleaved. */
  lemma {:induction false} InterleavingDoesNotMatter(current: int, a: seq<DomainEvent>, b: seq<DomainEvent>)
    requires multiset(a) == multiset(b) && AllReadable(a) && NoRandomize(a) && Wrapped(current) == current
    ensures Fold(REDUCERS, current, a) == Some(Wrapped(current + Total(a)))
    ensures Fold(REDUCERS, current, b) == Some(Wrapped(current + Total(a)))
  {
    SameEvents(a, b);
    TotalOfPermutation(a, b);
    CounterMovesByTotal(current, a);
    CounterMovesByTotal(current, b);
  }
}
