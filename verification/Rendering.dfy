/** Rendering an entity: the fold of its reducers over the events of its log. */
module Rendering {
  import opened Wrappers
  import opened EventLog

  /** A reducer works on the decoded payload and may refuse it. */
  type Reducer<!T> = (T, Data) -> Option<T>

  type Reducers<!T> = map<string, Reducer<T>>

  /** Events without a reducer leave the state alone; the first refusal ends the fold. */
  function Fold<T>(reducers: Reducers<T>, state: T, events: seq<DomainEvent>): Option<T> {
    if events == [] then Some(state)
    else if events[0].eventType !in reducers then Fold(reducers, state, events[1..])
    else match reducers[events[0].eventType](state, events[0].data)
      case Some(next) => Fold(reducers, next, events[1..])
      case None => None
  }

  method Render<T>(reducers: Reducers<T>, initial: T, events: seq<RecordedEvent>) returns (r: Option<T>)
    ensures r == Fold(reducers, initial, Payload(events))
  {
    var state := initial;
    for i := 0 to |events|
      invariant Fold(reducers, initial, Payload(events)) == Fold(reducers, state, Payload(events)[i..])
    {
      var event := events[i].event;
      assert Payload(events)[i..][0] == event && Payload(events)[i..][1..] == Payload(events)[i + 1..];
      if event.eventType !in reducers {
        continue;
      }
      var next := reducers[event.eventType](state, event.data);
      if next.None? {
        return None;
      }
      state := next.value;
    }
    r := Some(state);
  }

  /** Rendering splits over concatenation: it can continue from an earlier state. */
  lemma {:induction false} FoldJoin<T>(reducers: Reducers<T>, state: T, a: seq<DomainEvent>, b: seq<DomainEvent>)
    ensures Fold(reducers, state, a + b) ==
      match Fold(reducers, state, a)
      case Some(next) => Fold(reducers, next, b)
      case None => None
  {
    if a == [] {
      assert a + b == b;
    } else {
      assert (a + b)[1..] == a[1..] + b;
      if a[0].eventType !in reducers {
        FoldJoin(reducers, state, a[1..], b);
      } else {
        var next := reducers[a[0].eventType](state, a[0].data);
        if next.Some? {
          FoldJoin(reducers, next.value, a[1..], b);
        }
      }
    }
  }

  function Mapped<T>(reducers: Reducers<T>, events: seq<DomainEvent>): seq<DomainEvent> {
    if events == [] then []
    else (if events[0].eventType in reducers then [events[0]] else []) + Mapped(reducers, events[1..])
  }

  /** Events of unmapped types might as well not be there. */
  lemma {:induction false} UnmappedIgnored<T>(reducers: Reducers<T>, state: T, events: seq<DomainEvent>)
    ensures Fold(reducers, state, events) == Fold(reducers, state, Mapped(reducers, events))
  {
    if events != [] {
      if events[0].eventType !in reducers {
        assert Mapped(reducers, events) == Mapped(reducers, events[1..]);
        UnmappedIgnored(reducers, state, events[1..]);
      } else {
        assert Mapped(reducers, events)[1..] == Mapped(reducers, events[1..]);
        var next := reducers[events[0].eventType](state, events[0].data);
        if next.Some? {
          UnmappedIgnored(reducers, next.value, events[1..]);
        }
      }
    }
  }
}
