/**
 * The EventStoreDB store: one numbered stream per aggregate, read in pages, with revisions that are written in
 * hexadecimal and parsed as decimal.
 */
module EventStoreDb {
  import opened Wrappers
  import opened TextOrder
  import opened Numerals
  import opened Ulid
  import opened EventLog

  const HEX := "0123456789abcdef"
  const DECIMAL := "0123456789"
  const WRAP: nat := 0x1_0000_0000_0000_0000
  const DEFAULT_PAGE_SIZE: nat := 97

  /** Event numbers are indices; both they and the revision written for them are 64-bit. */
  type PageSize = n: nat | n > 0 witness 97

  type Stream = s: seq<DomainEvent> | |s| < WRAP

  // --- revisions ---------------------------------------------------------------------------------------

  /** fmt.Sprintf("%026x", number + 1), where the 64-bit addition wraps. */
  function RevisionOf(number: nat): Revision
    requires number < WRAP
  {
    Hex(if number == WRAP - 1 then 0 else number + 1)
  }

  function Hex(n: nat): string {
    Text(n, 26, HEX)
  }

  datatype PositionError = InvalidExpectedRevision

  /** strconv.ParseUint in the given digits: no empty text, no other characters, no more than 64 bits. */
  function ParseUint(text: string, alphabet: string): Result<nat, PositionError> {
    if text == "" then Err(InvalidExpectedRevision)
    else match Parse(text, alphabet)
      case Some(n) => if n < WRAP then Ok(n) else Err(InvalidExpectedRevision)
      case None => Err(InvalidExpectedRevision)
  }

  /** The event number that `Publish` takes an expected revision for, with the 64-bit wrap of its subtraction. */
  function ExpectedNumber(expected: Revision): Result<nat, PositionError> {
    match ParseUint(expected, DECIMAL)
    case Ok(n) => Ok(if n == 0 then WRAP - 1 else n - 1)
    case Err(e) => Err(e)
  }

  lemma Alphabets()
    ensures Ascending(HEX) && |HEX| == 16 && Ascending(DECIMAL) && |DECIMAL| == 10 && DECIMAL < HEX
  {
  }

  /** The digits: "%026x" writes lower-case letters. */
  lemma HexDigits(d: nat)
    requires d < 16
    ensures HEX[d] == if d < 10 then '0' + d as char else 'a' + (d - 10) as char
    ensures d < 10 ==> DECIMAL[d] == HEX[d]
  {
  }

  /** The characters of a written revision: the 26 base-16 digits of the event number plus one. */
  lemma RevisionCharacter(number: nat, k: nat)
    requires number < WRAP - 1 && k < 26
    ensures |RevisionOf(number)| == 26 && Pow(16, 25 - k) > 0
    ensures var d := (number + 1) / Pow(16, 25 - k) % 16;
      RevisionOf(number)[k] == if d < 10 then '0' + d as char else 'a' + (d - 10) as char
  {
    Alphabets();
    PowPositive(16, 25 - k);
    TextDigit(number + 1, 26, HEX, k);
    HexDigits((number + 1) / Pow(16, 25 - k) % 16);
  }

  /** The number that decimal digits write, whatever their number; other characters stand for nothing. */
  function DecimalValue(text: string): Option<nat> {
    if text == "" then Some(0)
    else
      var front, c := DecimalValue(text[..|text| - 1]), text[|text| - 1];
      if front.Some? && '0' <= c <= '9' then Some(10 * front.value + (c as int - '0' as int)) else None
  }

  lemma DecimalDigit(c: char)
    ensures IndexOf(DECIMAL, c) == if '0' <= c <= '9' then Some(c as int - '0' as int) else None
  {
    Alphabets();
    if '0' <= c <= '9' {
      var d := c as int - '0' as int;
      HexDigits(d);
      IndexOfDigit(DECIMAL, d);
    } else if IndexOf(DECIMAL, c).Some? {
      HexDigits(IndexOf(DECIMAL, c).value);
    }
  }

  lemma {:induction false} ParseIsDecimal(text: string)
    ensures Parse(text, DECIMAL) == DecimalValue(text)
  {
    if text != "" {
      ParseIsDecimal(text[..|text| - 1]);
      DecimalDigit(text[|text| - 1]);
      Alphabets();
    }
  }

  /** The position a publish expects is refused exactly if it is neither empty nor a 64-bit decimal number. */
  lemma ExpectedErrExactlyWhen(expected: Revision)
    ensures ExpectedOf(expected).Err? <==>
      expected != "" && !(DecimalValue(expected).Some? && DecimalValue(expected).value < 0x1_0000_0000_0000_0000)
  {
    ParseIsDecimal(expected);
    assert forall i :: 0 <= i < 26 ==> INITIAL_REVISION[i] == '0';
    ZerosAreZero(INITIAL_REVISION);
  }

  lemma {:induction false} ZerosAreZero(text: string)
    requires forall i :: 0 <= i < |text| ==> text[i] == '0'
    ensures DecimalValue(text) == Some(0)
  {
    if text != "" {
      ZerosAreZero(text[..|text| - 1]);
    }
  }

  lemma HexWidth(n: nat)
    requires n < WRAP
    ensures n < Pow(16, 26)
  {
    assert Pow(16, 8) == 0x1_0000_0000 && Pow(16, 10) == 0x100_0000_0000;
    PowJoin(16, 8, 8);
    PowJoin(16, 16, 10);
  }

  lemma HexKeepsOrder(m: nat, n: nat)
    requires m < WRAP && n < WRAP
    ensures Less(Hex(m), Hex(n)) <==> m < n
    ensures Hex(m) == Hex(n) <==> m == n
  {
    Alphabets();
    HexWidth(m);
    HexWidth(n);
    TextOrderIsNumericOrder(m, n, 26, HEX);
  }

  /** The text form keeps the order of event numbers, until the 64-bit revision wraps. */
  lemma RevisionsKeepOrder(m: nat, n: nat)
    requires m < WRAP - 1 && n < WRAP - 1
    ensures Less(RevisionOf(m), RevisionOf(n)) <==> m < n
    ensures RevisionOf(m) == RevisionOf(n) <==> m == n
  {
    HexKeepsOrder(m + 1, n + 1);
  }

  /** Only the last 64-bit event number, whose revision wraps to zero, is written as the initial revision. */
  lemma InitialOnlyWrapped(number: nat)
    requires number < WRAP
    ensures RevisionOf(number) == INITIAL_REVISION <==> number == WRAP - 1
  {
    HexZero();
    HexKeepsOrder(if number == WRAP - 1 then 0 else number + 1, 0);
  }

  /** A loaded stream has the initial revision exactly if it has no events. */
  lemma InitialMeansEmpty(stream: Stream)
    ensures RevisionFrom(Record(stream)) == INITIAL_REVISION <==> Record(stream) == []
  {
    if stream != [] {
      InitialOnlyWrapped(|stream| - 1);
    }
  }

  lemma HexZero()
    ensures Hex(0) == INITIAL_REVISION
  {
    ZeroDigits(26, HEX);
    assert HEX[0] == '0';
    assert forall i :: 0 <= i < 26 ==> INITIAL_REVISION[i] == '0';
  }

  lemma {:induction false} ZeroDigits(width: nat, alphabet: string)
    requires |alphabet| > 0
    ensures forall i :: 0 <= i < width ==> Text(0, width, alphabet)[i] == alphabet[0]
  {
    if width > 0 {
      ZeroDigits(width - 1, alphabet);
    }
  }

  /** Parsed with the base it is written in, every revision but the wrapped one would give its event number back. */
  lemma SixteenWouldRoundTrip(number: nat)
    requires number < WRAP - 1
    ensures ParseUint(RevisionOf(number), HEX) == Ok(number + 1)
  {
    ParseHex(number + 1);
  }

  lemma ParseHex(n: nat)
    requires n < WRAP
    ensures Hex(n) != "" && Parse(Hex(n), HEX) == Some(n)
  {
    Alphabets();
    HexWidth(n);
    ParseText(n, 26, HEX);
  }

  /** What a written revision is parsed to: itself for one digit; for more an error or a smaller positive number. */
  lemma DecimalOfHex(n: nat)
    requires 0 < n < WRAP
    ensures n < 10 ==> ParseUint(Hex(n), DECIMAL) == Ok(n)
    ensures n >= 10 ==> ParseUint(Hex(n), DECIMAL).Err? || 0 < ParseUint(Hex(n), DECIMAL).value < n
  {
    Alphabets();
    HexWidth(n);
    ReadInSmallerBase(n, 26, HEX, DECIMAL);
  }

  /**
   * The round trip of a written revision, exactly: `Publish` recovers the event number for the first nine events only;
   * any later revision is refused as no number, or taken for an earlier event.
   */
  lemma ExpectedNumberExactlyWhen(number: nat)
    requires number < WRAP - 1
    ensures ExpectedNumber(RevisionOf(number)) == Ok(number) <==> number + 1 < 10
    ensures number + 1 >= 10 ==>
      ExpectedNumber(RevisionOf(number)).Err? || ExpectedNumber(RevisionOf(number)).value < number
  {
    DecimalOfHex(number + 1);
  }

  // --- the store ----------------------------------------------------------------------------------------

  function Record(stream: Stream): (events: seq<RecordedEvent>)
    ensures |events| == |stream|
  {
    seq(|stream|, i requires 0 <= i < |stream| => RecordedEvent(RevisionOf(i), stream[i]))
  }

  datatype ExpectedPosition = Any | NoStream | Number(number: nat)

  function ExpectedOf(expected: Revision): Result<ExpectedPosition, PositionError> {
    if expected == INITIAL_REVISION then Ok(NoStream)
    else if expected == "" then Ok(Any)
    else match ExpectedNumber(expected)
      case Ok(number) => Ok(Number(number))
      case Err(e) => Err(e)
  }

  /** The backend's check: the stream's last event has the expected number. */
  predicate Meets(stream: Stream, position: ExpectedPosition) {
    match position
    case Any => true
    case NoStream => stream == []
    case Number(number) => |stream| > 0 && |stream| - 1 == number
  }

  predicate Accepts(stream: Stream, expected: Revision) {
    ExpectedOf(expected).Ok? && Meets(stream, ExpectedOf(expected).value)
  }

  datatype PublishError = RevisionConflict | InvalidRevision | StreamFull

  datatype Position = Start | Revision(number: nat)

  class EventStore {
    const pageSize: PageSize
    var events: Stream

    /** The PageSize option falls back to the default for sizes that are not positive. */
    constructor (size: int)
      ensures events == []
      ensures pageSize == if size <= 0 then 97 else size
    {
      pageSize := if size <= 0 then DEFAULT_PAGE_SIZE else size;
      events := [];
    }

    /** Another publisher appends some events. */
    method Append(more: seq<DomainEvent>)
      modifies this`events
      ensures events == if |old(events)| + |more| < WRAP then old(events) + more else old(events)
    {
      if |events| + |more| < WRAP {
        events := events + more;
      }
    }

    method Publish(expected: Revision, more: seq<DomainEvent>) returns (error: Option<PublishError>)
      modifies this`events
      ensures error.None? ==> events == old(events) + more
      ensures error.Some? ==> events == old(events)
      ensures error.None? <==> Accepts(old(events), expected) && |old(events)| + |more| < WRAP
      ensures error == Some(InvalidRevision) <==>
        expected != "" && !(DecimalValue(expected).Some? && DecimalValue(expected).value < 0x1_0000_0000_0000_0000)
      ensures error == Some(InvalidRevision) <==> ExpectedOf(expected).Err?
      ensures error == Some(RevisionConflict) <==> ExpectedOf(expected).Ok? && !Accepts(old(events), expected)
    {
      var esevents := new DomainEvent[|more|](_ => NO_EVENT);
      for i := 0 to |more|
        invariant esevents[..i] == more[..i] && events == old(events)
      {
        esevents[i] := more[i];
      }
      ExpectedErrExactlyWhen(expected);
      var position := Any;
      if expected == INITIAL_REVISION {
        position := NoStream;
      } else if expected != "" {
        var parsed := ParseUint(expected, DECIMAL);
        if parsed.Err? {
          return Some(InvalidRevision);
        }
        position := Number(if parsed.value == 0 then WRAP - 1 else parsed.value - 1);
      }
      if !Meets(events, position) {
        return Some(RevisionConflict);
      }
      if |events| + |more| >= WRAP {
        return Some(StreamFull);
      }
      events := events + esevents[..];
      error := None;
    }

    /** Receives the event with the given number, if there is one by then. */
    method Receive(number: nat, append: seq<DomainEvent>) returns (event: Option<RecordedEvent>)
      requires number <= |events|
      modifies this`events
      ensures old(events) <= events && (append == [] ==> events == old(events))
      ensures event.Some? ==> number < |events| && event.value == RecordedEvent(RevisionOf(number), events[number])
      ensures event.None? ==> number == |events|
    {
      Append(append);
      event := if number < |events| then Some(RecordedEvent(RevisionOf(number), events[number])) else None;
    }

    /**
     * One page: the events from number `first` on, received one by one while others append (one batch of `appends`
     * before each receive, until there are none left). It is short only if it reached the end the stream has by then.
     */
    method ReadPage(first: nat, appends: seq<seq<DomainEvent>>)
      returns (page: seq<RecordedEvent>, last: Position, rest: seq<seq<DomainEvent>>)
      requires first <= |events|
      modifies this`events
      ensures old(events) <= events && (appends == [] ==> events == old(events))
      ensures IsPage(events, first, page)
      ensures |page| <= pageSize && (|page| < pageSize ==> |events| == first + |page|)
      ensures page != [] ==> last == Revision(first + |page| - 1)
      ensures |rest| <= |appends| && (appends != [] ==> |rest| < |appends|)
    {
      page, last, rest := [], Start, appends;
      while |page| < pageSize
        invariant old(events) <= events && (appends == [] ==> events == old(events))
        invariant |page| <= pageSize && IsPage(events, first, page)
        invariant page != [] ==> last == Revision(first + |page| - 1)
        invariant |rest| <= |appends| && (page != [] && appends != [] ==> |rest| < |appends|)
      {
        var number := first + |page|;
        var event := Receive(number, if rest == [] then [] else rest[0]);
        if rest != [] {
          rest := rest[1..];
        }
        if event.None? {
          return;
        }
        page := page + [event.value];
        last := Revision(number);
      }
    }

    /**
     * Load, page after page until one is short: every event once and in order, for every page size and every schedule
     * of appends. It ends when the appends do, and what it loaded is the whole stream as it is at that moment, which
     * extends the one at the start.
     */
    method Load(appends: seq<seq<DomainEvent>>) returns (revision: Revision, loaded: seq<RecordedEvent>)
      modifies this`events
      ensures old(events) <= events
      ensures loaded == Record(events)
      ensures revision == RevisionFrom(loaded) && (revision == INITIAL_REVISION <==> loaded == [])
    {
      loaded := [];
      var position, rest := Start, appends;
      while true
        invariant old(events) <= events
        invariant IsPage(events, 0, loaded)
        invariant position == if loaded == [] then Start else Revision(|loaded| - 1)
        decreases |rest|, |events| - |loaded|
      {
        var page, last;
        page, last, rest := ReadPage(if position.Start? then 0 else position.number + 1, rest);
        PagesJoin(events, loaded, page);
        loaded := loaded + page;
        if |page| < pageSize || |page| == 0 {
          break;
        }
        position := last;
      }
      revision := RevisionFrom(loaded);
      PageRevision(events, loaded);
    }
  }

  lemma PageRevision(stream: Stream, loaded: seq<RecordedEvent>)
    requires IsPage(stream, 0, loaded)
    ensures loaded == Record(stream[..|loaded|])
    ensures RevisionFrom(loaded) == INITIAL_REVISION <==> loaded == []
  {
    if loaded != [] {
      InitialOnlyWrapped(|loaded| - 1);
    }
  }

  /** The page holds the consecutive events from number `first` on, each with its revision. */
  ghost predicate IsPage(stream: Stream, first: nat, page: seq<RecordedEvent>) {
    && first + |page| <= |stream|
    && forall i :: 0 <= i < |page| ==> page[i] == RecordedEvent(RevisionOf(first + i), stream[first + i])
  }

  lemma PagesJoin(stream: Stream, loaded: seq<RecordedEvent>, page: seq<RecordedEvent>)
    requires IsPage(stream, 0, loaded) && IsPage(stream, |loaded|, page)
    ensures IsPage(stream, 0, loaded + page)
  {
  }

  /**
   * Load, then publish with the loaded revision: it commits exactly if nothing was appended in between and fewer than
   * ten events were loaded. From the tenth event on it never commits, but neither does it overwrite anything.
   */
  lemma LoadThenPublish(loaded: Stream, later: Stream)
    requires loaded <= later
    ensures Accepts(later, RevisionFrom(Record(loaded))) <==> later == loaded && |loaded| < 10
  {
    if loaded != [] {
      var number := |loaded| - 1;
      InitialOnlyWrapped(number);
      ExpectedNumberExactlyWhen(number);
      assert RevisionFrom(Record(loaded)) == RevisionOf(number);
      assert |RevisionOf(number)| == 26;
    }
  }

  /** The tenth event of any stream makes its loaded revision one that is refused at once. */
  lemma TenEventsLockOut(stream: Stream)
    requires |stream| == 10
    ensures RevisionFrom(Record(stream)) == "0000000000000000000000000a"
    ensures !Accepts(stream, RevisionFrom(Record(stream)))
  {
    LoadThenPublish(stream, stream);
    TenInHex();
  }

  lemma TenInHex()
    ensures Hex(10) == "0000000000000000000000000a"
  {
    Alphabets();
    assert Hex(10) == Text(0, 25, HEX) + [HEX[10]];
    ZeroDigits(25, HEX);
  }

  /** Whatever revision a publisher expects: once events were appended with it, no other publish is accepted with it. */
  lemma AtMostOneWinner(stream: Stream, later: Stream, expected: Revision)
    requires stream < later && expected != "" && Accepts(stream, expected)
    ensures !Accepts(later, expected)
  {
  }

  /**
   * How the store's check relates to the promise of the event log, for every expectation: they differ for the loaded
   * revision of ten events or more, and for any other text that parses to the number of events.
   */
  lemma AcceptsAsPromisedExactlyWhen(stream: Stream, log: Log, expected: Revision)
    requires Events(log) == Record(stream)
    ensures (Accepts(stream, expected) <==> Admits(log, expected)) <==>
      expected == "" ||
      if expected == RevisionFrom(Record(stream)) then |stream| < 10
      else stream == [] || ExpectedOf(expected) != Ok(Number(|stream| - 1))
  {
    LoadThenPublish(stream, stream);
    InitialMeansEmpty(stream);
  }
}
