/**
 * The CloudWatch Logs fetch and assembly logic: converting the service's
 * events, the two pagination loops, the display cache and the rendering of
 * the bytes a minute file shows. The remote service is a script of responses,
 * one per request in order; the clock is a `now` parameter.
 */
module CwlLib {
  import opened Wrappers
  import opened Text
  import Calendar

  // ---------------------------------------------------------------------------
  // Errors and events

  /** `CloudWatchLogsError`; the SDK errors carry nothing the model inspects. */
  datatype CwlError =
    | DescribeLogGroupsError
    | FilterLogEventsError
    | FailedToConvertCloudWatchFilteredLogEvent(reason: string)
    | InvalidGetLogsToDisplayMessage(reason: string)
    | NoCloudWatchLogGroupsMatchFilter(filter: string)
    | Unknown

  /** The service's event, every field optional; times are milliseconds since the epoch. */
  datatype SdkEvent = SdkEvent(
    eventId: Option<string>,
    ingestionTime: Option<int>,
    logStreamName: Option<string>,
    message: Option<string>,
    timestamp: Option<int>)

  /** The crate's event; times are nanoseconds since the epoch. */
  datatype LogEvent = LogEvent(
    logGroupName: string,
    eventId: string,
    ingestionTime: int,
    logStreamName: string,
    message: string,
    timestamp: int)

  const NanosPerMilli: int := 1_000_000

  /** The conversion error naming a missing field. */
  function Missing(field: string): CwlError {
    FailedToConvertCloudWatchFilteredLogEvent(field + " missing")
  }

  /** The field reported missing, checked in the order the constructor checks them. */
  function FirstMissingField(value: SdkEvent): Option<string> {
    if value.eventId.None? then Some("event_id")
    else if value.ingestionTime.None? then Some("ingestion_time")
    else if value.logStreamName.None? then Some("log_stream_name")
    else if value.message.None? then Some("message")
    else if value.timestamp.None? then Some("timestamp")
    else None
  }

  /**
   * `FilteredLogEvent::new`: fails naming the first missing field; otherwise
   * copies the fields, takes the group name from the argument and converts
   * both times from milliseconds.
   */
  function NewEvent(logGroupName: string, value: SdkEvent): (r: Result<LogEvent, CwlError>)
    ensures r.Success? <==> value.eventId.Some? && value.ingestionTime.Some? && value.logStreamName.Some?
                            && value.message.Some? && value.timestamp.Some?
    ensures r.Failure? ==> FirstMissingField(value).Some? && r.error == Missing(FirstMissingField(value).value)
    ensures r.Success? ==> r.value.logGroupName == logGroupName && r.value.eventId == value.eventId.value
                           && r.value.logStreamName == value.logStreamName.value && r.value.message == value.message.value
                           && r.value.ingestionTime == value.ingestionTime.value * NanosPerMilli
                           && r.value.timestamp == value.timestamp.value * NanosPerMilli
  {
    match value.eventId
    case None => Failure(Missing("event_id"))
    case Some(eventId) =>
      match value.ingestionTime
      case None => Failure(Missing("ingestion_time"))
      case Some(ingestionTime) =>
        match value.logStreamName
        case None => Failure(Missing("log_stream_name"))
        case Some(logStreamName) =>
          match value.message
          case None => Failure(Missing("message"))
          case Some(message) =>
            match value.timestamp
            case None => Failure(Missing("timestamp"))
            case Some(timestamp) =>
              Success(LogEvent(logGroupName, eventId, ingestionTime * NanosPerMilli, logStreamName, message,
                               timestamp * NanosPerMilli))
  }

  // ---------------------------------------------------------------------------
  // The remote service as a script of responses

  /** The answer to one request: a page, or a failed send. */
  datatype Sent<T> = Received(page: T) | SendFailed

  datatype GroupsPage = GroupsPage(logGroups: Option<seq<string>>, nextToken: Option<string>)

  datatype EventsPage = EventsPage(events: Option<seq<SdkEvent>>, nextToken: Option<string>)

  // ---------------------------------------------------------------------------
  // `get_log_group_names`

  /** A response after which the group-name loop asks for no further page. */
  predicate EndsGroups(resp: Sent<GroupsPage>) {
    resp.SendFailed? || resp.page.logGroups.None? || resp.page.logGroups.value == [] || resp.page.nextToken.None?
  }

  /** The script holds a response that ends the loop, so the loop never runs past it. */
  predicate GroupsScriptEnds(pages: seq<Sent<GroupsPage>>) {
    exists i :: 0 <= i < |pages| && EndsGroups(pages[i])
  }

  /** What the loop returns when `acc` has been collected and `pages` are still to come. */
  function GroupNames(pages: seq<Sent<GroupsPage>>, acc: seq<string>): Result<seq<string>, CwlError>
    decreases |pages|
  {
    if pages == [] then Success(acc)
    else
      match pages[0]
      case SendFailed => Failure(DescribeLogGroupsError)
      case Received(page) =>
        if page.logGroups.None? || page.logGroups.value == [] then Success(acc)
        else if page.nextToken.None? then Success(acc + page.logGroups.value)
        else GroupNames(pages[1..], acc + page.logGroups.value)
  }

  /** `get_log_group_names`: one request per loop turn until a response ends the loop. */
  method GetLogGroupNames(pages: seq<Sent<GroupsPage>>) returns (r: Result<seq<string>, CwlError>)
    requires GroupsScriptEnds(pages)
    ensures r == GroupNames(pages, [])
  {
    var result: seq<string> := [];
    var i := 0;
    while true
      invariant 0 <= i < |pages|
      invariant forall j :: 0 <= j < i ==> !EndsGroups(pages[j])
      invariant GroupNames(pages, []) == GroupNames(pages[i..], result)
      decreases |pages| - i
    {
      var resp := pages[i];
      if resp.SendFailed? {
        return Failure(DescribeLogGroupsError);
      }
      var logGroups := resp.page.logGroups;
      if logGroups.None? || logGroups.value == [] {
        return Success(result);
      }
      result := result + logGroups.value;
      if resp.page.nextToken.None? {
        return Success(result);
      }
      assert !EndsGroups(pages[i]);
      assert pages[i..][1..] == pages[i + 1..];
      var k :| 0 <= k < |pages| && EndsGroups(pages[k]);
      assert k > i;
      i := i + 1;
    }
  }

  /** The groups of the answered pages, concatenated in page order. */
  function AllGroups(pages: seq<Sent<GroupsPage>>): seq<string> {
    if pages == [] then []
    else (if pages[0].Received? then pages[0].page.logGroups.GetOr([]) else []) + AllGroups(pages[1..])
  }

  /**
   * When page `k` is the first to end the loop and it was received, the loop
   * returns the groups of pages 0..k concatenated in page order; when it failed,
   * the whole call fails.
   */
  lemma {:induction false} GroupNamesInPageOrder(pages: seq<Sent<GroupsPage>>, acc: seq<string>, k: nat)
    requires k < |pages| && EndsGroups(pages[k])
    requires forall j :: 0 <= j < k ==> !EndsGroups(pages[j])
    ensures pages[k].Received? ==> GroupNames(pages, acc) == Success(acc + AllGroups(pages[..k + 1]))
    ensures pages[k].SendFailed? ==> GroupNames(pages, acc) == Failure(DescribeLogGroupsError)
    decreases k
  {
    if k == 0 {
      assert pages[..1] == [pages[0]] && pages[..1][1..] == [];
      if pages[0].Received? {
        var groups := pages[0].page.logGroups.GetOr([]);
        assert AllGroups(pages[..1]) == groups + [] == groups;
        assert acc + [] == acc;
      }
    } else {
      assert !EndsGroups(pages[0]);
      var groups := pages[0].page.logGroups.value;
      GroupNamesInPageOrder(pages[1..], acc + groups, k - 1);
      assert pages[..k + 1][1..] == pages[1..][..k];
      assert AllGroups(pages[..k + 1]) == groups + AllGroups(pages[1..][..k]);
      assert acc + groups + AllGroups(pages[1..][..k]) == acc + (groups + AllGroups(pages[1..][..k]));
    }
  }

  // ---------------------------------------------------------------------------
  // `get_log_events`

  const UsizeMax: nat := 0xFFFF_FFFF_FFFF_FFFF

  function Min(a: nat, b: nat): nat {
    if a <= b then a else b
  }

  /**
   * The limit the loop compares against: `limit.unwrap_or(usize::MAX as i32) as usize`.
   * `usize::MAX as i32` is -1, and an `i32` below zero widens to `2^64` plus itself.
   */
  function LimitOf(limit: Option<int>): (n: nat)
    requires limit.Some? ==> -0x8000_0000 <= limit.value < 0x8000_0000
    ensures limit.None? ==> n == UsizeMax
    ensures limit.Some? && limit.value >= 0 ==> n == limit.value
    ensures limit.Some? ==> n <= UsizeMax && n % 0x1_0000_0000_0000_0000 == limit.value % 0x1_0000_0000_0000_0000
    ensures limit.Some? && limit.value < 0 ==> n == 0x1_0000_0000_0000_0000 + limit.value
  {
    var l := limit.GetOr(-1);
    if l < 0 then 0x1_0000_0000_0000_0000 + l else l
  }

  /** A response after which the event loop asks for no further page. */
  predicate EndsEvents(resp: Sent<EventsPage>) {
    resp.SendFailed? || resp.page.nextToken.None?
  }

  predicate EventsScriptEnds(pages: seq<Sent<EventsPage>>) {
    exists i :: 0 <= i < |pages| && EndsEvents(pages[i])
  }

  /** How the loop over one page's events leaves off: on to the next page, or returning. */
  datatype Turn = Continue(events: seq<LogEvent>) | Return(result: Result<seq<LogEvent>, CwlError>)

  /** The inner loop over one page: each event is converted before the limit is checked. */
  function PageEvents(logGroupName: string, batch: seq<SdkEvent>, acc: seq<LogEvent>, limit: nat): Turn
    decreases |batch|
  {
    if batch == [] then Continue(acc)
    else
      match NewEvent(logGroupName, batch[0])
      case Failure(e) => Return(Failure(e))
      case Success(event) =>
        if |acc| >= limit then Return(Success(acc))
        else PageEvents(logGroupName, batch[1..], acc + [event], limit)
  }

  /** What the loop returns when `acc` has been collected and `pages` are still to come. */
  function LogEvents(logGroupName: string, pages: seq<Sent<EventsPage>>, acc: seq<LogEvent>, limit: nat)
    : Result<seq<LogEvent>, CwlError>
    decreases |pages|
  {
    if pages == [] then Success(acc)
    else
      match pages[0]
      case SendFailed => Failure(FilterLogEventsError)
      case Received(page) =>
        match PageEvents(logGroupName, page.events.GetOr([]), acc, limit)
        case Return(result) => result
        case Continue(events) =>
          if page.nextToken.None? then Success(events)
          else LogEvents(logGroupName, pages[1..], events, limit)
  }

  /** `get_log_events`: pages in order, events in page order, stopping at the limit or the last page. */
  method GetLogEvents(logGroupName: string, pages: seq<Sent<EventsPage>>, limit: Option<int>)
    returns (r: Result<seq<LogEvent>, CwlError>)
    requires limit.Some? ==> -0x8000_0000 <= limit.value < 0x8000_0000
    requires EventsScriptEnds(pages)
    ensures r == LogEvents(logGroupName, pages, [], LimitOf(limit))
  {
    var events: seq<LogEvent> := [];
    var max := LimitOf(limit);
    var i := 0;
    while true
      invariant 0 <= i < |pages|
      invariant forall j :: 0 <= j < i ==> !EndsEvents(pages[j])
      invariant LogEvents(logGroupName, pages, [], max) == LogEvents(logGroupName, pages[i..], events, max)
      decreases |pages| - i
    {
      var resp := pages[i];
      if resp.SendFailed? {
        return Failure(FilterLogEventsError);
      }
      var batch := resp.page.events.GetOr([]);
      ghost var before := events;
      var n := 0;
      while n < |batch|
        invariant 0 <= n <= |batch|
        invariant PageEvents(logGroupName, batch, before, max) == PageEvents(logGroupName, batch[n..], events, max)
      {
        assert batch[n..][1..] == batch[n + 1..];
        var event := NewEvent(logGroupName, batch[n]);
        if event.Failure? {
          return Failure(event.error);
        }
        if |events| >= max {
          return Success(events);
        }
        events := events + [event.value];
        n := n + 1;
      }
      assert PageEvents(logGroupName, batch, before, max) == Continue(events);
      if resp.page.nextToken.None? {
        return Success(events);
      }
      assert !EndsEvents(pages[i]);
      assert pages[i..][1..] == pages[i + 1..];
      var k :| 0 <= k < |pages| && EndsEvents(pages[k]);
      assert k > i;
      i := i + 1;
    }
  }

  /** The service's events of the pages the loop reads, in page order. */
  function RawEvents(pages: seq<Sent<EventsPage>>): seq<SdkEvent>
    decreases |pages|
  {
    if pages == [] || pages[0].SendFailed? then []
    else pages[0].page.events.GetOr([]) + (if pages[0].page.nextToken.None? then [] else RawEvents(pages[1..]))
  }

  /** `out` is the conversion of the first `|out|` raw events, one for one and in order. */
  ghost predicate ConvertsTo(logGroupName: string, raw: seq<SdkEvent>, out: seq<LogEvent>) {
    |out| <= |raw| && forall j :: 0 <= j < |out| ==> NewEvent(logGroupName, raw[j]) == Success(out[j])
  }

  /** `out` is `acc` followed by the conversions of the first raw events, within the limit if `acc` was. */
  ghost predicate Extends(logGroupName: string, raw: seq<SdkEvent>, acc: seq<LogEvent>, out: seq<LogEvent>, limit: nat) {
    |out| >= |acc| && out[..|acc|] == acc && ConvertsTo(logGroupName, raw, out[|acc|..])
    && (|acc| <= limit ==> |out| <= limit)
  }

  lemma {:induction false} PageEventsConverts(logGroupName: string, batch: seq<SdkEvent>, acc: seq<LogEvent>, limit: nat)
    ensures match PageEvents(logGroupName, batch, acc, limit)
            case Continue(events) => |events| == |acc| + |batch| && Extends(logGroupName, batch, acc, events, limit)
            case Return(result) =>
              result.Success? ==>
                Extends(logGroupName, batch, acc, result.value, limit)
                && (|acc| <= limit ==> |result.value| == limit < |acc| + |batch|)
    decreases |batch|
  {
    if batch != [] {
      var e := NewEvent(logGroupName, batch[0]);
      if e.Success? && |acc| < limit {
        var acc' := acc + [e.value];
        PageEventsConverts(logGroupName, batch[1..], acc', limit);
        assert acc'[..|acc|] == acc && acc'[|acc|..] == [e.value];
        assert Extends(logGroupName, [batch[0]], acc, acc', limit);
        assert [batch[0]] + batch[1..] == batch;
        match PageEvents(logGroupName, batch[1..], acc', limit)
        case Continue(events) =>
          ExtendsTrans(logGroupName, [batch[0]], batch[1..], acc, acc', events, limit);
        case Return(result) =>
          if result.Success? {
            ExtendsTrans(logGroupName, [batch[0]], batch[1..], acc, acc', result.value, limit);
          }
      } else if e.Success? {
        assert acc[|acc|..] == [];
      }
    } else {
      assert acc[|acc|..] == [];
    }
  }

  lemma ConvertsToExtend(logGroupName: string, raw: seq<SdkEvent>, more: seq<SdkEvent>, out: seq<LogEvent>)
    requires ConvertsTo(logGroupName, raw, out)
    ensures ConvertsTo(logGroupName, raw + more, out)
  {
    assert forall j :: 0 <= j < |out| ==> (raw + more)[j] == raw[j];
  }

  lemma ConvertsToAppend(logGroupName: string, raw1: seq<SdkEvent>, out1: seq<LogEvent>,
                         raw2: seq<SdkEvent>, out2: seq<LogEvent>)
    requires |out1| == |raw1| && ConvertsTo(logGroupName, raw1, out1) && ConvertsTo(logGroupName, raw2, out2)
    ensures ConvertsTo(logGroupName, raw1 + raw2, out1 + out2)
  {
    forall j | 0 <= j < |out1 + out2|
      ensures NewEvent(logGroupName, (raw1 + raw2)[j]) == Success((out1 + out2)[j])
    {
      if j >= |out1| {
        assert (raw1 + raw2)[j] == raw2[j - |raw1|] && (out1 + out2)[j] == out2[j - |out1|];
      }
    }
  }

  lemma ExtendsTrans(logGroupName: string, raw1: seq<SdkEvent>, raw2: seq<SdkEvent>,
                     acc: seq<LogEvent>, mid: seq<LogEvent>, out: seq<LogEvent>, limit: nat)
    requires |mid| == |acc| + |raw1| && Extends(logGroupName, raw1, acc, mid, limit)
    requires Extends(logGroupName, raw2, mid, out, limit)
    ensures Extends(logGroupName, raw1 + raw2, acc, out, limit)
  {
    assert out[..|acc|] == out[..|mid|][..|acc|];
    assert out[|acc|..] == mid[|acc|..] + out[|mid|..];
    ConvertsToAppend(logGroupName, raw1, mid[|acc|..], raw2, out[|mid|..]);
  }

  /**
   * What the event loop returns extends what it had collected with the
   * conversions of the raw events in page order, one for one, and stays within
   * the limit: `get_log_events` never returns more than `limit` events, and
   * returns them in the order the pages hold them.
   */
  lemma {:induction false} LogEventsInPageOrder(logGroupName: string, pages: seq<Sent<EventsPage>>,
                                                acc: seq<LogEvent>, limit: nat)
    ensures var r := LogEvents(logGroupName, pages, acc, limit);
            r.Success? ==> Extends(logGroupName, RawEvents(pages), acc, r.value, limit)
    ensures var r := LogEvents(logGroupName, pages, acc, limit);
            r.Success? && |acc| <= limit ==> |r.value| == Min(|acc| + |RawEvents(pages)|, limit)
    decreases |pages|
  {
    if pages == [] || pages[0].SendFailed? {
      assert acc[..|acc|] == acc && acc[|acc|..] == [];
    } else {
      var page := pages[0].page;
      var batch := page.events.GetOr([]);
      var rest := if page.nextToken.None? then [] else RawEvents(pages[1..]);
      assert RawEvents(pages) == batch + rest;
      PageEventsConverts(logGroupName, batch, acc, limit);
      match PageEvents(logGroupName, batch, acc, limit)
      case Return(result) =>
        if result.Success? {
          ConvertsToExtend(logGroupName, batch, rest, result.value[|acc|..]);
        }
      case Continue(events) =>
        if page.nextToken.None? {
          assert batch + [] == batch;
        } else {
          LogEventsInPageOrder(logGroupName, pages[1..], events, limit);
          var r := LogEvents(logGroupName, pages[1..], events, limit);
          if r.Success? {
            ExtendsTrans(logGroupName, batch, rest, acc, events, r.value, limit);
          }
        }
    }
  }

  /**
   * `get_log_events` returns the conversions of the pages' events in page order,
   * as many as there are up to the limit and no fewer: with no limit, every event.
   */
  lemma GetLogEventsOrderAndLimit(logGroupName: string, pages: seq<Sent<EventsPage>>, limit: Option<int>)
    requires limit.Some? ==> -0x8000_0000 <= limit.value < 0x8000_0000
    ensures var r := LogEvents(logGroupName, pages, [], LimitOf(limit));
            r.Success? ==> |r.value| == Min(|RawEvents(pages)|, LimitOf(limit))
                           && ConvertsTo(logGroupName, RawEvents(pages), r.value)
    ensures var r := LogEvents(logGroupName, pages, [], LimitOf(limit));
            r.Success? && limit.None? && |RawEvents(pages)| <= UsizeMax ==>
              |r.value| == |RawEvents(pages)| && ConvertsTo(logGroupName, RawEvents(pages), r.value)
  {
    LogEventsInPageOrder(logGroupName, pages, [], LimitOf(limit));
    var r := LogEvents(logGroupName, pages, [], LimitOf(limit));
    if r.Success? {
      assert r.value[0..] == r.value;
    }
  }

  /**
   * The event is converted before the limit is checked: with the limit
   * already reached, an event missing a field still fails the whole call.
   */
  lemma ConversionBeforeLimit(logGroupName: string, batch: seq<SdkEvent>, acc: seq<LogEvent>, limit: nat)
    requires batch != [] && NewEvent(logGroupName, batch[0]).Failure? && |acc| >= limit
    ensures PageEvents(logGroupName, batch, acc, limit) == Return(Failure(NewEvent(logGroupName, batch[0]).error))
  {
  }

  /** With the limit reached, the next convertible event ends the call with what was collected. */
  lemma LimitReached(logGroupName: string, batch: seq<SdkEvent>, acc: seq<LogEvent>, limit: nat)
    requires batch != [] && NewEvent(logGroupName, batch[0]).Success? && |acc| >= limit
    ensures PageEvents(logGroupName, batch, acc, limit) == Return(Success(acc))
  {
  }

  // ---------------------------------------------------------------------------
  // `is_cacheable`

  /** How far behind the clock a range must end before its display bytes may be cached. */
  const CacheDelay: int := 5 * Calendar.NanosPerMinute

  /** `is_cacheable`: the range ended more than five minutes before `now`. */
  predicate IsCacheable(lastEventTime: int, now: int) {
    now - lastEventTime > CacheDelay
  }

  /** A range that may be cached stays cacheable as the clock moves on, and an earlier end does too. */
  lemma CacheableStaysCacheable(lastEventTime: int, now: int, later: int, earlier: int)
    requires IsCacheable(lastEventTime, now) && now <= later && earlier <= lastEventTime
    ensures IsCacheable(lastEventTime, later) && IsCacheable(earlier, now)
  {
  }

  /** Exactly five minutes is not enough; one nanosecond more is. */
  lemma CacheBoundary(lastEventTime: int)
    ensures !IsCacheable(lastEventTime, lastEventTime + 300_000_000_000)
    ensures IsCacheable(lastEventTime, lastEventTime + 300_000_000_001)
  {
  }

  // ---------------------------------------------------------------------------
  // The stable sort by timestamp (`sort_by_key`)

  ghost predicate SortedByTimestamp(s: seq<LogEvent>) {
    forall i, j :: 0 <= i < j < |s| ==> s[i].timestamp <= s[j].timestamp
  }

  /** The events of `s` stamped `t`, in their order in `s`. */
  function WithTimestamp(s: seq<LogEvent>, t: int): seq<LogEvent>
    decreases |s|
  {
    if s == [] then []
    else (if s[0].timestamp == t then [s[0]] else []) + WithTimestamp(s[1..], t)
  }

  /** Inserts `e` after every event stamped no later than it. */
  function InsertByTimestamp(e: LogEvent, s: seq<LogEvent>): (r: seq<LogEvent>)
    ensures |r| == |s| + 1
    decreases |s|
  {
    if s == [] then [e]
    else if e.timestamp < s[0].timestamp then [e] + s
    else [s[0]] + InsertByTimestamp(e, s[1..])
  }

  /** A stable sort by timestamp: insertion of each event, in input order, after its equals. */
  function SortByTimestamp(s: seq<LogEvent>): (r: seq<LogEvent>)
    ensures |r| == |s|
    decreases |s|
  {
    if s == [] then [] else InsertByTimestamp(s[|s| - 1], SortByTimestamp(s[..|s| - 1]))
  }

  lemma {:induction false} WithTimestampAppend(a: seq<LogEvent>, b: seq<LogEvent>, t: int)
    ensures WithTimestamp(a + b, t) == WithTimestamp(a, t) + WithTimestamp(b, t)
    decreases |a|
  {
    if a == [] {
      assert a + b == b;
    } else {
      var head := if a[0].timestamp == t then [a[0]] else [];
      assert (a + b)[0] == a[0] && (a + b)[1..] == a[1..] + b;
      assert WithTimestamp(a + b, t) == head + WithTimestamp(a[1..] + b, t);
      WithTimestampAppend(a[1..], b, t);
      assert WithTimestamp(a, t) == head + WithTimestamp(a[1..], t);
    }
  }

  lemma {:induction false} WithTimestampNone(s: seq<LogEvent>, t: int)
    requires forall i :: 0 <= i < |s| ==> s[i].timestamp > t
    ensures WithTimestamp(s, t) == []
    decreases |s|
  {
    if s != [] {
      WithTimestampNone(s[1..], t);
    }
  }

  lemma {:induction false} InsertMultiset(e: LogEvent, s: seq<LogEvent>)
    ensures multiset(InsertByTimestamp(e, s)) == multiset(s) + multiset{e}
    decreases |s|
  {
    if s != [] && e.timestamp >= s[0].timestamp {
      InsertMultiset(e, s[1..]);
      assert s == [s[0]] + s[1..];
    }
  }

  lemma {:induction false} InsertSorted(e: LogEvent, s: seq<LogEvent>)
    requires SortedByTimestamp(s)
    ensures SortedByTimestamp(InsertByTimestamp(e, s))
    decreases |s|
  {
    if s != [] && e.timestamp >= s[0].timestamp {
      var r := InsertByTimestamp(e, s);
      var tail := InsertByTimestamp(e, s[1..]);
      InsertSorted(e, s[1..]);
      InsertMultiset(e, s[1..]);
      assert r == [s[0]] + tail;
      forall j | 0 < j < |r| ensures r[0].timestamp <= r[j].timestamp {
        assert r[j] == tail[j - 1];
        assert r[j] in multiset(tail);
        if r[j] != e {
          assert r[j] in multiset(s[1..]);
          var k :| 0 <= k < |s[1..]| && s[1..][k] == r[j];
          assert s[k + 1] == r[j];
        }
      }
    }
  }

  lemma {:induction false} InsertWithTimestamp(e: LogEvent, s: seq<LogEvent>, t: int)
    requires SortedByTimestamp(s)
    ensures WithTimestamp(InsertByTimestamp(e, s), t) == WithTimestamp(s, t) + (if e.timestamp == t then [e] else [])
    decreases |s|
  {
    var r := InsertByTimestamp(e, s);
    var mine := if e.timestamp == t then [e] else [];
    if s == [] {
      assert r[1..] == [];
      assert WithTimestamp(r, t) == mine + [];
    } else if e.timestamp < s[0].timestamp {
      assert r[1..] == s;
      if e.timestamp == t {
        WithTimestampNone(s, t);
      }
    } else {
      var tail := InsertByTimestamp(e, s[1..]);
      InsertWithTimestamp(e, s[1..], t);
      assert r[0] == s[0] && r[1..] == tail;
      var head := if s[0].timestamp == t then [s[0]] else [];
      assert WithTimestamp(r, t) == head + (WithTimestamp(s[1..], t) + mine);
      assert WithTimestamp(s, t) == head + WithTimestamp(s[1..], t);
    }
  }

  lemma {:induction false} SortedByTimestampSorted(s: seq<LogEvent>)
    ensures SortedByTimestamp(SortByTimestamp(s))
    decreases |s|
  {
    if s != [] {
      SortedByTimestampSorted(s[..|s| - 1]);
      InsertSorted(s[|s| - 1], SortByTimestamp(s[..|s| - 1]));
    }
  }

  lemma {:induction false} SortByTimestampPermutes(s: seq<LogEvent>)
    ensures multiset(SortByTimestamp(s)) == multiset(s)
    decreases |s|
  {
    if s != [] {
      var init, last := s[..|s| - 1], s[|s| - 1];
      assert s == init + [last];
      assert multiset(s) == multiset(init) + multiset{last};
      SortByTimestampPermutes(init);
      InsertMultiset(last, SortByTimestamp(init));
    }
  }

  lemma {:induction false} SortByTimestampStable(s: seq<LogEvent>, t: int)
    ensures WithTimestamp(SortByTimestamp(s), t) == WithTimestamp(s, t)
    decreases |s|
  {
    if s != [] {
      var init, last := s[..|s| - 1], s[|s| - 1];
      SortByTimestampStable(init, t);
      SortedByTimestampSorted(init);
      InsertWithTimestamp(last, SortByTimestamp(init), t);
      assert s == init + [last];
      WithTimestampAppend(init, [last], t);
      assert [last][1..] == [];
      assert WithTimestamp([last], t) == (if last.timestamp == t then [last] else []) + [];
    }
  }

  /**
   * `sort_by_key` on the timestamp: the result is ordered by timestamp, holds
   * the same events, and keeps events with equal timestamps in their input
   * order (it is stable).
   */
  lemma SortByTimestampSpec(s: seq<LogEvent>)
    ensures SortedByTimestamp(SortByTimestamp(s))
    ensures multiset(SortByTimestamp(s)) == multiset(s)
    ensures forall t :: WithTimestamp(SortByTimestamp(s), t) == WithTimestamp(s, t)
  {
    SortedByTimestampSorted(s);
    SortByTimestampPermutes(s);
    forall t ensures WithTimestamp(SortByTimestamp(s), t) == WithTimestamp(s, t) {
      SortByTimestampStable(s, t);
    }
  }

  // ---------------------------------------------------------------------------
  // The display bytes

  /** One line of the display, `[stream] message`. */
  function Line(e: LogEvent): string {
    "[" + e.logStreamName + "] " + e.message
  }

  function Lines(events: seq<LogEvent>): (r: seq<string>)
    ensures |r| == |events| && forall i :: 0 <= i < |events| ==> r[i] == Line(events[i])
    decreases |events|
  {
    if events == [] then [] else [Line(events[0])] + Lines(events[1..])
  }

  /** `join("\n")`: the lines separated by newlines, with none after the last. */
  function Join(lines: seq<string>): string
    decreases |lines|
  {
    if lines == [] then ""
    else if |lines| == 1 then lines[0]
    else lines[0] + "\n" + Join(lines[1..])
  }

  /** Appending a line to a nonempty join adds one newline and the line. */
  lemma {:induction false} JoinSnoc(lines: seq<string>, line: string)
    ensures Join(lines + [line]) == if lines == [] then line else Join(lines) + "\n" + line
    decreases |lines|
  {
    if lines != [] {
      assert (lines + [line])[0] == lines[0] && (lines + [line])[1..] == lines[1..] + [line];
      if |lines| > 1 {
        JoinSnoc(lines[1..], line);
      } else {
        assert lines[1..] + [line] == [line];
      }
    } else {
      assert lines + [line] == [line];
    }
  }

  /** The bytes a minute file shows for these events: sorted, one line each, UTF-8 encoded. */
  function DisplayBytes(events: seq<LogEvent>): seq<byte> {
    Encode(Join(Lines(SortByTimestamp(events))))
  }

  // ---------------------------------------------------------------------------
  // The display cache (`LruCache<CacheKey, CacheValue>`)

  /** The cache's capacity: one hour counted in minutes. */
  const CacheCapacity: nat := 60

  /** `LogGroupNameMatcher`, identified by its pattern; whether it matches a name is a parameter. */
  datatype Matcher = Matcher(pattern: string)

  datatype CacheKey = CacheKey(matcher: Matcher, firstEventTime: int, lastEventTime: int)

  /**
   * What a store of `value` under `key` leaves behind: the key maps to the value;
   * every other entry was there before with the same bytes; an existing key, or
   * a cache below capacity, loses nothing; and a new key in a full cache displaces
   * exactly one entry.
   */
  ghost predicate Stored(before: map<CacheKey, seq<byte>>, key: CacheKey, value: seq<byte>,
                         after: map<CacheKey, seq<byte>>) {
    && key in after && after[key] == value
    && (forall k :: k in after && k != key ==> k in before && after[k] == before[k])
    && (key in before || |before| < CacheCapacity ==> after == before[key := value])
    && (key !in before && |before| >= CacheCapacity ==> |after| == |before|)
  }

  /**
   * The bounded cache from a matcher and time range to display bytes. Which
   * entry makes room when a new key arrives at capacity is left open: any
   * entry may go.
   */
  class DisplayCache {
    var entries: map<CacheKey, seq<byte>>

    ghost predicate Valid()
      reads this
    {
      |entries| <= CacheCapacity
    }

    constructor ()
      ensures Valid() && entries == map[]
    {
      entries := map[];
    }

    /** The stored bytes for `key`, if any. */
    function Get(key: CacheKey): (r: Option<seq<byte>>)
      reads this
      ensures r.Some? <==> key in entries
      ensures r.Some? ==> r.value == entries[key]
    {
      if key in entries then Some(entries[key]) else None
    }

    /** Stores `value` under `key`, first dropping one entry when a new key finds the cache full. */
    method Put(key: CacheKey, value: seq<byte>)
      requires Valid()
      modifies this
      ensures Valid() && Stored(old(entries), key, value, entries)
    {
      if key !in entries && |entries| >= CacheCapacity {
        var victim :| victim in entries;
        ghost var before := entries;
        entries := entries - {victim};
        assert entries.Keys == before.Keys - {victim};
        assert |entries| == |before| - 1;
      }
      entries := entries[key := value];
    }
  }

  // ---------------------------------------------------------------------------
  // `get_logs_to_display`

  /** The group names the matcher accepts, in their order. */
  function MatchingNames(names: seq<string>, matcher: Matcher, isMatch: (Matcher, string) -> bool): (r: seq<string>)
    ensures forall i :: 0 <= i < |r| ==> r[i] in names && isMatch(matcher, r[i])
    ensures forall i :: 0 <= i < |names| && isMatch(matcher, names[i]) ==> names[i] in r
    decreases |names|
  {
    if names == [] then []
    else (if isMatch(matcher, names[0]) then [names[0]] else []) + MatchingNames(names[1..], matcher, isMatch)
  }

  /** Filtering distributes over concatenation, so it keeps the names' order and repetitions. */
  lemma {:induction false} MatchingNamesAppend(a: seq<string>, b: seq<string>, matcher: Matcher,
                                               isMatch: (Matcher, string) -> bool)
    ensures MatchingNames(a + b, matcher, isMatch) == MatchingNames(a, matcher, isMatch) + MatchingNames(b, matcher, isMatch)
    decreases |a|
  {
    if a == [] {
      assert a + b == b;
    } else {
      assert (a + b)[0] == a[0] && (a + b)[1..] == a[1..] + b;
      MatchingNamesAppend(a[1..], b, matcher, isMatch);
    }
  }

  /** One name is kept exactly when the matcher accepts it. */
  lemma MatchingNamesOne(name: string, matcher: Matcher, isMatch: (Matcher, string) -> bool)
    ensures MatchingNames([name], matcher, isMatch) == if isMatch(matcher, name) then [name] else []
  {
    assert [name][1..] == [];
  }

  /** Fetching a group's events (with no limit) ends and succeeds; the source panics otherwise. */
  predicate Fetchable(name: string, eventPages: string -> seq<Sent<EventsPage>>) {
    EventsScriptEnds(eventPages(name)) && LogEvents(name, eventPages(name), [], UsizeMax).Success?
  }

  /** The events of every group, group after group. */
  function FetchAll(names: seq<string>, eventPages: string -> seq<Sent<EventsPage>>): seq<LogEvent>
    requires forall i :: 0 <= i < |names| ==> Fetchable(names[i], eventPages)
    decreases |names|
  {
    if names == [] then []
    else
      var last := names[|names| - 1];
      assert Fetchable(last, eventPages);
      FetchAll(names[..|names| - 1], eventPages) + LogEvents(last, eventPages(last), [], UsizeMax).value
  }

  /** Every group the matcher accepts can be fetched. */
  predicate DisplayFetchable(matcher: Matcher, isMatch: (Matcher, string) -> bool,
                             groupPages: seq<Sent<GroupsPage>>, eventPages: string -> seq<Sent<EventsPage>>) {
    GroupNames(groupPages, []).Success? ==>
      var matching := MatchingNames(GroupNames(groupPages, []).value, matcher, isMatch);
      forall i :: 0 <= i < |matching| ==> Fetchable(matching[i], eventPages)
  }

  /** What a cache miss returns: the matching groups' events, sorted, one line each, as bytes. */
  function Display(matcher: Matcher, isMatch: (Matcher, string) -> bool,
                   groupPages: seq<Sent<GroupsPage>>, eventPages: string -> seq<Sent<EventsPage>>)
    : Result<seq<byte>, CwlError>
    requires DisplayFetchable(matcher, isMatch, groupPages, eventPages)
  {
    match GroupNames(groupPages, [])
    case Failure(e) => Failure(e)
    case Success(names) => Success(DisplayBytes(FetchAll(MatchingNames(names, matcher, isMatch), eventPages)))
  }

  /** The fetch loop of `get_logs_to_display`: each group's events, appended group after group. */
  method FetchMatching(matching: seq<string>, eventPages: string -> seq<Sent<EventsPage>>) returns (logs: seq<LogEvent>)
    requires forall i :: 0 <= i < |matching| ==> Fetchable(matching[i], eventPages)
    ensures logs == FetchAll(matching, eventPages)
  {
    logs := [];
    var i := 0;
    while i < |matching|
      invariant 0 <= i <= |matching|
      invariant logs == FetchAll(matching[..i], eventPages)
    {
      var events := GetLogEvents(matching[i], eventPages(matching[i]), None);
      assert matching[..i + 1][..i] == matching[..i];
      logs := logs + events.value;
      i := i + 1;
    }
    assert matching[..i] == matching;
  }

  /**
   * `get_logs_to_display`. A hit returns the stored bytes and changes nothing.
   * A miss lists the groups, fetches the ones the matcher accepts, and returns
   * their events as display bytes, storing them only when the range is
   * cacheable at `now`.
   */
  method GetLogsToDisplay(cache: DisplayCache, matcher: Matcher, startTime: int, endTime: int,
                          isMatch: (Matcher, string) -> bool, groupPages: seq<Sent<GroupsPage>>,
                          eventPages: string -> seq<Sent<EventsPage>>, now: int)
    returns (r: Result<seq<byte>, CwlError>)
    requires cache.Valid() && GroupsScriptEnds(groupPages)
    requires DisplayFetchable(matcher, isMatch, groupPages, eventPages)
    modifies cache
    ensures cache.Valid()
    ensures var key := CacheKey(matcher, startTime, endTime);
            key in old(cache.entries) ==> r == Success(old(cache.entries)[key]) && cache.entries == old(cache.entries)
    ensures var key := CacheKey(matcher, startTime, endTime);
            key !in old(cache.entries) ==> r == Display(matcher, isMatch, groupPages, eventPages)
    ensures var key := CacheKey(matcher, startTime, endTime);
            key !in old(cache.entries) && (r.Failure? || !IsCacheable(endTime, now))
            ==> cache.entries == old(cache.entries)
    ensures var key := CacheKey(matcher, startTime, endTime);
            key !in old(cache.entries) && r.Success? && IsCacheable(endTime, now)
            ==> Stored(old(cache.entries), key, r.value, cache.entries)
  {
    var key := CacheKey(matcher, startTime, endTime);
    var hit := cache.Get(key);
    if hit.Some? {
      return Success(hit.value);
    }
    var names := GetLogGroupNames(groupPages);
    if names.Failure? {
      return Failure(names.error);
    }
    var logs := FetchMatching(MatchingNames(names.value, matcher, isMatch), eventPages);
    var data := DisplayBytes(logs);
    if IsCacheable(endTime, now) {
      cache.Put(key, data);
    }
    return Success(data);
  }

  // ---------------------------------------------------------------------------
  // The `GetLogsToDisplay` arm of the actor

  /**
   * The pattern the arm matches groups with: the exact name anchored with `^`
   * and `$` and not escaped, else the filter as given, else an invalid message.
   */
  function LogsToDisplayPattern(logGroupName: Option<string>, logGroupFilter: Option<string>)
    : (r: Result<string, CwlError>)
    ensures r.Success? <==> logGroupName.Some? || logGroupFilter.Some?
    ensures logGroupName.Some? ==> |r.value| >= 2 && r.value[0] == '^' && r.value[|r.value| - 1] == '$'
                                   && r.value[1..|r.value| - 1] == logGroupName.value
    ensures logGroupName.None? && logGroupFilter.Some? ==> r.value == logGroupFilter.value
    ensures r.Failure? ==> r.error == InvalidGetLogsToDisplayMessage("Must specify either log_group_name or log_group_filter")
  {
    if logGroupName.Some? then
      var p := "^" + logGroupName.value + "$";
      assert p[1..|p| - 1] == logGroupName.value;
      Success(p)
    else if logGroupFilter.Some? then Success(logGroupFilter.value)
    else Failure(InvalidGetLogsToDisplayMessage("Must specify either log_group_name or log_group_filter"))
  }

  /** The arm: choose the pattern, then answer from the cache or the service. */
  method HandleGetLogsToDisplay(cache: DisplayCache, logGroupName: Option<string>, logGroupFilter: Option<string>,
                                startTime: int, endTime: int, isMatch: (Matcher, string) -> bool,
                                groupPages: seq<Sent<GroupsPage>>, eventPages: string -> seq<Sent<EventsPage>>, now: int)
    returns (r: Result<seq<byte>, CwlError>)
    requires cache.Valid() && GroupsScriptEnds(groupPages)
    requires LogsToDisplayPattern(logGroupName, logGroupFilter).Success? ==>
               DisplayFetchable(Matcher(LogsToDisplayPattern(logGroupName, logGroupFilter).value), isMatch, groupPages, eventPages)
    modifies cache
    ensures cache.Valid()
    ensures LogsToDisplayPattern(logGroupName, logGroupFilter).Failure? ==>
              r == Failure(LogsToDisplayPattern(logGroupName, logGroupFilter).error) && cache.entries == old(cache.entries)
    ensures LogsToDisplayPattern(logGroupName, logGroupFilter).Success? ==>
              var matcher := Matcher(LogsToDisplayPattern(logGroupName, logGroupFilter).value);
              var key := CacheKey(matcher, startTime, endTime);
              (key in old(cache.entries) ==> r == Success(old(cache.entries)[key]) && cache.entries == old(cache.entries))
              && (key !in old(cache.entries) ==> r == Display(matcher, isMatch, groupPages, eventPages))
              && (key !in old(cache.entries) && (r.Failure? || !IsCacheable(endTime, now))
                  ==> cache.entries == old(cache.entries))
              && (key !in old(cache.entries) && r.Success? && IsCacheable(endTime, now)
                  ==> Stored(old(cache.entries), key, r.value, cache.entries))
  {
    var pattern := LogsToDisplayPattern(logGroupName, logGroupFilter);
    if pattern.Failure? {
      return Failure(pattern.error);
    }
    r := GetLogsToDisplay(cache, Matcher(pattern.value), startTime, endTime, isMatch, groupPages, eventPages, now);
  }
}
