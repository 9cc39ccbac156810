/**
 * Per-day link analytics: for each dynamic link and each `YYYY-MM-DD` day a
 * record of four counters, updated in a transaction. A counter missing
 * from a stored record reads as 0.
 */
module TrackAnalytics {
  import opened Wrappers
  import opened Urls
  import Logging
  import opened LinkLookup

  datatype EventType = Click | Open | Install | Reopen

  /** The counter field each event type updates. */
  function FieldName(e: EventType): string {
    match e
    case Click => "clicks"
    case Open => "opens"
    case Install => "installs"
    case Reopen => "reopens"
  }

  /** A day record: the counter fields it holds. */
  type DayRecord = map<EventType, int>

  /** `data[eventType] || 0`. */
  function Count(d: DayRecord, e: EventType): int {
    if e in d then d[e] else 0
  }

  /** The `update`: only the event's counter, now one more than it read. */
  function Bump(d: DayRecord, e: EventType): (r: DayRecord)
    ensures Count(r, e) == Count(d, e) + 1
    ensures forall f :: f != e ==> Count(r, f) == Count(d, f) && (f in r <==> f in d)
    ensures e in r
  {
    d[e := Count(d, e) + 1]
  }

  /** The `set` of a new day: all four counters present, 0 except the event's, which is 1. */
  function Fresh(e: EventType): (r: DayRecord)
    ensures Click in r && Open in r && Install in r && Reopen in r
    ensures forall f :: Count(r, f) == if f == e then 1 else 0
  {
    match e
    case Click => map[Click := 1, Open := 0, Install := 0, Reopen := 0]
    case Open => map[Click := 0, Open := 1, Install := 0, Reopen := 0]
    case Install => map[Click := 0, Open := 0, Install := 1, Reopen := 0]
    case Reopen => map[Click := 0, Open := 0, Install := 0, Reopen := 1]
  }

  /** The sum of the four counters. */
  function Total(d: DayRecord): int {
    Count(d, Click) + Count(d, Open) + Count(d, Install) + Count(d, Reopen)
  }

  /** Each tracked event adds exactly one to the day's total, and counting is independent of the order of events. */
  lemma BumpTotal(d: DayRecord, e: EventType, f: EventType)
    ensures Total(Bump(d, e)) == Total(d) + 1
    ensures Total(Fresh(e)) == 1
    ensures Bump(Bump(d, e), f) == Bump(Bump(d, f), e)
  {
    if e == f {
    } else {
      var l, r := Bump(Bump(d, e), f), Bump(Bump(d, f), e);
      assert forall g :: g in l <==> g in r;
      forall g | g in l
        ensures l[g] == r[g]
      {
        assert Count(l, g) == Count(r, g);
      }
    }
  }

  /** `_traceback_/dynamiclinks/records/{linkId}/analytics/{day}`, keyed by link id and day. */
  class AnalyticsStore {
    var days: map<(string, string), DayRecord>

    constructor (initial: map<(string, string), DayRecord>)
      ensures days == initial
    {
      days := initial;
    }

    /** The counters of a link on a day as the update leaves them. */
    function Tracked(linkId: string, eventType: EventType, today: string): DayRecord
      reads this
    {
      var key := (linkId, today);
      if key in days then Bump(days[key], eventType) else Fresh(eventType)
    }

    /**
     * `trackLinkAnalytics`: within one transaction, bump the day's counter or
     * create the day. `today` is the current UTC date; `ok` is false when the
     * transaction fails, which is logged and changes nothing.
     */
    method TrackLinkAnalytics(linkId: string, eventType: EventType, today: string, ok: bool)
      returns (log: seq<Logging.LogEntry>)
      modifies this
      ensures ok ==> days == old(days)[(linkId, today) := old(Tracked(linkId, eventType, today))] && log == []
      ensures !ok ==> (days == old(days) &&
        log == [Logging.LogEntry(Logging.Error, "Error tracking " + FieldName(eventType) + " for link " + linkId + ":")])
    {
      if !ok {
        return [Logging.LogEntry(Logging.Error, "Error tracking " + FieldName(eventType) + " for link " + linkId + ":")];
      }
      var key := (linkId, today);
      if key in days {
        var data := days[key];
        days := days[key := Bump(data, eventType)];
      } else {
        var newAnalytics := Fresh(eventType);
        days := days[key := newAnalytics];
      }
      log := [];
    }

    /**
     * `trackLinkAnalyticsByUrl`: an unparsable URL or a failed query is
     * logged, the root path tracks nothing, an unknown path is logged, and
     * otherwise the first link with that path is tracked.
     */
    method TrackLinkAnalyticsByUrl(
      url: string, eventType: EventType, today: string, links: seq<LinkDoc>, codec: UrlCodec, queryOk: bool, ok: bool)
      returns (log: seq<Logging.LogEntry>)
      modifies this
      ensures var parsed := codec.parse(url);
        if parsed.None? || parsed.value.pathname == "/" || !queryOk
           || FindDynamicLinkByPath(links, parsed.value.pathname).None?
        then days == old(days)
        else
          var linkId := FindDynamicLinkByPath(links, parsed.value.pathname).value.id;
          days == (if ok then old(days)[(linkId, today) := old(Tracked(linkId, eventType, today))] else old(days))
      ensures codec.parse(url).Some? && codec.parse(url).value.pathname == "/" ==> log == []
    {
      var linkUrl := codec.parse(url);
      if linkUrl.None? {
        return [Logging.LogEntry(Logging.Error, "Error tracking " + FieldName(eventType) + " for URL " + url + ":")];
      }
      var linkPath := linkUrl.value.pathname;
      if linkPath == "/" {
        return [];
      }
      if !queryOk {
        return [Logging.LogEntry(Logging.Error, "Error tracking " + FieldName(eventType) + " for URL " + url + ":")];
      }
      var linkSnapshot := FindDynamicLinkByPath(links, linkPath);
      if linkSnapshot.Some? {
        log := TrackLinkAnalytics(linkSnapshot.value.id, eventType, today, ok);
      } else {
        log := [Logging.LogEntry(Logging.Error,
          "Link not found in records for " + FieldName(eventType) + ": path=\"" + linkPath + "\" from URL=\"" + url + "\"")];
      }
    }
  }
}
