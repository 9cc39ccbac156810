/**
 * `searchPostInstall` and the pure parts of the post-install handler: the
 * diagnostic events appended after the search, the response sent to the
 * app, the log level of each event and the request's IP and user agent.
 */
module PostInstall {
  import opened Wrappers
  import opened Text
  import opened Urls
  import Logging
  import opened InstallTypes
  import opened Records
  import opened SearchTypes
  import opened Search

  const DebugFailureText := "heuristisc would have returned different result than current successfull unique search"
  const DebugSuccessText := "heuristisc would have returned the same result than unique search, hurray!"
  const NoEntryText := "dark launch mismatch: no entry found"
  const NoLinkParamText := "dark launch mismatch / system error: found entry did not include link= param"
  const MismatchText := "dark launch mismatch"
  const MatchText := "matched dark launch"

  predicate IsDarkLaunch(k: AnalyticsType) {
    k == DarkLaunchMatch || k == DarkLaunchMismatch
  }

  predicate NoDarkLaunch(events: seq<AnalyticsMessage>) {
    forall i :: 0 <= i < |events| ==> !IsDarkLaunch(events[i].kind)
  }

  predicate IsDebug(k: AnalyticsType) {
    k == DebugHeuristicsSuccess || k == DebugHeuristicsFailure
  }

  /**
   * The shadow comparison run when the app sent a link: FAILURE exactly when
   * the clipboard search found nothing and the heuristic scan found something.
   */
  function DebugEvent(clipboard: PostInstallResult, heuristics: PostInstallResult): (e: AnalyticsMessage)
    ensures IsDebug(e.kind)
    ensures e.kind == DebugHeuristicsFailure <==> clipboard.foundEntry.None? && heuristics.foundEntry.Some?
  {
    if clipboard.foundEntry.None? && heuristics.foundEntry != clipboard.foundEntry then
      AnalyticsMessage(DebugHeuristicsFailure, DebugFailureText)
    else
      AnalyticsMessage(DebugHeuristicsSuccess, DebugSuccessText)
  }

  /** The link extracted from a found record's stored clipboard; a missing clipboard cannot be parsed. */
  function FoundLink(entry: SavedDeviceHeuristics, codec: UrlCodec): Option<LinkExtraction> {
    match entry.heuristics.clipboard
    case None => None
    case Some(clipboard) => ExtractTracebackIdFromDynamicLink(clipboard, codec)
  }

  /**
   * The dark-launch check: the link the old provider resolved is compared
   * with the found record's link, with and without `_tracebackid`. Since
   * both extracted URLs lack the id, only the stripped form can match.
   */
  function DarkLaunchEvent(foundEntry: Option<SavedDeviceHeuristics>, darkLaunchDetectedLink: string, codec: UrlCodec): (e: AnalyticsMessage)
    ensures IsDarkLaunch(e.kind)
    ensures e.kind == DarkLaunchMatch <==>
      && foundEntry.Some?
      && FoundLink(foundEntry.value, codec).Some?
      && codec.format(FoundLink(foundEntry.value, codec).value.dynamicLinkUrlWithoutTracebackId) == darkLaunchDetectedLink
  {
    if foundEntry.None? then AnalyticsMessage(DarkLaunchMismatch, NoEntryText)
    else
      var foundLink := FoundLink(foundEntry.value, codec);
      if foundLink.None? then AnalyticsMessage(DarkLaunchMismatch, NoLinkParamText)
      else if codec.format(foundLink.value.dynamicLinkUrlWithoutTracebackId) != darkLaunchDetectedLink
        && codec.format(foundLink.value.dynamicLinkUrl) != darkLaunchDetectedLink
      then AnalyticsMessage(DarkLaunchMismatch, MismatchText)
      else AnalyticsMessage(DarkLaunchMatch, MatchText)
  }

  /** The search that decides the answer: the clipboard search when the app sent a link, the heuristic scan otherwise. */
  function PrimarySearch(docs: seq<Doc>, fp: DeviceFingerprint, ip: Option<string>, userAgent: Option<string>, codec: UrlCodec): (r: PostInstallResult)
    ensures NoDarkLaunch(r.analytics)
    ensures r.uuld.Some? ==> r.foundEntry.Some? && Doc(r.uuld.value, r.foundEntry.value) in docs
    ensures fp.uniqueMatchLinkToCheck.Some? ==> r == SearchByClipboardContent(docs, fp.uniqueMatchLinkToCheck.value, codec)
    ensures fp.uniqueMatchLinkToCheck.None? ==> r == SearchByHeuristics(fp, ip, userAgent, docs)
  {
    match fp.uniqueMatchLinkToCheck
    case Some(link) =>
      var r := SearchByClipboardContent(docs, link, codec);
      assert forall i :: 0 <= i < |r.analytics| ==> r.analytics[i] in r.analytics;
      r
    case None =>
      var r := SearchByHeuristics(fp, ip, userAgent, docs);
      assert forall i :: 0 <= i < |r.analytics| ==> r.analytics[i] in r.analytics;
      r
  }

  /** `result.analytics.push(e)`. */
  function Push(result: PostInstallResult, e: AnalyticsMessage): (r: PostInstallResult)
    ensures r.foundEntry == result.foundEntry && r.uniqueMatch == result.uniqueMatch && r.uuld == result.uuld
    ensures r.analytics == result.analytics + [e]
  {
    result.(analytics := result.analytics + [e])
  }

  /**
   * The events `searchPostInstall` appends to the primary search's answer:
   * the debug comparison with the heuristic scan when the app sent a link,
   * then the dark-launch check of the returned entry when a dark-launch link
   * was sent. The entry, uniqueness and id stay the primary search's.
   */
  function AppendEvents(
    primary: PostInstallResult, heuristics: PostInstallResult, linkSent: bool,
    darkLaunchDetectedLink: Option<string>, codec: UrlCodec): (r: PostInstallResult)
    ensures r.foundEntry == primary.foundEntry && r.uniqueMatch == primary.uniqueMatch && r.uuld == primary.uuld
    ensures r.analytics == primary.analytics
      + (if linkSent then [DebugEvent(primary, heuristics)] else [])
      + (if darkLaunchDetectedLink.Some? then [DarkLaunchEvent(primary.foundEntry, darkLaunchDetectedLink.value, codec)] else [])
  {
    var withDebug := if linkSent then Push(primary, DebugEvent(primary, heuristics)) else primary;
    assert withDebug.analytics == primary.analytics + (if linkSent then [DebugEvent(primary, heuristics)] else []);
    if darkLaunchDetectedLink.Some? then
      Push(withDebug, DarkLaunchEvent(withDebug.foundEntry, darkLaunchDetectedLink.value, codec))
    else
      assert withDebug.analytics + [] == withDebug.analytics;
      withDebug
  }

  /**
   * Where the appended events sit: the debug event right after the primary
   * search's own events, the dark-launch event last, and no dark-launch
   * event anywhere else when the primary search emitted none.
   */
  lemma {:induction false} AppendedEventPositions(
    primary: PostInstallResult, heuristics: PostInstallResult, linkSent: bool,
    darkLaunchDetectedLink: Option<string>, codec: UrlCodec)
    requires NoDarkLaunch(primary.analytics)
    ensures var r := AppendEvents(primary, heuristics, linkSent, darkLaunchDetectedLink, codec);
      var n := |primary.analytics|;
      && |r.analytics| == n + (if linkSent then 1 else 0) + (if darkLaunchDetectedLink.Some? then 1 else 0)
      && r.analytics[..n] == primary.analytics
      && (linkSent ==> r.analytics[n] == DebugEvent(primary, heuristics))
      && (darkLaunchDetectedLink.None? ==> NoDarkLaunch(r.analytics))
      && (darkLaunchDetectedLink.Some? ==>
            && NoDarkLaunch(r.analytics[..|r.analytics| - 1])
            && r.analytics[|r.analytics| - 1] == DarkLaunchEvent(primary.foundEntry, darkLaunchDetectedLink.value, codec))
  {
    var r := AppendEvents(primary, heuristics, linkSent, darkLaunchDetectedLink, codec);
    var n := |primary.analytics|;
    var debugPart := if linkSent then [DebugEvent(primary, heuristics)] else [];
    var withDebug := primary.analytics + debugPart;
    assert NoDarkLaunch(withDebug) by {
      forall i | 0 <= i < |withDebug|
        ensures !IsDarkLaunch(withDebug[i].kind)
      {
        if i >= n {
          assert withDebug[i] == DebugEvent(primary, heuristics);
        }
      }
    }
    assert r.analytics[..|withDebug|] == withDebug;
    assert r.analytics[..n] == withDebug[..n];
    assert withDebug[..n] == primary.analytics;
  }

  /**
   * `searchPostInstall`: the primary search's entry, uniqueness and id are
   * returned unchanged (a clipboard miss is not followed by the heuristic
   * answer); its events are followed by the debug event when the app sent a
   * link and then by the dark-launch event about the returned entry when a
   * dark-launch link was sent.
   */
  function SearchPostInstall(docs: seq<Doc>, fp: DeviceFingerprint, ip: Option<string>, userAgent: Option<string>, codec: UrlCodec): (r: PostInstallResult)
    ensures var p := PrimarySearch(docs, fp, ip, userAgent, codec);
      && r.foundEntry == p.foundEntry && r.uniqueMatch == p.uniqueMatch && r.uuld == p.uuld
      && r.analytics == p.analytics
           + (if fp.uniqueMatchLinkToCheck.Some? then [DebugEvent(p, SearchByHeuristics(fp, ip, userAgent, docs))] else [])
           + (if fp.darkLaunchDetectedLink.Some? then [DarkLaunchEvent(p.foundEntry, fp.darkLaunchDetectedLink.value, codec)] else [])
    ensures r.uuld.Some? ==> Doc(r.uuld.value, r.foundEntry.value) in docs
  {
    AppendEvents(PrimarySearch(docs, fp, ip, userAgent, codec), SearchByHeuristics(fp, ip, userAgent, docs),
      fp.uniqueMatchLinkToCheck.Some?, fp.darkLaunchDetectedLink, codec)
  }

  /**
   * `searchPostInstall` as written: when the app sent a link, the throw of
   * the written clipboard search ends the whole request (the handler answers
   * 500); otherwise the clipboard answer is followed by the same events.
   */
  function SearchPostInstallAsWritten(docs: seq<Doc>, fp: DeviceFingerprint, ip: Option<string>, userAgent: Option<string>, codec: UrlCodec): (r: Result<PostInstallResult, string>)
    ensures r.Failure? <==>
      fp.uniqueMatchLinkToCheck.Some? && SearchByClipboardContentAsWritten(docs, fp.uniqueMatchLinkToCheck.value, codec).Failure?
  {
    match fp.uniqueMatchLinkToCheck
    case Some(link) =>
      var clipboard := SearchByClipboardContentAsWritten(docs, link, codec);
      if clipboard.Failure? then Failure(clipboard.error)
      else Success(AppendEvents(clipboard.value, SearchByHeuristics(fp, ip, userAgent, docs), true, fp.darkLaunchDetectedLink, codec))
    case None =>
      Success(SearchPostInstall(docs, fp, ip, userAgent, codec))
  }

  /**
   * The modelled `searchPostInstall` (which uses the corrected clipboard
   * search) answers exactly what the written one answers wherever the
   * written one does not throw; where it throws (a clipboard miss whose
   * nested link has no `_tracebackid`, or one the store's path check
   * refuses) the modelled one answers PASTEBOARD_NOT_FOUND.
   */
  lemma SearchPostInstallAgreesWithWritten(docs: seq<Doc>, fp: DeviceFingerprint, ip: Option<string>, userAgent: Option<string>, codec: UrlCodec)
    ensures SearchPostInstallAsWritten(docs, fp, ip, userAgent, codec).Success? ==>
      SearchPostInstallAsWritten(docs, fp, ip, userAgent, codec).value == SearchPostInstall(docs, fp, ip, userAgent, codec)
    ensures SearchPostInstallAsWritten(docs, fp, ip, userAgent, codec).Failure? ==>
      var id := ExtractTracebackIdFromDynamicLink(fp.uniqueMatchLinkToCheck.value, codec).value.tracebackId;
      PrimarySearch(docs, fp, ip, userAgent, codec) ==
        PasteboardNotFoundResult(if id.None? then NoTracebackIdText else NoDocumentByIdText)
  {
    if fp.uniqueMatchLinkToCheck.Some? {
      ClipboardAsWrittenAgreesOtherwise(docs, fp.uniqueMatchLinkToCheck.value, codec);
    }
  }

  /**
   * When the app sent a link the clipboard search is final: a miss stays a
   * miss whatever the heuristic scan finds, and the scan only decides the
   * debug event.
   */
  lemma ClipboardMissIsFinal(docs: seq<Doc>, fp: DeviceFingerprint, ip: Option<string>, userAgent: Option<string>, codec: UrlCodec)
    requires fp.uniqueMatchLinkToCheck.Some?
    requires SearchByClipboardContent(docs, fp.uniqueMatchLinkToCheck.value, codec).foundEntry.None?
    ensures var r := SearchPostInstall(docs, fp, ip, userAgent, codec);
      r.foundEntry.None? && r.uuld.None? && !r.uniqueMatch
    ensures var r := SearchPostInstall(docs, fp, ip, userAgent, codec);
      var clipboard := SearchByClipboardContent(docs, fp.uniqueMatchLinkToCheck.value, codec);
      SearchByHeuristics(fp, ip, userAgent, docs).foundEntry.Some? ==>
        r.analytics[|clipboard.analytics|] == AnalyticsMessage(DebugHeuristicsFailure, DebugFailureText)
  {
  }

  /** The JSON body sent back to the app. */
  function BuildResponse(result: PostInstallResult, fp: DeviceFingerprint): (response: MatchResponse)
    ensures response.requestIpVersion == IpV4
    ensures response.utmMedium.None? && response.utmSource.None?
    ensures response.matchType == Unique <==> result.foundEntry.Some? && result.uniqueMatch
    ensures response.matchType == Ambiguous <==> result.foundEntry.Some? && !result.uniqueMatch
    ensures response.matchType == NoMatch <==> result.foundEntry.None?
    ensures response.deepLinkId ==
      if result.foundEntry.Some? then result.foundEntry.value.heuristics.clipboard else fp.uniqueMatchLinkToCheck
    ensures response.matchMessage ==
      if result.foundEntry.None? then "No matching install found."
      else if result.uniqueMatch then "Link is uniquely matched for this device."
      else "Fuzzy link with this id"
  {
    if result.foundEntry.Some? then
      MatchResponse(
        result.foundEntry.value.heuristics.clipboard,
        if result.uniqueMatch then "Link is uniquely matched for this device." else "Fuzzy link with this id",
        if result.uniqueMatch then Unique else Ambiguous,
        IpV4, None, None)
    else
      MatchResponse(fp.uniqueMatchLinkToCheck, "No matching install found.", NoMatch, IpV4, None, None)
  }

  /** The post-install flow never answers with the `heuristics` match type. */
  lemma NeverHeuristicsMatchType(docs: seq<Doc>, fp: DeviceFingerprint, ip: Option<string>, userAgent: Option<string>, codec: UrlCodec)
    ensures BuildResponse(SearchPostInstall(docs, fp, ip, userAgent, codec), fp).matchType != Heuristics
    ensures fp.uniqueMatchLinkToCheck.None? ==>
      BuildResponse(SearchPostInstall(docs, fp, ip, userAgent, codec), fp).matchType != Unique
  {
  }

  /** The name an event kind prints as. */
  function TypeName(k: AnalyticsType): string {
    match k
    case Error => "ERROR"
    case PasteboardMultipleMatches => "PASTEBOARD_MULTIPLE_MATCHES"
    case PasteboardNotFound => "PASTEBOARD_NOT_FOUND"
    case HeuristicsNotFound => "HEURISTICS_NOT_FOUND"
    case HeuristicsMultipleMatches => "HEURISTICS_MULTIPLE_MATCHES"
    case HeuristicsMultipleMatchesSameScore => "HEURISTICS_MULTIPLE_MATCHES_SAME_SCORE"
    case DarkLaunchMatch => "DARK_LAUNCH_MATCH"
    case DarkLaunchMismatch => "DARK_LAUNCH_MISMATCH"
    case DebugHeuristicsSuccess => "DEBUG_HEURISTICS_SUCCESS"
    case DebugHeuristicsFailure => "DEBUG_HEURISTICS_FAILURE"
  }

  /** The handler's log level per event kind: errors and dark-launch mismatches at error level, the expected outcomes at info, the doubtful ones at warn. */
  function HandlerSeverity(k: AnalyticsType): (level: Logging.Level)
    ensures level == Logging.Error <==> k == Error || k == DarkLaunchMismatch
    ensures level == Logging.Info <==>
      k == HeuristicsMultipleMatches || k == HeuristicsNotFound || k == DarkLaunchMatch || k == DebugHeuristicsSuccess
    ensures level == Logging.Warn <==>
      k == HeuristicsMultipleMatchesSameScore || k == PasteboardMultipleMatches || k == PasteboardNotFound
      || k == DebugHeuristicsFailure
  {
    match k
    case Error => Logging.Error
    case HeuristicsMultipleMatches => Logging.Info
    case HeuristicsMultipleMatchesSameScore => Logging.Warn
    case HeuristicsNotFound => Logging.Info
    case PasteboardMultipleMatches => Logging.Warn
    case PasteboardNotFound => Logging.Warn
    case DarkLaunchMatch => Logging.Info
    case DarkLaunchMismatch => Logging.Error
    case DebugHeuristicsFailure => Logging.Warn
    case DebugHeuristicsSuccess => Logging.Info
  }

  /** The analytics loop of the handler: one log line per event, in order, at the event's level. */
  method LogAnalytics(analytics: seq<AnalyticsMessage>) returns (log: seq<Logging.LogEntry>)
    ensures |log| == |analytics|
    ensures forall i :: 0 <= i < |analytics| ==>
      log[i] == Logging.LogEntry(HandlerSeverity(analytics[i].kind), TypeName(analytics[i].kind) + ": " + analytics[i].message)
  {
    log := [];
    for index := 0 to |analytics|
      invariant |log| == index
      invariant forall i :: 0 <= i < index ==>
        log[i] == Logging.LogEntry(HandlerSeverity(analytics[i].kind), TypeName(analytics[i].kind) + ": " + analytics[i].message)
    {
      var element := analytics[index];
      log := log + [Logging.LogEntry(HandlerSeverity(element.kind), TypeName(element.kind) + ": " + element.message)];
    }
  }

  /**
   * The client IP: the first entry of `x-forwarded-for`, trimmed, when the
   * header is present (even if that entry is empty), else the socket address.
   */
  function ClientIp(forwardedFor: Option<string>, remoteAddress: Option<string>): (ip: Option<string>)
    ensures forwardedFor.None? ==> ip == remoteAddress
    ensures forwardedFor.Some? ==> ip == Some(Trim(Split(forwardedFor.value, ',')[0]))
    ensures forwardedFor.Some? ==>
      && ip.Some? && ',' !in ip.value
      && (ip.value == [] || (!IsSpace(ip.value[0]) && !IsSpace(ip.value[|ip.value| - 1])))
  {
    match forwardedFor
    case None => remoteAddress
    case Some(header) =>
      FirstEntryShape(header);
      Some(Trim(Split(header, ',')[0]))
  }

  /** The trimmed first entry of a header holds no comma and no white space at either end. */
  lemma FirstEntryShape(header: string)
    ensures var ip := Trim(Split(header, ',')[0]);
      ',' !in ip && (ip == [] || (!IsSpace(ip[0]) && !IsSpace(ip[|ip| - 1])))
  {
    TrimKeepsAbsent(Split(header, ',')[0], ',');
  }

  /**
   * Behind a chain of proxies (`client, proxy1, proxy2`) the IP is the
   * client's own entry, trimmed; a header holding a single address without
   * white space is that address.
   */
  lemma ClientIpFirstEntry(client: string, proxies: string, remoteAddress: Option<string>)
    requires ',' !in client
    ensures ClientIp(Some(client + "," + proxies), remoteAddress) == Some(Trim(client))
    ensures (forall i :: 0 <= i < |client| ==> !IsSpace(client[i])) ==>
      ClientIp(Some(client), remoteAddress) == Some(client)
  {
    IndexOfAfterPrefix(client, ',', proxies);
    var header := client + "," + proxies;
    assert header == client + [','] + proxies;
    assert header[..|client|] == client;
    if forall i :: 0 <= i < |client| ==> !IsSpace(client[i]) {
      TrimWithoutSpace(client);
    }
  }

  /** A character absent from `s` is absent from `s.trim()`. */
  lemma TrimKeepsAbsent(s: string, c: char)
    requires c !in s
    ensures c !in Trim(s)
  {
    var a, b :| && 0 <= a <= b <= |s| && Trim(s) == s[a..b]
      && (forall i :: 0 <= i < a ==> IsSpace(s[i]))
      && (forall i :: b <= i < |s| ==> IsSpace(s[i]));
    assert forall i :: 0 <= i < b - a ==> s[a..b][i] == s[a + i];
  }

  /** `req.headers['user-agent'] || undefined`: an empty header counts as absent. */
  function UserAgentHeader(header: Option<string>): (ua: Option<string>)
    ensures ua.Some? ==> ua.value != ""
    ensures ua.None? <==> header.None? || header == Some("")
    ensures ua.Some? ==> ua == header
  {
    if header == Some("") then None else header
  }
}
