/**
 * The values the post-install search passes around: the diagnostic
 * events it collects, a scored candidate, the search result and the
 * response sent back to the app.
 */
module SearchTypes {
  import opened Wrappers
  import opened Urls
  import opened InstallTypes

  /** The diagnostic event kinds of the post-install handler. */
  datatype AnalyticsType =
    | Error
    | PasteboardMultipleMatches
    | PasteboardNotFound
    | HeuristicsNotFound
    | HeuristicsMultipleMatches
    | HeuristicsMultipleMatchesSameScore
    | DarkLaunchMatch
    | DarkLaunchMismatch
    | DebugHeuristicsSuccess
    | DebugHeuristicsFailure

  /** The kinds the heuristic scan emits. */
  predicate HeuristicsKind(k: AnalyticsType) {
    k == HeuristicsNotFound || k == HeuristicsMultipleMatches || k == HeuristicsMultipleMatchesSameScore
  }

  /** The kinds the clipboard search emits. */
  predicate PasteboardKind(k: AnalyticsType) {
    k == PasteboardNotFound || k == PasteboardMultipleMatches
  }

  /** A diagnostic event; its free-form debug payload is not modelled. */
  datatype AnalyticsMessage = AnalyticsMessage(kind: AnalyticsType, message: string)

  /** A stored record together with its score and document id. */
  datatype MatchResult = MatchResult(entry: SavedDeviceHeuristics, score: int, uuid: string)

  /**
   * The outcome of a search: the record found, whether it was found by an
   * exact link, the events collected and the id of the record to consume.
   */
  datatype PostInstallResult = PostInstallResult(
    foundEntry: Option<SavedDeviceHeuristics>,
    uniqueMatch: bool,
    analytics: seq<AnalyticsMessage>,
    uuld: Option<string>)

  /** The nested link of a dynamic link, its `_tracebackid` (None for `null`) and the link without it. */
  datatype LinkExtraction = LinkExtraction(
    dynamicLinkUrl: Url,
    tracebackId: Option<string>,
    dynamicLinkUrlWithoutTracebackId: Url)

  datatype MatchType = Unique | Heuristics | Ambiguous | NoMatch
  datatype IpVersion = IpV4 | IpV6

  /** The JSON body of a successful post-install response. */
  datatype MatchResponse = MatchResponse(
    deepLinkId: Option<string>,
    matchMessage: string,
    matchType: MatchType,
    requestIpVersion: IpVersion,
    utmMedium: Option<string>,
    utmSource: Option<string>)
}
