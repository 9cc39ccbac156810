/**
 * The shared install-analytics logger: eight event kinds, a fixed log level
 * for each, and one log line per event. It is the handler's own table
 * without the two dark-launch kinds.
 */
module InstallAnalytics {
  import Logging
  import SearchTypes
  import PostInstall

  datatype InstallAnalyticsType =
    | Error
    | PasteboardMultipleMatches
    | PasteboardNotFound
    | HeuristicsNotFound
    | HeuristicsMultipleMatches
    | HeuristicsMultipleMatchesSameScore
    | DebugHeuristicsSuccess
    | DebugHeuristicsFailure

  /** An event; its free-form debug payload is not modelled. */
  datatype PostInstallDebugLog = PostInstallDebugLog(kind: InstallAnalyticsType, message: string)

  /** The string value of each kind. */
  function TypeName(k: InstallAnalyticsType): string {
    match k
    case Error => "ERROR"
    case PasteboardMultipleMatches => "PASTEBOARD_MULTIPLE_MATCHES"
    case PasteboardNotFound => "PASTEBOARD_NOT_FOUND"
    case HeuristicsNotFound => "HEURISTICS_NOT_FOUND"
    case HeuristicsMultipleMatches => "HEURISTICS_MULTIPLE_MATCHES"
    case HeuristicsMultipleMatchesSameScore => "HEURISTICS_MULTIPLE_MATCHES_SAME_SCORE"
    case DebugHeuristicsSuccess => "DEBUG_HEURISTICS_SUCCESS"
    case DebugHeuristicsFailure => "DEBUG_HEURISTICS_FAILURE"
  }

  /** The log level of each kind: only `ERROR` is an error; the ambiguous and missing outcomes are warnings. */
  function Severity(k: InstallAnalyticsType): (level: Logging.Level)
    ensures level == Logging.Error <==> k == Error
    ensures level == Logging.Info <==>
      k == HeuristicsMultipleMatches || k == HeuristicsNotFound || k == DebugHeuristicsSuccess
    ensures level == Logging.Warn <==>
      k == HeuristicsMultipleMatchesSameScore || k == PasteboardMultipleMatches || k == PasteboardNotFound
      || k == DebugHeuristicsFailure
  {
    match k
    case Error => Logging.Error
    case HeuristicsMultipleMatches => Logging.Info
    case HeuristicsMultipleMatchesSameScore => Logging.Warn
    case HeuristicsNotFound => Logging.Info
    case PasteboardMultipleMatches => Logging.Warn
    case PasteboardNotFound => Logging.Warn
    case DebugHeuristicsFailure => Logging.Warn
    case DebugHeuristicsSuccess => Logging.Info
  }

  /**
   * The handler's kind with the same name. The shared logger and the
   * handler's own loop then log it at the same level and under the same name.
   */
  function AsHandlerKind(k: InstallAnalyticsType): (h: SearchTypes.AnalyticsType)
    ensures PostInstall.TypeName(h) == TypeName(k)
    ensures PostInstall.HandlerSeverity(h) == Severity(k)
    ensures h != SearchTypes.DarkLaunchMatch && h != SearchTypes.DarkLaunchMismatch
  {
    match k
    case Error => SearchTypes.Error
    case PasteboardMultipleMatches => SearchTypes.PasteboardMultipleMatches
    case PasteboardNotFound => SearchTypes.PasteboardNotFound
    case HeuristicsNotFound => SearchTypes.HeuristicsNotFound
    case HeuristicsMultipleMatches => SearchTypes.HeuristicsMultipleMatches
    case HeuristicsMultipleMatchesSameScore => SearchTypes.HeuristicsMultipleMatchesSameScore
    case DebugHeuristicsSuccess => SearchTypes.DebugHeuristicsSuccess
    case DebugHeuristicsFailure => SearchTypes.DebugHeuristicsFailure
  }

  /** The log line of one event. */
  function Line(e: PostInstallDebugLog): Logging.LogEntry {
    Logging.LogEntry(Severity(e.kind), TypeName(e.kind) + ": " + e.message)
  }

  /** `logPostInstallDebugInfo`: one log line per event, in input order. */
  method LogPostInstallDebugInfo(analytics: seq<PostInstallDebugLog>) returns (log: seq<Logging.LogEntry>)
    ensures |log| == |analytics|
    ensures forall i :: 0 <= i < |analytics| ==> log[i] == Line(analytics[i])
  {
    log := [];
    for i := 0 to |analytics|
      invariant |log| == i
      invariant forall j :: 0 <= j < i ==> log[j] == Line(analytics[j])
    {
      var element := analytics[i];
      var logMessage := TypeName(element.kind) + ": " + element.message;
      log := log + [Logging.LogEntry(Severity(element.kind), logMessage)];
    }
  }

  /** Logging events through the shared logger writes the lines the handler's loop writes for the same kinds. */
  lemma SharedLoggerAgrees(analytics: seq<PostInstallDebugLog>, handlerEvents: seq<SearchTypes.AnalyticsMessage>)
    requires |handlerEvents| == |analytics|
    requires forall i :: 0 <= i < |analytics| ==>
      handlerEvents[i] == SearchTypes.AnalyticsMessage(AsHandlerKind(analytics[i].kind), analytics[i].message)
    ensures forall i :: 0 <= i < |analytics| ==>
      Line(analytics[i]) ==
      Logging.LogEntry(PostInstall.HandlerSeverity(handlerEvents[i].kind),
                       PostInstall.TypeName(handlerEvents[i].kind) + ": " + handlerEvents[i].message)
  {
    forall i | 0 <= i < |analytics|
      ensures Line(analytics[i]) ==
        Logging.LogEntry(PostInstall.HandlerSeverity(handlerEvents[i].kind),
                         PostInstall.TypeName(handlerEvents[i].kind) + ": " + handlerEvents[i].message)
    {
      var k := analytics[i].kind;
      assert handlerEvents[i].kind == AsHandlerKind(k);
    }
  }
}
