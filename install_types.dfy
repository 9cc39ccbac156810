/**
 * The records of the install flow: the fingerprint an app sends after
 * installation, the heuristics a browser sends before it, and the record
 * the store keeps (heuristics, server creation time, observed IP).
 */
module InstallTypes {
  import opened Wrappers

  datatype DeviceInfo = DeviceInfo(
    deviceModelName: string,
    languageCode: string,
    languageCodeFromWebView: Option<string>,
    languageCodeRaw: string,
    appVersionFromWebView: Option<string>,
    screenResolutionWidth: int,
    screenResolutionHeight: int,
    timezone: string)

  datatype DeviceFingerprint = DeviceFingerprint(
    appInstallationTime: int,
    bundleId: string,
    osVersion: string,
    sdkVersion: string,
    uniqueMatchLinkToCheck: Option<string>,
    darkLaunchDetectedLink: Option<string>,
    device: DeviceInfo)

  /** What the browser reports before the install (numeric-only fields the matching never reads are omitted). */
  datatype DeviceHeuristics = DeviceHeuristics(
    language: string,
    languages: seq<string>,
    timezone: string,
    screenWidth: int,
    screenHeight: int,
    platform: Option<string>,
    userAgent: Option<string>,
    connectionType: Option<string>,
    clipboard: Option<string>)

  /** A store timestamp: whole seconds since the epoch and the nanoseconds within that second. */
  datatype Timestamp = Timestamp(seconds: int, nanos: int)

  predicate ValidTimestamp(t: Timestamp) {
    0 <= t.nanos < 1000000000
  }

  /** `Timestamp.fromMillis(ms)`: seconds rounded down, the remainder as nanoseconds. */
  function FromMillis(ms: int): (t: Timestamp)
    ensures ValidTimestamp(t)
  {
    Timestamp(ms / 1000, (ms % 1000) * 1000000)
  }

  /** The store's order on timestamps: by seconds, then by nanoseconds. */
  predicate Before(a: Timestamp, b: Timestamp) {
    a.seconds < b.seconds || (a.seconds == b.seconds && a.nanos < b.nanos)
  }

  /** Being before `FromMillis(ms)` means being strictly earlier than `ms` milliseconds, measured in nanoseconds. */
  lemma BeforeFromMillis(t: Timestamp, ms: int)
    requires ValidTimestamp(t)
    ensures Before(t, FromMillis(ms)) <==> t.seconds * 1000000000 + t.nanos < ms * 1000000
  {
    var q, r := ms / 1000, ms % 1000;
    assert ms * 1000000 == q * 1000000000 + r * 1000000;
    if t.seconds < q {
      assert t.seconds * 1000000000 + 1000000000 <= q * 1000000000;
    } else if t.seconds > q {
      assert (q + 1) * 1000000000 <= t.seconds * 1000000000;
    }
  }

  /** A stored record: the heuristics spread, the server timestamp and the IP when one was known. */
  datatype SavedDeviceHeuristics = SavedDeviceHeuristics(
    heuristics: DeviceHeuristics,
    createdAt: Timestamp,
    ip: Option<string>)
}
