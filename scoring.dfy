/**
 * The heuristic scoring engine of `installs.ts`: how well a stored
 * browser record matches the fingerprint an app sends after installation.
 * Zero disqualifies; any other score lies between 5 and 22.
 */
module Scoring {
  import opened Wrappers
  import opened Text
  import opened InstallTypes

  /** `lang.replace('_', '-').toLowerCase()`: only the first `_` becomes `-`. */
  function NormalizeLanguage(lang: string): string {
    ToLower(ReplaceFirst(lang, '_', '-'))
  }

  /** `lang.split('-')[0]`. */
  function PrimarySubtag(lang: string): string {
    Split(lang, '-')[0]
  }

  /** `lang.split('-')[1]`, an absent part read as the (falsy) empty string. */
  function RegionSubtag(lang: string): string {
    var parts := Split(lang, '-');
    if |parts| > 1 then parts[1] else ""
  }

  /** `device.languageCodeFromWebView ?? device.languageCode`. */
  function DeviceLanguage(device: DeviceInfo): string {
    device.languageCodeFromWebView.GetOr(device.languageCode)
  }

  predicate SameScreen(fp: DeviceFingerprint, entry: SavedDeviceHeuristics) {
    && entry.heuristics.screenWidth == fp.device.screenResolutionWidth
    && entry.heuristics.screenHeight == fp.device.screenResolutionHeight
  }

  predicate SameTimezoneIgnoringCase(fp: DeviceFingerprint, entry: SavedDeviceHeuristics) {
    ToLower(entry.heuristics.timezone) == ToLower(fp.device.timezone)
  }

  predicate SamePrimaryLanguage(fp: DeviceFingerprint, entry: SavedDeviceHeuristics) {
    PrimarySubtag(NormalizeLanguage(entry.heuristics.language))
      == PrimarySubtag(NormalizeLanguage(DeviceLanguage(fp.device)))
  }

  /** The three checks a record must pass to score at all. */
  predicate Qualifies(fp: DeviceFingerprint, entry: SavedDeviceHeuristics) {
    SameScreen(fp, entry) && SameTimezoneIgnoringCase(fp, entry) && SamePrimaryLanguage(fp, entry)
  }

  /** The region bonus for two normalised language tags whose primary subtags agree. */
  function LanguageBonus(entryLang: string, deviceLang: string): (b: nat)
    ensures b <= 3
    ensures b == 3 <==> entryLang == deviceLang
    ensures entryLang != deviceLang && RegionSubtag(entryLang) != "" && RegionSubtag(deviceLang) != "" ==>
      (b == 2 <==> RegionSubtag(entryLang) == RegionSubtag(deviceLang))
    ensures entryLang != deviceLang && RegionSubtag(entryLang) != "" && RegionSubtag(deviceLang) != "" ==> b != 1
    ensures (RegionSubtag(entryLang) == "" || RegionSubtag(deviceLang) == "") ==> b == 1 || b == 3
  {
    var er, dr := RegionSubtag(entryLang), RegionSubtag(deviceLang);
    if entryLang == deviceLang then 3
    else if er != "" && dr != "" && er == dr then 2
    else if er != "" && dr != "" then 0
    else 1
  }

  /** The tokens `mobile`, `safari`, `webkit`, `chrome`, `version` whose joint presence earns the overlap point. */
  const CommonTokens: seq<string> := ["mobile", "safari", "webkit", "chrome", "version"]

  /** Some element of `parts` longer than `minLen` characters occurs in `hay`. */
  predicate SomeLongPartIn(parts: seq<string>, minLen: nat, hay: string) {
    exists i :: 0 <= i < |parts| && |parts[i]| > minLen && Contains(hay, parts[i])
  }

  /** Some token longer than `minLen` of `a` equals a token longer than `minLen` of `b`. */
  predicate SharedLongToken(a: seq<string>, b: seq<string>, minLen: nat) {
    exists i, j :: 0 <= i < |a| && 0 <= j < |b| && |a[i]| > minLen && |b[j]| > minLen && a[i] == b[j]
  }

  /** Both user agents mention one of the common browser tokens, or share a token of four or more characters. */
  predicate UserAgentsOverlap(appUA: string, browserUA: string) {
    || (exists i :: 0 <= i < |CommonTokens| && Contains(appUA, CommonTokens[i]) && Contains(browserUA, CommonTokens[i]))
    || SharedLongToken(SplitRuns(appUA, IsSpace), SplitRuns(browserUA, IsSpace), 3)
  }

  /** The lower-cased device model is non-empty and occurs in the lower-cased browser user agent. */
  predicate ModelInUserAgent(deviceModel: string, browserUserAgent: string) {
    ToLower(deviceModel) != "" && Contains(ToLower(browserUserAgent), ToLower(deviceModel))
  }

  /** A part of the lower-cased model longer than two characters occurs in the lower-cased browser user agent. */
  predicate ModelPartInUserAgent(deviceModel: string, browserUserAgent: string) {
    ToLower(deviceModel) != ""
    && SomeLongPartIn(SplitRuns(ToLower(deviceModel), IsModelSeparator), 2, ToLower(browserUserAgent))
  }

  /** `matchWithAppUserAgent`: device-model affinity between the app and the stored browser user agent. */
  function MatchWithAppUserAgent(deviceModel: string, appUserAgent: string, browserUserAgent: string): (r: nat)
    ensures r == 0 || r == 2 || r == 3 || r == 4
    ensures ModelInUserAgent(deviceModel, browserUserAgent) ==> r >= 3
    ensures r == 0 <==> !ModelInUserAgent(deviceModel, browserUserAgent) && !ModelPartInUserAgent(deviceModel, browserUserAgent)
    ensures var overlap := UserAgentsOverlap(ToLower(appUserAgent), ToLower(browserUserAgent));
      && (r == 4 <==> ModelInUserAgent(deviceModel, browserUserAgent) && overlap)
      && (r == 2 <==> !ModelInUserAgent(deviceModel, browserUserAgent)
                      && ModelPartInUserAgent(deviceModel, browserUserAgent) && !overlap)
  {
    var appUA := ToLower(appUserAgent);
    var browserUA := ToLower(browserUserAgent);
    var model := ToLower(deviceModel);
    var direct := if model != "" && Contains(browserUA, model) then 3 else 0;
    var byParts :=
      if direct == 0 && model != "" && SomeLongPartIn(SplitRuns(model, IsModelSeparator), 2, browserUA) then 2 else 0;
    var hit := direct + byParts;
    if hit > 0 && UserAgentsOverlap(appUA, browserUA) then hit + 1 else hit
  }

  /** `osVersionMatches`: OS-version affinity between the app's OS version and the stored browser user agent. */
  function OsVersionMatches(osVersionFromApp: string, browserUserAgent: string): (r: nat)
    ensures r == 0 || r == 2 || r == 3
    ensures osVersionFromApp == "" || browserUserAgent == "" ==> r == 0
    ensures LeadingDigits(ToLower(osVersionFromApp)) == "" ==> r == 0
    ensures r == 3 <==>
      && osVersionFromApp != "" && browserUserAgent != "" && LeadingDigits(ToLower(osVersionFromApp)) != ""
      && (|| Contains(ToLower(browserUserAgent), ToLower(osVersionFromApp))
          || Contains(ToLower(browserUserAgent), ReplaceAll(ToLower(osVersionFromApp), '.', '_')))
    ensures var ua := ToLower(browserUserAgent);
      var major := LeadingDigits(ToLower(osVersionFromApp));
      r == 2 <==>
        && osVersionFromApp != "" && browserUserAgent != "" && major != "" && r != 3
        && (|| Contains(ua, "ios " + major) || Contains(ua, "android " + major)
            || Contains(ua, major + "_") || Contains(ua, "os " + major))
  {
    if osVersionFromApp == "" || browserUserAgent == "" then 0
    else
      var browserUA := ToLower(browserUserAgent);
      var appVersion := ToLower(osVersionFromApp);
      var major := LeadingDigits(appVersion);
      if major == "" then 0
      else if Contains(browserUA, appVersion) then 3
      else if Contains(browserUA, ReplaceAll(appVersion, '.', '_')) then 3
      else if || Contains(browserUA, "ios " + major)
              || Contains(browserUA, "android " + major)
              || Contains(browserUA, major + "_")
              || Contains(browserUA, "os " + major)
      then 2
      else 0
  }

  /** The user-agent and OS bonuses, awarded only when both user agents are known. */
  function UserAgentAffinity(fp: DeviceFingerprint, userAgent: Option<string>, entry: SavedDeviceHeuristics): (r: nat)
    ensures r <= 7
    ensures entry.heuristics.userAgent.None? || userAgent.None? ==> r == 0
  {
    if entry.heuristics.userAgent.Some? && userAgent.Some? then
      MatchWithAppUserAgent(
        fp.device.deviceModelName,
        fp.device.appVersionFromWebView.GetOr(userAgent.value),
        entry.heuristics.userAgent.value)
      + OsVersionMatches(fp.osVersion, entry.heuristics.userAgent.value)
    else 0
  }

  /** Both IPs are known and equal. */
  predicate SameIp(ip: Option<string>, entry: SavedDeviceHeuristics) {
    entry.ip.Some? && ip.Some? && entry.ip == ip
  }

  /** `findMatchingInstall`: the score of one stored record against the fingerprint and the request's IP and user agent. */
  function FindMatchingInstall(
    fp: DeviceFingerprint, ip: Option<string>, userAgent: Option<string>, entry: SavedDeviceHeuristics): (r: nat)
    ensures r == 0 <==> !Qualifies(fp, entry)
    ensures r != 0 ==> 5 <= r <= 22
  {
    var device := fp.device;
    var h := entry.heuristics;
    if h.screenWidth != device.screenResolutionWidth || h.screenHeight != device.screenResolutionHeight then 0
    else if ToLower(h.timezone) != ToLower(device.timezone) then 0
    else
      var entryLang := NormalizeLanguage(h.language);
      var deviceLang := NormalizeLanguage(DeviceLanguage(device));
      if PrimarySubtag(entryLang) != PrimarySubtag(deviceLang) then 0
      else
        5
        + LanguageBonus(entryLang, deviceLang)
        + (if h.timezone == device.timezone then 1 else 0)
        + (if h.language == device.languageCode then 1 else 0)
        + (if SameIp(ip, entry) then 5 else 0)
        + UserAgentAffinity(fp, userAgent, entry)
  }

  /**
   * A record that passes the checks scores 5 plus its bonuses, each within
   * its own range: the language bonus at most 3, the exact timezone and the
   * exact language code 0 or 1 each, the IP 0 or 5, and the user-agent
   * affinity at most 7 and only when both user agents are known.
   */
  lemma ScoreIsBasePlusBonuses(fp: DeviceFingerprint, ip: Option<string>, userAgent: Option<string>, entry: SavedDeviceHeuristics)
    requires Qualifies(fp, entry)
    ensures var lang := LanguageBonus(NormalizeLanguage(entry.heuristics.language), NormalizeLanguage(DeviceLanguage(fp.device)));
      var tz := if entry.heuristics.timezone == fp.device.timezone then 1 else 0;
      var exact := if entry.heuristics.language == fp.device.languageCode then 1 else 0;
      var ipBonus := if SameIp(ip, entry) then 5 else 0;
      var ua := UserAgentAffinity(fp, userAgent, entry);
      && FindMatchingInstall(fp, ip, userAgent, entry) == 5 + lang + tz + exact + ipBonus + ua
      && lang <= 3 && ua <= 7
      && (ua > 0 ==> entry.heuristics.userAgent.Some? && userAgent.Some?)
      && 5 + tz + exact + ipBonus <= FindMatchingInstall(fp, ip, userAgent, entry) <= 15 + tz + exact + ipBonus
  {
  }

  /** The IP only ever adds 5 points: a missing or different IP neither disqualifies nor penalises. */
  lemma IpIsBonusOnly(fp: DeviceFingerprint, ip: Option<string>, userAgent: Option<string>, entry: SavedDeviceHeuristics)
    ensures FindMatchingInstall(fp, ip, userAgent, entry) ==
      FindMatchingInstall(fp, None, userAgent, entry) + (if Qualifies(fp, entry) && SameIp(ip, entry) then 5 else 0)
  {
  }

  /** The user agent only ever adds points: knowing it never turns a match into a non-match, or lowers the score. */
  lemma UserAgentIsBonusOnly(fp: DeviceFingerprint, ip: Option<string>, userAgent: Option<string>, entry: SavedDeviceHeuristics)
    ensures FindMatchingInstall(fp, ip, userAgent, entry) >= FindMatchingInstall(fp, ip, None, entry)
    ensures FindMatchingInstall(fp, ip, userAgent, entry) == 0 <==> FindMatchingInstall(fp, ip, None, entry) == 0
    ensures FindMatchingInstall(fp, ip, userAgent, entry) <= FindMatchingInstall(fp, ip, None, entry) + 7
  {
  }

  /** A record that repeats the device's screen, timezone and language verbatim scores at least 10. */
  lemma IdenticalDeviceScoresAtLeastTen(fp: DeviceFingerprint, ip: Option<string>, userAgent: Option<string>, entry: SavedDeviceHeuristics)
    requires SameScreen(fp, entry)
    requires entry.heuristics.timezone == fp.device.timezone
    requires entry.heuristics.language == fp.device.languageCode
    requires fp.device.languageCodeFromWebView.None?
    ensures FindMatchingInstall(fp, ip, userAgent, entry) >= 10
  {
  }

  /** Only the first `_` is normalised: `C_d_e` becomes `c-d_e`, whose region part is `d_e`. */
  lemma OnlyFirstUnderscoreNormalised()
    ensures NormalizeLanguage("C_d_e") == "c-d_e"
    ensures PrimarySubtag(NormalizeLanguage("C_d_e")) == "c"
    ensures RegionSubtag(NormalizeLanguage("C_d_e")) == "d_e"
  {
    ReplaceExample();
    LowerExample();
    SplitExample();
  }

  lemma ReplaceExample()
    ensures ReplaceFirst("C_d_e", '_', '-') == "C-d_e"
  {
    assert IndexOf("C_d_e", '_') == 1;
  }

  lemma LowerExample()
    ensures ToLower("C-d_e") == "c-d_e"
  {
    assert LowerChar('C') == 'c';
  }

  lemma SplitExample()
    ensures Split("c-d_e", '-') == ["c", "d_e"]
  {
    var n := "c-d_e";
    assert IndexOf(n, '-') == 1;
    assert n[..1] == "c" && n[2..] == "d_e";
    assert Split("d_e", '-') == ["d_e"] by {
      assert '-' !in "d_e";
    }
    assert Split(n, '-') == [n[..1]] + Split(n[2..], '-');
  }
}
