/**
 * The hosting site id and site URL derived from the extension's
 * configuration.
 */
module SiteUtils {
  import opened Text

  /** The two configuration values the derivation reads. */
  datatype Config = Config(projectID: string, domain: string)

  const SiteSuffix := "-traceback"
  const NamePrefix := "https://"
  const NameSuffix := ".web.app"

  /** `getSiteId`: the configured domain when there is one, otherwise the project's default site. */
  function GetSiteId(config: Config): (id: string)
    ensures config.domain != "" ==> id == config.domain
    ensures config.domain == "" ==> id == config.projectID + SiteSuffix
    ensures id != ""
  {
    if config.domain != "" then config.domain else config.projectID + SiteSuffix
  }

  /** `getSiteName`: the site's `web.app` URL. */
  function GetSiteName(config: Config): (name: string)
    ensures StartsWith(name, NamePrefix)
    ensures |name| == |NamePrefix| + |GetSiteId(config)| + |NameSuffix|
    ensures name[|name| - |NameSuffix|..] == NameSuffix
  {
    NamePrefix + GetSiteId(config) + NameSuffix
  }

  /** The site id read back from a site name. */
  function SiteIdOfName(name: string): string
    requires |name| >= |NamePrefix| + |NameSuffix|
  {
    name[|NamePrefix|..|name| - |NameSuffix|]
  }

  /** The site name determines the site id, so two configs with the same site name serve the same site. */
  lemma {:induction false} SiteNameDeterminesId(config: Config, other: Config)
    ensures SiteIdOfName(GetSiteName(config)) == GetSiteId(config)
    ensures GetSiteName(config) == GetSiteName(other) ==> GetSiteId(config) == GetSiteId(other)
  {
    var name := GetSiteName(config);
    assert name[|NamePrefix|..|name| - |NameSuffix|] == GetSiteId(config);
    var name2 := GetSiteName(other);
    assert name2[|NamePrefix|..|name2| - |NameSuffix|] == GetSiteId(other);
  }

  /** The entry point's own copy of the site id, reading the same configuration. */
  function EntryPointSiteId(config: Config): string {
    if config.domain != "" then config.domain else config.projectID + SiteSuffix
  }

  /** The entry point's copy and `getSiteId` name the same site for every configuration. */
  lemma EntryPointSiteIdAgrees(config: Config)
    ensures EntryPointSiteId(config) == GetSiteId(config)
  {
  }
}
