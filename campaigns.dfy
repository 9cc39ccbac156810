/**
 * The campaign endpoint: the requested link selects a registered dynamic
 * link by its path, the visit may be counted, and the answer is the
 * link's follow link carrying the request's `utm_` parameters.
 */
module Campaigns {
  import opened Wrappers
  import opened Text
  import opened Urls
  import Logging
  import opened LinkLookup
  import opened TrackAnalytics

  const DefaultPath := "/default"
  const UtmPrefix := "utm_"

  /** An error answer: its status and its `error` text. */
  datatype HttpError = HttpError(status: int, error: string)

  /** The path to look up and the query parameters of the requested link. */
  datatype Requested = Requested(linkPath: string, params: seq<Param>)

  /** What the `first_campaign_open` parameter asks to count. */
  datatype Tracking = FirstOpenIntent | ReopenVisit | NoTracking

  /** A `link` parameter is used only when it is a non-empty string. */
  predicate LinkGiven(encodedLink: Option<string>) {
    encodedLink.Some? && encodedLink.value != ""
  }

  /**
   * The `link` parameter, decoded and parsed: without one the path is
   * `/default` and there are no parameters (the URL is `about:blank`); a
   * decode failure, a parse failure and a root or empty path are answered
   * before any lookup.
   */
  function ParseRequest(encodedLink: Option<string>, codec: UrlCodec): (r: Result<Requested, HttpError>)
    ensures !LinkGiven(encodedLink) ==> r == Success(Requested(DefaultPath, []))
    ensures LinkGiven(encodedLink) && codec.decodeComponent(encodedLink.value).None? ==>
      r == Failure(HttpError(400, "Invalid URL encoding"))
    ensures LinkGiven(encodedLink) && codec.decodeComponent(encodedLink.value).Some? ==>
      var parsed := codec.parse(codec.decodeComponent(encodedLink.value).value);
      && (parsed.None? ==> r == Failure(HttpError(400, "Invalid URL format")))
      && (parsed.Some? && (parsed.value.pathname == "/" || parsed.value.pathname == "") ==>
            r == Failure(HttpError(404, "Campaign not found")))
      && (parsed.Some? && parsed.value.pathname != "/" && parsed.value.pathname != "" ==>
            r == Success(Requested(parsed.value.pathname, parsed.value.params)))
    ensures r.Success? ==> r.value.linkPath != "/" && r.value.linkPath != ""
  {
    if !LinkGiven(encodedLink) then Success(Requested(DefaultPath, []))
    else
      match codec.decodeComponent(encodedLink.value)
      case None => Failure(HttpError(400, "Invalid URL encoding"))
      case Some(decodedLink) =>
        match codec.parse(decodedLink)
        case None => Failure(HttpError(400, "Invalid URL format"))
        case Some(url) =>
          if url.pathname == "/" || url.pathname == "" then Failure(HttpError(404, "Campaign not found"))
          else Success(Requested(url.pathname, url.params))
  }

  /**
   * The registered link for the path: a miss and a link without a follow
   * link (absent or empty) both answer 404, with different texts.
   */
  function LookupCampaign(links: seq<LinkDoc>, linkPath: string): (r: Result<LinkDoc, HttpError>)
    ensures r == Failure(HttpError(404, "Campaign not found")) <==> forall d :: d in links ==> d.data.path != linkPath
    ensures r == Failure(HttpError(404, "Campaign has no follow link")) <==>
      exists d :: d in links && d.data.path == linkPath && FindDynamicLinkByPath(links, linkPath) == Some(d)
        && (d.data.followLink.None? || d.data.followLink == Some(""))
    ensures r.Success? ==>
      && r.value.data.path == linkPath
      && FindDynamicLinkByPath(links, linkPath) == Some(r.value)
      && r.value.data.followLink.Some? && r.value.data.followLink.value != ""
  {
    match FindDynamicLinkByPath(links, linkPath)
    case None => Failure(HttpError(404, "Campaign not found"))
    case Some(linkResult) =>
      if linkResult.data.followLink.None? || linkResult.data.followLink == Some("") then
        Failure(HttpError(404, "Campaign has no follow link"))
      else Success(linkResult)
  }

  /** `'true'` counts a first-open intent, `'false'` a reopen, anything else nothing. */
  function TrackingFor(firstCampaignOpen: Option<string>): (t: Tracking)
    ensures t == FirstOpenIntent <==> firstCampaignOpen == Some("true")
    ensures t == ReopenVisit <==> firstCampaignOpen == Some("false")
  {
    if firstCampaignOpen == Some("true") then FirstOpenIntent
    else if firstCampaignOpen == Some("false") then ReopenVisit
    else NoTracking
  }

  /** The follow link's parameters after setting, in request order, every `utm_` parameter of the request. */
  function CopyUtm(requested: seq<Param>, follow: seq<Param>): seq<Param> {
    if requested == [] then follow
    else
      var p := requested[0];
      CopyUtm(requested[1..], if StartsWith(p.key, UtmPrefix) then SetParam(follow, p.key, p.value) else follow)
  }

  function Last(vs: seq<string>): string
    requires vs != []
  {
    vs[|vs| - 1]
  }

  /**
   * After the copy, a `utm_` key of the request holds exactly the request's
   * last value for it, overwriting the follow link's own; every other key
   * holds what the follow link held.
   */
  lemma {:induction false} CopyUtmValues(requested: seq<Param>, follow: seq<Param>, k: string)
    ensures ValuesOf(CopyUtm(requested, follow), k) ==
      if StartsWith(k, UtmPrefix) && ValuesOf(requested, k) != [] then [Last(ValuesOf(requested, k))]
      else ValuesOf(follow, k)
  {
    if requested != [] {
      var p := requested[0];
      var next := if StartsWith(p.key, UtmPrefix) then SetParam(follow, p.key, p.value) else follow;
      CopyUtmValues(requested[1..], next, k);
      var rest := ValuesOf(requested[1..], k);
      assert ValuesOf(requested, k) == (if p.key == k then [p.value] else []) + rest;
      if rest != [] {
        assert Last(ValuesOf(requested, k)) == Last(rest);
      }
    }
  }

  /** The copy never sets a parameter whose key lacks the `utm_` prefix. */
  lemma NonUtmUntouched(requested: seq<Param>, follow: seq<Param>, k: string)
    requires !StartsWith(k, UtmPrefix)
    ensures ValuesOf(CopyUtm(requested, follow), k) == ValuesOf(follow, k)
  {
    CopyUtmValues(requested, follow, k);
  }

  /** The loop over the request's entries, setting each `utm_` one on the follow link's parameters in place. */
  method CopyUtmParams(requested: seq<Param>, follow: seq<Param>) returns (params: seq<Param>)
    ensures params == CopyUtm(requested, follow)
  {
    params := follow;
    for i := 0 to |requested|
      invariant CopyUtm(requested[i..], params) == CopyUtm(requested, follow)
    {
      assert requested[i..][0] == requested[i] && requested[i..][1..] == requested[i + 1..];
      var key, value := requested[i].key, requested[i].value;
      if StartsWith(key, UtmPrefix) {
        params := SetParam(params, key, value);
      }
    }
    assert requested[|requested|..] == [];
  }

  /**
   * `private_v1_get_campaign`: parse the request, look the path up, count
   * the visit, then answer the follow link with the `utm_` parameters. A
   * failed query or an unparsable follow link answers 500, the latter after
   * the visit was counted. Only a reopen is counted in the four-counter
   * store; a first-open intent is decided but has no counter there.
   */
  method GetCampaign(
    store: AnalyticsStore, links: seq<LinkDoc>, encodedLink: Option<string>, firstCampaignOpen: Option<string>,
    codec: UrlCodec, today: string, queryOk: bool, trackOk: bool)
    returns (status: int, body: string, log: seq<Logging.LogEntry>)
    modifies store
    ensures var req := ParseRequest(encodedLink, codec);
      && (req.Failure? ==> status == req.error.status && body == req.error.error && store.days == old(store.days))
      && (req.Success? && !queryOk ==> status == 500 && body == "Internal server error" && store.days == old(store.days))
      && (req.Success? && queryOk && LookupCampaign(links, req.value.linkPath).Failure? ==>
            var e := LookupCampaign(links, req.value.linkPath).error;
            status == e.status && body == e.error && store.days == old(store.days))
    ensures var req := ParseRequest(encodedLink, codec);
      req.Success? && queryOk && LookupCampaign(links, req.value.linkPath).Success? ==>
        var linkResult := LookupCampaign(links, req.value.linkPath).value;
        var key := (linkResult.id, today);
        && store.days == (if TrackingFor(firstCampaignOpen) == ReopenVisit && trackOk
                          then old(store.days)[key := old(store.Tracked(linkResult.id, Reopen, today))]
                          else old(store.days))
        && var followLinkUrl := codec.parse(linkResult.data.followLink.value);
           && (followLinkUrl.None? ==> status == 500 && body == "Internal server error")
           && (followLinkUrl.Some? ==>
                 status == 200 &&
                 body == codec.format(followLinkUrl.value.(params := CopyUtm(req.value.params, followLinkUrl.value.params))))
  {
    var req := ParseRequest(encodedLink, codec);
    if req.Failure? {
      return req.error.status, req.error.error, [];
    }
    var linkPath := req.value.linkPath;
    if !queryOk {
      return 500, "Internal server error", [Logging.LogEntry(Logging.Error, "Error in v1_get_campaign:")];
    }
    var linkResult := LookupCampaign(links, linkPath);
    if linkResult.Failure? {
      return linkResult.error.status, linkResult.error.error, [];
    }
    var linkDoc := linkResult.value;
    log := [];
    if TrackingFor(firstCampaignOpen) == ReopenVisit {
      log := store.TrackLinkAnalytics(linkDoc.id, Reopen, today, trackOk);
    }
    var followLinkUrl := codec.parse(linkDoc.data.followLink.value);
    if followLinkUrl.None? {
      return 500, "Internal server error", log + [Logging.LogEntry(Logging.Error, "Error in v1_get_campaign:")];
    }
    var params := CopyUtmParams(req.value.params, followLinkUrl.value.params);
    status, body := 200, codec.format(followLinkUrl.value.(params := params));
  }

  /** Without a `link` parameter the default campaign is looked up and nothing is added to its follow link. */
  lemma DefaultCampaign(encodedLink: Option<string>, codec: UrlCodec, follow: seq<Param>)
    requires !LinkGiven(encodedLink)
    ensures ParseRequest(encodedLink, codec) == Success(Requested(DefaultPath, []))
    ensures CopyUtm(ParseRequest(encodedLink, codec).value.params, follow) == follow
  {
  }
}
