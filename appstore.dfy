/**
 * The in-process App Store lookup cache: one entry per bundle id and
 * country, kept for 24 hours. The lookup's HTTP answer is a parameter.
 */
module AppStore {
  import opened Wrappers
  import opened Text

  const TtlMillis := 24 * 60 * 60 * 1000

  datatype AppStoreInfo = AppStoreInfo(trackName: string, description: string, trackId: string, artworkUrl100: string)

  datatype CacheEntry = CacheEntry(data: AppStoreInfo, expiresAt: int)

  /** What the lookup request gave: an error, or the `results` list of its answer. */
  datatype FetchOutcome = FetchFailed | Fetched(results: seq<AppStoreInfo>)

  /** `${bundleId}_${country}`. */
  function CacheKey(bundleId: string, country: string): string {
    bundleId + "_" + country
  }

  /** Without `_` in the bundle id, the first `_` of the key is the separator. */
  lemma KeySeparator(b: string, c: string)
    requires '_' !in b
    ensures IndexOf(CacheKey(b, c), '_') == |b|
  {
    IndexOfAfterPrefix(b, '_', c);
  }

  /** Bundle ids without `_` (as the App Store issues them) never share a cache key for different requests. */
  lemma CacheKeyInjective(b1: string, c1: string, b2: string, c2: string)
    requires '_' !in b1 && '_' !in b2
    ensures CacheKey(b1, c1) == CacheKey(b2, c2) <==> b1 == b2 && c1 == c2
  {
    if CacheKey(b1, c1) == CacheKey(b2, c2) {
      var k1, k2 := CacheKey(b1, c1), CacheKey(b2, c2);
      KeySeparator(b1, c1);
      KeySeparator(b2, c2);
      assert b1 == k1[..|b1|] && b2 == k2[..|b2|];
      assert c1 == k1[|b1| + 1..] && c2 == k2[|b2| + 1..];
    }
  }

  /** With an `_` in the bundle id two different requests can share a key. */
  lemma CacheKeyCollision()
    ensures CacheKey("a_b", "c") == CacheKey("a", "b_c")
  {
  }

  /** The cached answer for `key` at time `now`: present only while the entry has not expired. */
  function CachedAt(entries: map<string, CacheEntry>, key: string, now: int): (r: Option<AppStoreInfo>)
    ensures r.Some? <==> key in entries && entries[key].expiresAt > now
    ensures r.Some? ==> r.value == entries[key].data
  {
    if key in entries && entries[key].expiresAt > now then Some(entries[key].data) else None
  }

  /** A stored answer is served for exactly the next 24 hours. */
  lemma StoredEntryLifetime(entries: map<string, CacheEntry>, key: string, info: AppStoreInfo, stored: int, t: int)
    requires t >= stored
    ensures var e := entries[key := CacheEntry(info, stored + TtlMillis)];
      CachedAt(e, key, t) == (if t < stored + TtlMillis then Some(info) else None)
  {
  }

  class AppStoreCache {
    /** The module-level `appStoreCache` record. */
    var entries: map<string, CacheEntry>

    constructor ()
      ensures entries == map[]
    {
      entries := map[];
    }

    /**
     * `getAppStoreInfo` at time `now`: a live entry is answered without a
     * lookup; otherwise the first lookup result is stored for 24 hours and
     * answered, and an empty or failed lookup answers None and stores
     * nothing.
     */
    method GetAppStoreInfo(bundleId: string, country: string, now: int, fetch: FetchOutcome)
      returns (info: Option<AppStoreInfo>)
      modifies this
      ensures var key := CacheKey(bundleId, country);
        if CachedAt(old(entries), key, now).Some? then
          info == CachedAt(old(entries), key, now) && entries == old(entries)
        else if fetch.Fetched? && |fetch.results| > 0 then
          info == Some(fetch.results[0]) && entries == old(entries)[key := CacheEntry(fetch.results[0], now + TtlMillis)]
        else
          info.None? && entries == old(entries)
    {
      var cacheKey := CacheKey(bundleId, country);
      if cacheKey in entries && entries[cacheKey].expiresAt > now {
        return Some(entries[cacheKey].data);
      }
      if fetch.FetchFailed? || |fetch.results| == 0 {
        return None;
      }
      var appInfo := fetch.results[0];
      entries := entries[cacheKey := CacheEntry(appInfo, now + TtlMillis)];
      info := Some(appInfo);
    }
  }
}
