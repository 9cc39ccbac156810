/**
 * The install records collection and the module-level cleanup counter as
 * one object: the pre-install save, the retention sweep it triggers on
 * every tenth call, and the post-install handler that consumes a match.
 */
module InstallStore {
  import opened Wrappers
  import opened Urls
  import Logging
  import opened InstallTypes
  import opened Records
  import opened SearchTypes
  import opened PostInstall

  const SweepMinutes := 30
  const SweepBatchLimit := 100
  const SweepEvery := 10

  /** The records created strictly before `cutoff`, in store order. */
  function OldRecords(docs: seq<Doc>, cutoff: Timestamp): (stale: seq<Doc>)
    ensures forall d :: d in stale <==> d in docs && Before(d.data.createdAt, cutoff)
    ensures |stale| <= |docs|
  {
    if docs == [] then []
    else
      var rest := OldRecords(docs[1..], cutoff);
      assert forall d :: d in docs <==> d == docs[0] || d in docs[1..];
      (if Before(docs[0].data.createdAt, cutoff) then [docs[0]] else []) + rest
  }

  /** `where('createdAt', '<', cutoff).limit(limit)`: at most `limit` old records, taken in store order. */
  function OldRecordsQuery(docs: seq<Doc>, cutoff: Timestamp, limit: nat): (batch: seq<Doc>)
    ensures |batch| <= limit
    ensures forall d :: d in batch ==> d in docs && Before(d.data.createdAt, cutoff)
    ensures |OldRecords(docs, cutoff)| <= limit ==> batch == OldRecords(docs, cutoff)
    ensures |OldRecords(docs, cutoff)| > limit ==> |batch| == limit
  {
    var stale := OldRecords(docs, cutoff);
    if |stale| <= limit then stale else stale[..limit]
  }

  function Ids(docs: seq<Doc>): (ids: seq<string>)
    ensures |ids| == |docs|
    ensures forall i :: 0 <= i < |docs| ==> ids[i] == docs[i].id
  {
    if docs == [] then [] else [docs[0].id] + Ids(docs[1..])
  }

  /** A committed batch of deletes: every listed id is removed. */
  function RemoveIds(docs: seq<Doc>, ids: seq<string>): (r: seq<Doc>)
    ensures forall d :: d in r <==> d in docs && d.id !in ids
    ensures DistinctIds(docs) ==> DistinctIds(r)
    decreases |ids|
  {
    if ids == [] then docs else RemoveIds(RemoveId(docs, ids[0]), ids[1..])
  }

  /** With distinct ids, a batch of `n` ids removes at most `n` records. */
  lemma {:induction false} RemoveIdsCount(docs: seq<Doc>, ids: seq<string>)
    requires DistinctIds(docs)
    ensures |RemoveIds(docs, ids)| >= |docs| - |ids|
    decreases |ids|
  {
    if ids != [] {
      RemoveIdCount(docs, ids[0]);
      RemoveIdsCount(RemoveId(docs, ids[0]), ids[1..]);
    }
  }

  /** The store after one successful sweep with the given cutoff. */
  function Swept(docs: seq<Doc>, cutoff: Timestamp): seq<Doc> {
    RemoveIds(docs, Ids(OldRecordsQuery(docs, cutoff, SweepBatchLimit)))
  }

  /** The sweep's cutoff: `minutes` before `nowMillis`. */
  function Cutoff(nowMillis: int, minutes: int): Timestamp {
    FromMillis(nowMillis - minutes * 60 * 1000)
  }

  /**
   * A sweep deletes at most 100 records, all created before the cutoff; it
   * keeps every newer record; and when at most 100 records are old it leaves
   * none behind.
   */
  lemma SweepBounds(docs: seq<Doc>, cutoff: Timestamp)
    requires DistinctIds(docs)
    ensures |Swept(docs, cutoff)| >= |docs| - SweepBatchLimit
    ensures forall d :: d in Swept(docs, cutoff) ==> d in docs
    ensures forall d :: d in docs && !Before(d.data.createdAt, cutoff) ==> d in Swept(docs, cutoff)
    ensures |OldRecords(docs, cutoff)| <= SweepBatchLimit ==>
      forall d :: d in Swept(docs, cutoff) ==> !Before(d.data.createdAt, cutoff)
  {
    var batch := OldRecordsQuery(docs, cutoff, SweepBatchLimit);
    var ids := Ids(batch);
    RemoveIdsCount(docs, ids);
    if |OldRecords(docs, cutoff)| <= SweepBatchLimit {
      forall d | d in docs && Before(d.data.createdAt, cutoff)
        ensures d.id in ids
      {
        assert d in batch;
        var i :| 0 <= i < |batch| && batch[i] == d;
        assert ids[i] == d.id;
      }
    }
  }

  /** The number of calls among `start + 1 .. start + n` on which the sweep runs. */
  function SweepsRun(start: nat, n: nat): nat {
    if n == 0 then 0 else SweepsRun(start, n - 1) + (if (start + n) % SweepEvery == 0 then 1 else 0)
  }

  /** From a fresh counter, `n` calls run the sweep `n / 10` times. */
  lemma {:induction false} SweepsFromZero(n: nat)
    ensures SweepsRun(0, n) == n / SweepEvery
  {
    if n > 0 {
      SweepsFromZero(n - 1);
      assert (n - 1) / 10 + (if n % 10 == 0 then 1 else 0) == n / 10;
    }
  }

  /** The log line of a failed `removeFoundPostInstall`. */
  function DeleteFailed(uuid: string): Logging.LogEntry {
    Logging.LogEntry(Logging.Error, "Document " + uuid + " not found in records when trying removeFoundPostInstall")
  }

  class InstallRecords {
    /** `_traceback_/installs/records`. */
    var records: seq<Doc>
    /** The module-level `cleanupCount`. */
    var cleanupCount: int
    /** How many times the retention sweep has run (successful or not). */
    ghost var sweeps: nat

    ghost predicate Valid()
      reads this
    {
      && DistinctIds(records)
      && 0 <= cleanupCount
      && sweeps == SweepsRun(0, cleanupCount)
    }

    constructor (initial: seq<Doc>)
      requires DistinctIds(initial)
      ensures records == initial && cleanupCount == 0 && sweeps == 0
      ensures Valid()
    {
      records := initial;
      cleanupCount := 0;
      sweeps := 0;
    }

    /** `removeFoundPostInstall`: one delete; a failed delete is logged and leaves the store as it was. */
    method RemoveFoundPostInstall(uuid: string, deleteOk: bool) returns (log: seq<Logging.LogEntry>)
      requires Valid()
      modifies this
      ensures Valid()
      ensures records == if deleteOk then RemoveId(old(records), uuid) else old(records)
      ensures cleanupCount == old(cleanupCount) && sweeps == old(sweeps)
      ensures log == if deleteOk then [] else
        [DeleteFailed(uuid)]
    {
      if deleteOk {
        records := RemoveId(records, uuid);
        log := [];
      } else {
        log := [DeleteFailed(uuid)];
      }
    }

    /**
     * `deleteOldInstalls`: the query takes up to 100 records created before
     * the cutoff, one delete per record is added to a batch, and the batch is
     * committed; a failed commit changes nothing.
     */
    method DeleteOldInstalls(minutes: int, nowMillis: int, commitOk: bool)
      requires Valid()
      modifies this
      ensures Valid()
      ensures records == if commitOk then Swept(old(records), Cutoff(nowMillis, minutes)) else old(records)
      ensures cleanupCount == old(cleanupCount) && sweeps == old(sweeps)
    {
      var cutoff := Cutoff(nowMillis, minutes);
      var snapshot := OldRecordsQuery(records, cutoff, SweepBatchLimit);
      if snapshot == [] {
        assert RemoveIds(records, Ids(snapshot)) == records;
        return;
      }
      var batch: seq<string> := [];
      for i := 0 to |snapshot|
        invariant batch == Ids(snapshot[..i])
        invariant records == old(records) && cleanupCount == old(cleanupCount) && sweeps == old(sweeps)
      {
        assert snapshot[..i + 1] == snapshot[..i] + [snapshot[i]];
        IdsAppend(snapshot[..i], snapshot[i]);
        batch := batch + [snapshot[i].id];
      }
      assert snapshot[..|snapshot|] == snapshot;
      if commitOk {
        records := RemoveIds(records, batch);
      }
    }

    /**
     * `oldInstallsMaintenance`: the counter goes up on every call and the
     * 30-minute sweep runs when it reaches a multiple of 10; a failed sweep is
     * logged and does not fail the caller.
     */
    method OldInstallsMaintenance(nowMillis: int, commitOk: bool) returns (log: seq<Logging.LogEntry>)
      requires Valid()
      modifies this
      ensures Valid()
      ensures cleanupCount == old(cleanupCount) + 1
      ensures sweeps == old(sweeps) + (if cleanupCount % SweepEvery == 0 then 1 else 0)
      ensures sweeps == cleanupCount / SweepEvery
      ensures records ==
        if cleanupCount % SweepEvery == 0 && commitOk then Swept(old(records), Cutoff(nowMillis, SweepMinutes))
        else old(records)
      ensures log == if cleanupCount % SweepEvery == 0 && !commitOk then
        [Logging.LogEntry(Logging.Error, "Failed to delete old installs during this call")] else []
    {
      cleanupCount := cleanupCount + 1;
      SweepsFromZero(cleanupCount);
      if cleanupCount % SweepEvery != 0 {
        return [];
      }
      sweeps := sweeps + 1;
      DeleteOldInstalls(SweepMinutes, nowMillis, commitOk);
      log := if commitOk then [] else [Logging.LogEntry(Logging.Error, "Failed to delete old installs during this call")];
    }

    /**
     * `private_v1_preinstall_save_link` after validation (None stands for a
     * payload the schema rejects): the record is the heuristics, the creation
     * time and the client IP when there is one, stored under the new id; the
     * maintenance step follows a successful write. Answers 400, 500 or 200.
     */
    method PreinstallSaveLink(
      heuristics: Option<DeviceHeuristics>, forwardedFor: Option<string>, remoteAddress: Option<string>,
      installId: string, nowMillis: int, sweepMillis: int, writeOk: bool, commitOk: bool)
      returns (status: int, savedId: Option<string>, log: seq<Logging.LogEntry>)
      requires Valid()
      modifies this
      ensures Valid()
      ensures heuristics.None? ==>
        status == 400 && savedId.None? && records == old(records) && cleanupCount == old(cleanupCount) && sweeps == old(sweeps)
      ensures heuristics.Some? && !writeOk ==>
        status == 500 && savedId.None? && records == old(records) && cleanupCount == old(cleanupCount) && sweeps == old(sweeps)
      ensures heuristics.Some? && writeOk ==>
        && status == 200 && savedId == Some(installId)
        && cleanupCount == old(cleanupCount) + 1
        && sweeps == old(sweeps) + (if cleanupCount % SweepEvery == 0 then 1 else 0)
        && var saved := SetDoc(old(records), installId,
             SavedDeviceHeuristics(heuristics.value, FromMillis(nowMillis), ClientIp(forwardedFor, remoteAddress)));
           records == if cleanupCount % SweepEvery == 0 && commitOk then Swept(saved, Cutoff(sweepMillis, SweepMinutes)) else saved
    {
      if heuristics.None? {
        return 400, None, [];
      }
      var ip := ClientIp(forwardedFor, remoteAddress);
      var payload := SavedDeviceHeuristics(heuristics.value, FromMillis(nowMillis), ip);
      if !writeOk {
        return 500, None, [Logging.LogEntry(Logging.Error, "Error saving device heuristics:")];
      }
      records := SetDoc(records, installId, payload);
      log := OldInstallsMaintenance(sweepMillis, commitOk);
      status, savedId := 200, Some(installId);
    }

    /**
     * `private_v1_postinstall_search_link` after validation (None stands for a
     * payload the schema rejects): search, log every event, consume the found
     * record, answer. A failed read of the store answers 500.
     */
    method PostinstallSearchLink(
      fingerprint: Option<DeviceFingerprint>, forwardedFor: Option<string>, remoteAddress: Option<string>,
      userAgentHeader: Option<string>, codec: UrlCodec, readOk: bool, deleteOk: bool)
      returns (status: int, response: Option<MatchResponse>, log: seq<Logging.LogEntry>)
      requires Valid()
      modifies this
      ensures Valid()
      ensures cleanupCount == old(cleanupCount) && sweeps == old(sweeps)
      ensures fingerprint.None? ==> status == 400 && response.None? && records == old(records)
      ensures fingerprint.Some? && !readOk ==> status == 500 && response.None? && records == old(records)
      ensures fingerprint.Some? && readOk ==>
        var result := SearchPostInstall(old(records), fingerprint.value, ClientIp(forwardedFor, remoteAddress),
                                        UserAgentHeader(userAgentHeader), codec);
        && status == 200
        && response == Some(BuildResponse(result, fingerprint.value))
        && records == (if result.uuld.Some? && deleteOk then RemoveId(old(records), result.uuld.value) else old(records))
        && |log| == |result.analytics| + (if result.uuld.Some? && !deleteOk then 1 else 0)
        && (forall i :: 0 <= i < |result.analytics| ==>
              log[i] == Logging.LogEntry(HandlerSeverity(result.analytics[i].kind),
                                         TypeName(result.analytics[i].kind) + ": " + result.analytics[i].message))
        && (result.uuld.Some? && !deleteOk ==> log[|log| - 1] == DeleteFailed(result.uuld.value))
        && (result.uuld.Some? && deleteOk ==> !HasId(records, result.uuld.value) && |records| == |old(records)| - 1)
    {
      if fingerprint.None? {
        return 400, None, [];
      }
      if !readOk {
        return 500, None, [Logging.LogEntry(Logging.Error, "Error matching fingerprint:")];
      }
      var fp := fingerprint.value;
      var result := SearchPostInstall(records, fp, ClientIp(forwardedFor, remoteAddress), UserAgentHeader(userAgentHeader), codec);
      var analyticsLog := LogAnalytics(result.analytics);
      var deleteLog := ConsumeFound(result.uuld, result.foundEntry, deleteOk);
      log := analyticsLog + deleteLog;
      status, response := 200, Some(BuildResponse(result, fp));
    }

    /** Step 3 of the handler: the found record, when there is one, is removed. */
    method ConsumeFound(uuld: Option<string>, foundEntry: Option<SavedDeviceHeuristics>, deleteOk: bool)
      returns (log: seq<Logging.LogEntry>)
      requires Valid()
      requires uuld.Some? ==> foundEntry.Some? && Doc(uuld.value, foundEntry.value) in records
      modifies this
      ensures Valid()
      ensures cleanupCount == old(cleanupCount) && sweeps == old(sweeps)
      ensures records == if uuld.Some? && deleteOk then RemoveId(old(records), uuld.value) else old(records)
      ensures log == if uuld.Some? && !deleteOk then [DeleteFailed(uuld.value)] else []
      ensures uuld.Some? && deleteOk ==> !HasId(records, uuld.value) && |records| == |old(records)| - 1
    {
      if uuld.None? {
        return [];
      }
      var uuid := uuld.value;
      assert HasId(records, uuid) by {
        var a :| 0 <= a < |records| && records[a] == Doc(uuid, foundEntry.value);
      }
      RemoveIdCount(records, uuid);
      log := RemoveFoundPostInstall(uuid, deleteOk);
    }
  }

  lemma {:induction false} IdsAppend(docs: seq<Doc>, d: Doc)
    ensures Ids(docs + [d]) == Ids(docs) + [d.id]
  {
    var l := Ids(docs + [d]);
    var r := Ids(docs) + [d.id];
    assert |l| == |r|;
    forall i | 0 <= i < |l|
      ensures l[i] == r[i]
    {
      assert (docs + [d])[i] == if i < |docs| then docs[i] else d;
    }
  }
}
