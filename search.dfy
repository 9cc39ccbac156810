/**
 * The two searches of the post-install handler over the records
 * collection: the scored heuristic scan and the exact clipboard lookup
 * with its fallback by `_tracebackid` document id.
 */
module Search {
  import opened Wrappers
  import opened Urls
  import opened InstallTypes
  import opened Records
  import opened Scoring
  import opened SearchTypes
  import opened Ranking

  const HeuristicsNotFoundText := "no match found with heuristics search"
  const MultipleHeuristicsText := "Multiple heuristics matches"
  const NoTracebackIdText := "no match found with pasteboard content, and could not find _tracebackid in url"
  const NoDocumentByIdText := "no match found with pasteboard content neither by using dark launch _tracebackid"
  const MultiplePasteboardText := "Multiple matches found with pasteboard content"
  const TracebackIdKey := "_tracebackid"
  const LinkKey := "link"

  /** A stored record scored against the app's fingerprint. */
  function Scored(fp: DeviceFingerprint, ip: Option<string>, userAgent: Option<string>, d: Doc): MatchResult {
    MatchResult(d.data, FindMatchingInstall(fp, ip, userAgent, d.data), d.id)
  }

  /**
   * The filter of the heuristic scan: a positive score, and a record created
   * less than 30 seconds after the app's install time. The install time is
   * subtracted as given, with no unit conversion.
   */
  predicate Eligible(fp: DeviceFingerprint, m: MatchResult) {
    m.score > 0 && fp.appInstallationTime - m.entry.createdAt.seconds > -30
  }

  /** A stored record that passes the filter of the heuristic scan. */
  predicate IsCandidate(fp: DeviceFingerprint, ip: Option<string>, userAgent: Option<string>, d: Doc) {
    Eligible(fp, Scored(fp, ip, userAgent, d))
  }

  /** Every stored record scored against the fingerprint, in store order. */
  function ScoredAll(fp: DeviceFingerprint, ip: Option<string>, userAgent: Option<string>, docs: seq<Doc>): (ms: seq<MatchResult>)
    ensures |ms| == |docs|
  {
    if docs == [] then [] else [Scored(fp, ip, userAgent, docs[0])] + ScoredAll(fp, ip, userAgent, docs[1..])
  }

  /** The i-th scored record is the i-th stored record, scored. */
  lemma {:induction false} ScoredAt(fp: DeviceFingerprint, ip: Option<string>, userAgent: Option<string>, docs: seq<Doc>, i: nat)
    requires i < |docs|
    ensures ScoredAll(fp, ip, userAgent, docs)[i] == Scored(fp, ip, userAgent, docs[i])
  {
    if i == 0 {
      ScoredHead(fp, ip, userAgent, docs);
    } else {
      ScoredTail(fp, ip, userAgent, docs, i);
      ScoredAt(fp, ip, userAgent, docs[1..], i - 1);
      assert docs[1..][i - 1] == docs[i];
    }
  }

  /** The first scored record is the first stored record, scored. */
  lemma ScoredHead(fp: DeviceFingerprint, ip: Option<string>, userAgent: Option<string>, docs: seq<Doc>)
    requires docs != []
    ensures ScoredAll(fp, ip, userAgent, docs)[0] == Scored(fp, ip, userAgent, docs[0])
  {
  }

  /** Past the first, the scored records are those of the rest of the store. */
  lemma ScoredTail(fp: DeviceFingerprint, ip: Option<string>, userAgent: Option<string>, docs: seq<Doc>, i: nat)
    requires 0 < i < |docs|
    ensures ScoredAll(fp, ip, userAgent, docs)[i] == ScoredAll(fp, ip, userAgent, docs[1..])[i - 1]
  {
  }

  /** The scored records that pass the filter, in order. */
  function EligibleOf(fp: DeviceFingerprint, ms: seq<MatchResult>): (c: seq<MatchResult>)
    ensures forall m :: m in c ==> Eligible(fp, m)
  {
    if ms == [] then []
    else (if Eligible(fp, ms[0]) then [ms[0]] else []) + EligibleOf(fp, ms[1..])
  }

  /** The scored records that pass the filter, in store order. */
  function Candidates(fp: DeviceFingerprint, ip: Option<string>, userAgent: Option<string>, docs: seq<Doc>): seq<MatchResult> {
    EligibleOf(fp, ScoredAll(fp, ip, userAgent, docs))
  }

  /** The filter keeps exactly the eligible scored records, and no more of them than it is given. */
  lemma {:induction false} EligibleOfMembers(fp: DeviceFingerprint, ms: seq<MatchResult>)
    ensures |EligibleOf(fp, ms)| <= |ms|
    ensures forall m :: m in EligibleOf(fp, ms) <==> m in ms && Eligible(fp, m)
  {
    if ms != [] {
      EligibleOfMembers(fp, ms[1..]);
      assert forall m :: m in ms <==> m == ms[0] || m in ms[1..];
    }
  }

  /**
   * Every stored record that passes the filter is a candidate with its score,
   * and every candidate is such a stored record scored against the fingerprint.
   */
  lemma CandidatesMembers(fp: DeviceFingerprint, ip: Option<string>, userAgent: Option<string>, docs: seq<Doc>)
    ensures var c := Candidates(fp, ip, userAgent, docs);
      && |c| <= |docs|
      && (forall d :: d in docs && IsCandidate(fp, ip, userAgent, d) ==> Scored(fp, ip, userAgent, d) in c)
      && forall m :: m in c ==>
        && Eligible(fp, m)
        && Doc(m.uuid, m.entry) in docs
        && m.score == FindMatchingInstall(fp, ip, userAgent, m.entry)
  {
    var ms := ScoredAll(fp, ip, userAgent, docs);
    var c := Candidates(fp, ip, userAgent, docs);
    EligibleOfMembers(fp, ms);
    forall d | d in docs && IsCandidate(fp, ip, userAgent, d)
      ensures Scored(fp, ip, userAgent, d) in c
    {
      var i :| 0 <= i < |docs| && docs[i] == d;
      ScoredAt(fp, ip, userAgent, docs, i);
      assert ms[i] in ms;
    }
    forall m | m in c
      ensures Doc(m.uuid, m.entry) in docs && m.score == FindMatchingInstall(fp, ip, userAgent, m.entry)
    {
      var i :| 0 <= i < |ms| && ms[i] == m;
      ScoredAt(fp, ip, userAgent, docs, i);
      assert Doc(m.uuid, m.entry) == docs[i];
    }
  }

  /** The positions, counted from `base`, of the eligible scored records. */
  function EligiblePositionsFrom(fp: DeviceFingerprint, ms: seq<MatchResult>, base: nat): seq<nat> {
    if ms == [] then []
    else (if Eligible(fp, ms[0]) then [base] else []) + EligiblePositionsFrom(fp, ms[1..], base + 1)
  }

  /** The store positions of the records that pass the filter. */
  function CandidatePositions(fp: DeviceFingerprint, ip: Option<string>, userAgent: Option<string>, docs: seq<Doc>): seq<nat> {
    EligiblePositionsFrom(fp, ScoredAll(fp, ip, userAgent, docs), 0)
  }

  /** One step of `EligiblePositionsFrom` at index `i`. */
  lemma EligiblePositionsFromStep(fp: DeviceFingerprint, ms: seq<MatchResult>, base: nat, i: nat)
    requires ms != [] && i < |EligiblePositionsFrom(fp, ms, base)|
    ensures var pos := EligiblePositionsFrom(fp, ms, base);
      var rest := EligiblePositionsFrom(fp, ms[1..], base + 1);
      if Eligible(fp, ms[0]) then
        (i == 0 ==> pos[i] == base) && (i > 0 ==> i - 1 < |rest| && pos[i] == rest[i - 1])
      else i < |rest| && pos[i] == rest[i]
  {
    var rest := EligiblePositionsFrom(fp, ms[1..], base + 1);
    var head: seq<nat> := if Eligible(fp, ms[0]) then [base] else [];
    assert EligiblePositionsFrom(fp, ms, base) == head + rest;
  }

  /** Each eligible position lies within the sequence. */
  lemma {:induction false} EligiblePositionInRange(fp: DeviceFingerprint, ms: seq<MatchResult>, base: nat, i: nat)
    requires i < |EligiblePositionsFrom(fp, ms, base)|
    ensures base <= EligiblePositionsFrom(fp, ms, base)[i] < base + |ms|
  {
    EligiblePositionsFromStep(fp, ms, base, i);
    if Eligible(fp, ms[0]) {
      if i > 0 {
        EligiblePositionInRange(fp, ms[1..], base + 1, i - 1);
      }
    } else {
      EligiblePositionInRange(fp, ms[1..], base + 1, i);
    }
  }

  /** Eligible positions increase strictly with the index. */
  lemma {:induction false} EligiblePositionsOrdered(fp: DeviceFingerprint, ms: seq<MatchResult>, base: nat, i: nat, j: nat)
    requires i < j < |EligiblePositionsFrom(fp, ms, base)|
    ensures EligiblePositionsFrom(fp, ms, base)[i] < EligiblePositionsFrom(fp, ms, base)[j]
  {
    EligiblePositionsFromStep(fp, ms, base, i);
    EligiblePositionsFromStep(fp, ms, base, j);
    if Eligible(fp, ms[0]) {
      EligiblePositionInRange(fp, ms[1..], base + 1, j - 1);
      if i > 0 {
        EligiblePositionsOrdered(fp, ms[1..], base + 1, i - 1, j - 1);
      }
    } else {
      EligiblePositionsOrdered(fp, ms[1..], base + 1, i, j);
    }
  }

  /** Every eligible position is among the eligible positions. */
  lemma {:induction false} EligiblePositionsComplete(fp: DeviceFingerprint, ms: seq<MatchResult>, base: nat, k: nat)
    requires k < |ms| && Eligible(fp, ms[k])
    ensures base + k in EligiblePositionsFrom(fp, ms, base)
  {
    var head: seq<nat> := if Eligible(fp, ms[0]) then [base] else [];
    assert EligiblePositionsFrom(fp, ms, base) == head + EligiblePositionsFrom(fp, ms[1..], base + 1);
    if k > 0 {
      assert ms[1..][k - 1] == ms[k];
      EligiblePositionsComplete(fp, ms[1..], base + 1, k - 1);
    }
  }

  /** One step of `EligibleOf` at index `i`. */
  lemma EligibleOfStep(fp: DeviceFingerprint, ms: seq<MatchResult>, i: nat)
    requires ms != [] && i < |EligibleOf(fp, ms)|
    ensures var c := EligibleOf(fp, ms);
      var rc := EligibleOf(fp, ms[1..]);
      if Eligible(fp, ms[0]) then
        (i == 0 ==> c[i] == ms[0]) && (i > 0 ==> i - 1 < |rc| && c[i] == rc[i - 1])
      else i < |rc| && c[i] == rc[i]
  {
    var rc := EligibleOf(fp, ms[1..]);
    var head := if Eligible(fp, ms[0]) then [ms[0]] else [];
    assert EligibleOf(fp, ms) == head + rc;
  }

  /** There are as many eligible positions as records the filter keeps. */
  lemma {:induction false} EligibleCount(fp: DeviceFingerprint, ms: seq<MatchResult>, base: nat)
    ensures |EligiblePositionsFrom(fp, ms, base)| == |EligibleOf(fp, ms)|
  {
    if ms != [] {
      EligibleCount(fp, ms[1..], base + 1);
      var head: seq<nat> := if Eligible(fp, ms[0]) then [base] else [];
      var headc := if Eligible(fp, ms[0]) then [ms[0]] else [];
      assert EligiblePositionsFrom(fp, ms, base) == head + EligiblePositionsFrom(fp, ms[1..], base + 1);
      assert EligibleOf(fp, ms) == headc + EligibleOf(fp, ms[1..]);
    }
  }

  /** A first record the filter keeps is the one at the first eligible position. */
  lemma EligibleAtHead(fp: DeviceFingerprint, ms: seq<MatchResult>, base: nat)
    requires ms != [] && Eligible(fp, ms[0])
    ensures var pos := EligiblePositionsFrom(fp, ms, base);
      && 0 < |pos| && pos[0] == base
      && 0 < |EligibleOf(fp, ms)| && EligibleOf(fp, ms)[0] == ms[pos[0] - base]
  {
    var rest := EligiblePositionsFrom(fp, ms[1..], base + 1);
    assert EligiblePositionsFrom(fp, ms, base) == [base] + rest;
    assert EligibleOf(fp, ms) == [ms[0]] + EligibleOf(fp, ms[1..]);
  }

  /** Past the first kept record, the i-th one is found in the rest of the sequence. */
  lemma EligibleAtTail(fp: DeviceFingerprint, ms: seq<MatchResult>, base: nat, i: nat)
    requires ms != [] && i < |EligiblePositionsFrom(fp, ms, base)|
    requires Eligible(fp, ms[0]) ==> i > 0
    requires var j := if Eligible(fp, ms[0]) then i - 1 else i;
      var rest := EligiblePositionsFrom(fp, ms[1..], base + 1);
      && j < |rest| && base + 1 <= rest[j] < base + |ms|
      && j < |EligibleOf(fp, ms[1..])| && EligibleOf(fp, ms[1..])[j] == ms[1..][rest[j] - (base + 1)]
    ensures var pos := EligiblePositionsFrom(fp, ms, base);
      && base <= pos[i] < base + |ms|
      && i < |EligibleOf(fp, ms)|
      && EligibleOf(fp, ms)[i] == ms[pos[i] - base]
  {
    EligibleCount(fp, ms, base);
    EligiblePositionsFromStep(fp, ms, base, i);
    EligibleOfStep(fp, ms, i);
    var j := if Eligible(fp, ms[0]) then i - 1 else i;
    var r := EligiblePositionsFrom(fp, ms[1..], base + 1)[j];
    assert EligiblePositionsFrom(fp, ms, base)[i] == r;
    assert EligibleOf(fp, ms)[i] == EligibleOf(fp, ms[1..])[j];
    assert ms[1..][r - (base + 1)] == ms[r - base];
  }

  /** The i-th record the filter keeps is the one at the i-th eligible position. */
  lemma {:induction false} EligibleAt(fp: DeviceFingerprint, ms: seq<MatchResult>, base: nat, i: nat)
    requires i < |EligiblePositionsFrom(fp, ms, base)|
    ensures var pos := EligiblePositionsFrom(fp, ms, base);
      && base <= pos[i] < base + |ms|
      && i < |EligibleOf(fp, ms)|
      && EligibleOf(fp, ms)[i] == ms[pos[i] - base]
  {
    EligiblePositionInRange(fp, ms, base, i);
    if Eligible(fp, ms[0]) && i == 0 {
      EligibleAtHead(fp, ms, base);
    } else {
      EligiblePositionsFromStep(fp, ms, base, i);
      var j := if Eligible(fp, ms[0]) then i - 1 else i;
      EligibleAt(fp, ms[1..], base + 1, j);
      EligibleAtTail(fp, ms, base, i);
    }
  }

  /** The records the filter keeps are the ones at the eligible positions, in order. */
  lemma EligibleAtPositions(fp: DeviceFingerprint, ms: seq<MatchResult>, base: nat)
    ensures var c := EligibleOf(fp, ms);
      var pos := EligiblePositionsFrom(fp, ms, base);
      && |pos| == |c|
      && forall i :: 0 <= i < |pos| ==> base <= pos[i] < base + |ms| && c[i] == ms[pos[i] - base]
  {
    EligibleCount(fp, ms, base);
    var pos := EligiblePositionsFrom(fp, ms, base);
    forall i | 0 <= i < |pos|
      ensures base <= pos[i] < base + |ms| && EligibleOf(fp, ms)[i] == ms[pos[i] - base]
    {
      EligibleAt(fp, ms, base, i);
    }
  }

  /** Records taken from the scored sequence at given positions are those stored records, scored. */
  lemma ScoredAtPositions(fp: DeviceFingerprint, ip: Option<string>, userAgent: Option<string>, docs: seq<Doc>, c: seq<MatchResult>, pos: seq<nat>)
    requires |pos| == |c|
    requires forall i :: 0 <= i < |pos| ==> pos[i] < |docs| && c[i] == ScoredAll(fp, ip, userAgent, docs)[pos[i]]
    ensures forall i :: 0 <= i < |pos| ==> c[i] == Scored(fp, ip, userAgent, docs[pos[i]])
  {
    forall i | 0 <= i < |pos|
      ensures c[i] == Scored(fp, ip, userAgent, docs[pos[i]])
    {
      ScoredAt(fp, ip, userAgent, docs, pos[i]);
    }
  }

  /** The i-th candidate is the stored record at the i-th candidate position, scored. */
  lemma CandidatesAtPositions(fp: DeviceFingerprint, ip: Option<string>, userAgent: Option<string>, docs: seq<Doc>)
    ensures var c := Candidates(fp, ip, userAgent, docs);
      var pos := CandidatePositions(fp, ip, userAgent, docs);
      && |pos| == |c|
      && forall i :: 0 <= i < |pos| ==> pos[i] < |docs| && c[i] == Scored(fp, ip, userAgent, docs[pos[i]])
  {
    var ms := ScoredAll(fp, ip, userAgent, docs);
    var c := EligibleOf(fp, ms);
    var pos := EligiblePositionsFrom(fp, ms, 0);
    EligibleAtPositions(fp, ms, 0);
    assert forall i :: 0 <= i < |pos| ==> pos[i] < |docs| && c[i] == ms[pos[i]];
    ScoredAtPositions(fp, ip, userAgent, docs, c, pos);
  }

  /** Candidate positions increase strictly. */
  lemma CandidatePositionsIncreasing(fp: DeviceFingerprint, ip: Option<string>, userAgent: Option<string>, docs: seq<Doc>)
    ensures var pos := CandidatePositions(fp, ip, userAgent, docs);
      forall i, j :: 0 <= i < j < |pos| ==> pos[i] < pos[j]
  {
    var ms := ScoredAll(fp, ip, userAgent, docs);
    var pos := EligiblePositionsFrom(fp, ms, 0);
    forall i, j | 0 <= i < j < |pos|
      ensures pos[i] < pos[j]
    {
      EligiblePositionsOrdered(fp, ms, 0, i, j);
    }
  }

  /** A stored record that passes the filter is eligible once scored. */
  lemma CandidateIsEligible(fp: DeviceFingerprint, ip: Option<string>, userAgent: Option<string>, docs: seq<Doc>, k: nat)
    requires k < |docs| && IsCandidate(fp, ip, userAgent, docs[k])
    ensures Eligible(fp, ScoredAll(fp, ip, userAgent, docs)[k])
  {
    ScoredAt(fp, ip, userAgent, docs, k);
  }

  /** An eligible record sits at an eligible position. */
  lemma EligibleIsPosition(fp: DeviceFingerprint, ms: seq<MatchResult>, k: nat)
    requires k < |ms| && Eligible(fp, ms[k])
    ensures k in EligiblePositionsFrom(fp, ms, 0)
  {
    EligiblePositionsComplete(fp, ms, 0, k);
    assert 0 + k == k;
  }

  /**
   * The candidates are the records that pass the filter, in store order and
   * one per record: their store positions are strictly increasing, each
   * candidate is the scored record at its position, and every position that
   * passes the filter is among them.
   */
  lemma CandidatesInStoreOrder(fp: DeviceFingerprint, ip: Option<string>, userAgent: Option<string>, docs: seq<Doc>)
    ensures var c := Candidates(fp, ip, userAgent, docs);
      var pos := CandidatePositions(fp, ip, userAgent, docs);
      && |pos| == |c|
      && (forall i :: 0 <= i < |pos| ==> pos[i] < |docs| && c[i] == Scored(fp, ip, userAgent, docs[pos[i]]))
      && (forall i, j :: 0 <= i < j < |pos| ==> pos[i] < pos[j])
      && (forall k :: 0 <= k < |docs| && IsCandidate(fp, ip, userAgent, docs[k]) ==> k in pos)
  {
    CandidatesAtPositions(fp, ip, userAgent, docs);
    CandidatePositionsIncreasing(fp, ip, userAgent, docs);
    forall k | 0 <= k < |docs| && IsCandidate(fp, ip, userAgent, docs[k])
      ensures k in CandidatePositions(fp, ip, userAgent, docs)
    {
      CandidateIsEligible(fp, ip, userAgent, docs, k);
      EligibleIsPosition(fp, ScoredAll(fp, ip, userAgent, docs), k);
    }
  }

  /**
   * The decision of the heuristic scan over its candidates: the best one
   * (the first, in store order, with the highest score), with a
   * multiple-matches event when there is more than one candidate, of the
   * same-score kind exactly when the top score is tied.
   */
  function RankCandidates(c: seq<MatchResult>): (r: PostInstallResult)
    requires forall m :: m in c ==> m.score > 0
    ensures !r.uniqueMatch
    ensures r.foundEntry.None? <==> c == []
    ensures c == [] ==> r == PostInstallResult(None, false, [AnalyticsMessage(HeuristicsNotFound, HeuristicsNotFoundText)], None)
    ensures c != [] ==>
      && r.foundEntry == Some(c[FirstMax(c)].entry)
      && r.uuld == Some(c[FirstMax(c)].uuid)
      && r.analytics == if |c| == 1 then [] else
           [AnalyticsMessage(if MaxTied(c) then HeuristicsMultipleMatchesSameScore else HeuristicsMultipleMatches,
                             MultipleHeuristicsText)]
    ensures forall e :: e in r.analytics ==> HeuristicsKind(e.kind)
  {
    var sorted := SortByScore(c);
    RankPositive(c);
    if sorted == [] || sorted[0].score == 0 then
      PostInstallResult(None, false, [AnalyticsMessage(HeuristicsNotFound, HeuristicsNotFoundText)], None)
    else
      var events :=
        if |sorted| > 1 then
          var sameScore := sorted[0].score == sorted[1].score;
          [AnalyticsMessage(if sameScore then HeuristicsMultipleMatchesSameScore else HeuristicsMultipleMatches,
                            MultipleHeuristicsText)]
        else [];
      PostInstallResult(Some(sorted[0].entry), false, events, Some(sorted[0].uuid))
  }

  /**
   * `searchByHeuristics`: every record is scored, the candidates are ranked,
   * and the chosen record scores at least as much as every other candidate.
   */
  function SearchByHeuristics(fp: DeviceFingerprint, ip: Option<string>, userAgent: Option<string>, docs: seq<Doc>): (r: PostInstallResult)
    ensures r == RankCandidates(Candidates(fp, ip, userAgent, docs))
    ensures r.uuld.Some? ==> r.foundEntry.Some? && Doc(r.uuld.value, r.foundEntry.value) in docs
    ensures r.foundEntry.Some? ==> forall d :: d in docs && IsCandidate(fp, ip, userAgent, d) ==>
      Scored(fp, ip, userAgent, d).score <= FindMatchingInstall(fp, ip, userAgent, r.foundEntry.value)
  {
    var c := Candidates(fp, ip, userAgent, docs);
    CandidatesMembers(fp, ip, userAgent, docs);
    assert c != [] ==> c[FirstMax(c)] in c;
    RankCandidates(c)
  }

  /**
   * The nested link of a dynamic link: the outer URL is parsed, its `link`
   * parameter (absent or empty gives None) is percent-decoded and parsed in turn.
   */
  function NestedLink(dynamicLinkUrl: string, codec: UrlCodec): Option<Url> {
    match codec.parse(dynamicLinkUrl)
    case None => None
    case Some(outer) =>
      match Get(outer.params, LinkKey)
      case None => None
      case Some(encoded) =>
        if encoded == "" then None
        else
          match codec.decodeComponent(encoded)
          case None => None
          case Some(decoded) => codec.parse(decoded)
  }

  /**
   * `extractTracebackIdFromDynamicLink`. The nested URL and the "copy" the
   * parameter is deleted from are one object, so both returned URLs are the
   * nested URL without `_tracebackid`; the id itself is read before the delete.
   */
  function ExtractTracebackIdFromDynamicLink(dynamicLinkUrl: string, codec: UrlCodec): (r: Option<LinkExtraction>)
    ensures r.None? <==> NestedLink(dynamicLinkUrl, codec).None?
    ensures r.Some? ==> var nested := NestedLink(dynamicLinkUrl, codec).value;
      && r.value.dynamicLinkUrl == r.value.dynamicLinkUrlWithoutTracebackId
      && ValuesOf(r.value.dynamicLinkUrl.params, TracebackIdKey) == []
      && (forall k :: k != TracebackIdKey ==> ValuesOf(r.value.dynamicLinkUrl.params, k) == ValuesOf(nested.params, k))
      && r.value.dynamicLinkUrl.origin == nested.origin
      && r.value.dynamicLinkUrl.pathname == nested.pathname
      && (r.value.tracebackId.Some? <==> ValuesOf(nested.params, TracebackIdKey) != [])
      && (r.value.tracebackId.Some? ==> r.value.tracebackId.value == ValuesOf(nested.params, TracebackIdKey)[0])
  {
    match NestedLink(dynamicLinkUrl, codec)
    case None => None
    case Some(nested) =>
      var tracebackId := Get(nested.params, TracebackIdKey);
      var stripped := Url(nested.origin, nested.pathname, Delete(nested.params, TracebackIdKey));
      Some(LinkExtraction(stripped, tracebackId, stripped))
  }

  /** A link whose nested URL ends with `_tracebackid=t` gives back `t` and the nested URL without it. */
  lemma ExtractFindsAppendedId(
    dynamicLinkUrl: string, codec: UrlCodec, outer: Url, encoded: string, decoded: string, nested: Url, t: string)
    requires codec.parse(dynamicLinkUrl) == Some(outer)
    requires Get(outer.params, LinkKey) == Some(encoded) && encoded != ""
    requires codec.decodeComponent(encoded) == Some(decoded)
    requires codec.parse(decoded) == Some(nested)
    requires |nested.params| > 0 && nested.params[|nested.params| - 1] == Param(TracebackIdKey, t)
    requires !HasKey(nested.params[..|nested.params| - 1], TracebackIdKey)
    ensures ExtractTracebackIdFromDynamicLink(dynamicLinkUrl, codec) == Some(LinkExtraction(
      Url(nested.origin, nested.pathname, nested.params[..|nested.params| - 1]),
      Some(t),
      Url(nested.origin, nested.pathname, nested.params[..|nested.params| - 1])))
  {
    var ps := nested.params[..|nested.params| - 1];
    assert nested.params == ps + [Param(TracebackIdKey, t)];
    GetPastAbsentPrefix(ps, [Param(TracebackIdKey, t)], TracebackIdKey);
    DeleteAbsentThenLast(ps, t);
  }

  lemma {:induction false} GetPastAbsentPrefix(ps: seq<Param>, qs: seq<Param>, key: string)
    requires !HasKey(ps, key)
    ensures Get(ps + qs, key) == Get(qs, key)
  {
    if ps != [] {
      assert (ps + qs)[0] == ps[0] && ps[0].key != key;
      assert (ps + qs)[1..] == ps[1..] + qs;
      GetPastAbsentPrefix(ps[1..], qs, key);
    } else {
      assert ps + qs == qs;
    }
  }

  lemma {:induction false} DeleteAbsentThenLast(ps: seq<Param>, t: string)
    requires !HasKey(ps, TracebackIdKey)
    ensures Delete(ps + [Param(TracebackIdKey, t)], TracebackIdKey) == ps
  {
    if ps == [] {
      assert [Param(TracebackIdKey, t)][1..] == [];
    } else {
      assert ps[0].key != TracebackIdKey;
      assert (ps + [Param(TracebackIdKey, t)])[1..] == ps[1..] + [Param(TracebackIdKey, t)];
      DeleteAbsentThenLast(ps[1..], t);
      assert ps == [ps[0]] + ps[1..];
    }
  }

  /** `where('clipboard', '==', link)`: the records whose stored clipboard is exactly `link`, in store order. */
  function ClipboardHits(docs: seq<Doc>, link: string): seq<Doc> {
    if docs == [] then []
    else (if IsHit(docs[0], link) then [docs[0]] else []) + ClipboardHits(docs[1..], link)
  }

  /** A record whose stored clipboard is exactly `link`. */
  predicate IsHit(d: Doc, link: string) {
    d.data.heuristics.clipboard == Some(link)
  }

  /** The hits are exactly the stored records whose clipboard is `link`. */
  lemma {:induction false} ClipboardHitsMembers(docs: seq<Doc>, link: string)
    ensures forall d :: d in ClipboardHits(docs, link) <==> d in docs && IsHit(d, link)
  {
    if docs != [] {
      ClipboardHitsMembers(docs[1..], link);
      assert forall d :: d in docs <==> d == docs[0] || d in docs[1..];
    }
  }

  /** The store positions, counted from `base`, of the records whose clipboard is `link`. */
  function HitPositionsFrom(docs: seq<Doc>, link: string, base: nat): seq<nat> {
    if docs == [] then []
    else (if IsHit(docs[0], link) then [base] else []) + HitPositionsFrom(docs[1..], link, base + 1)
  }

  /** The store positions of the records whose clipboard is `link`. */
  function HitPositions(docs: seq<Doc>, link: string): seq<nat> {
    HitPositionsFrom(docs, link, 0)
  }

  /** One step of `HitPositionsFrom` at index `i`. */
  lemma HitPositionsFromStep(docs: seq<Doc>, link: string, base: nat, i: nat)
    requires docs != [] && i < |HitPositionsFrom(docs, link, base)|
    ensures var pos := HitPositionsFrom(docs, link, base);
      var rest := HitPositionsFrom(docs[1..], link, base + 1);
      if IsHit(docs[0], link) then
        (i == 0 ==> pos[i] == base) && (i > 0 ==> i - 1 < |rest| && pos[i] == rest[i - 1])
      else i < |rest| && pos[i] == rest[i]
  {
    var rest := HitPositionsFrom(docs[1..], link, base + 1);
    var head: seq<nat> := if IsHit(docs[0], link) then [base] else [];
    assert HitPositionsFrom(docs, link, base) == head + rest;
  }

  /** Each hit position lies within the store. */
  lemma {:induction false} HitPositionInRange(docs: seq<Doc>, link: string, base: nat, i: nat)
    requires i < |HitPositionsFrom(docs, link, base)|
    ensures base <= HitPositionsFrom(docs, link, base)[i] < base + |docs|
  {
    HitPositionsFromStep(docs, link, base, i);
    if IsHit(docs[0], link) {
      if i > 0 {
        HitPositionInRange(docs[1..], link, base + 1, i - 1);
      }
    } else {
      HitPositionInRange(docs[1..], link, base + 1, i);
    }
  }

  /** Hit positions increase strictly with the index. */
  lemma {:induction false} HitPositionsOrdered(docs: seq<Doc>, link: string, base: nat, i: nat, j: nat)
    requires i < j < |HitPositionsFrom(docs, link, base)|
    ensures HitPositionsFrom(docs, link, base)[i] < HitPositionsFrom(docs, link, base)[j]
  {
    HitPositionsFromStep(docs, link, base, i);
    HitPositionsFromStep(docs, link, base, j);
    if IsHit(docs[0], link) {
      HitPositionInRange(docs[1..], link, base + 1, j - 1);
      if i > 0 {
        HitPositionsOrdered(docs[1..], link, base + 1, i - 1, j - 1);
      }
    } else {
      HitPositionsOrdered(docs[1..], link, base + 1, i, j);
    }
  }

  /** The hit positions are strictly increasing positions within the store. */
  lemma HitPositionsIncreasing(docs: seq<Doc>, link: string, base: nat)
    ensures var pos := HitPositionsFrom(docs, link, base);
      && (forall i :: 0 <= i < |pos| ==> base <= pos[i] < base + |docs|)
      && (forall i, j :: 0 <= i < j < |pos| ==> pos[i] < pos[j])
  {
    var pos := HitPositionsFrom(docs, link, base);
    forall i | 0 <= i < |pos|
      ensures base <= pos[i] < base + |docs|
    {
      HitPositionInRange(docs, link, base, i);
    }
    forall i, j | 0 <= i < j < |pos|
      ensures pos[i] < pos[j]
    {
      HitPositionsOrdered(docs, link, base, i, j);
    }
  }

  /** Every matching store position is a hit position. */
  lemma {:induction false} HitPositionsComplete(docs: seq<Doc>, link: string, base: nat, k: nat)
    requires k < |docs| && IsHit(docs[k], link)
    ensures base + k in HitPositionsFrom(docs, link, base)
  {
    var head: seq<nat> := if IsHit(docs[0], link) then [base] else [];
    assert HitPositionsFrom(docs, link, base) == head + HitPositionsFrom(docs[1..], link, base + 1);
    if k > 0 {
      assert docs[1..][k - 1] == docs[k];
      HitPositionsComplete(docs[1..], link, base + 1, k - 1);
    }
  }

  /** The i-th hit is the record at the i-th hit position. */
  lemma {:induction false} HitsAtPositions(docs: seq<Doc>, link: string, base: nat)
    ensures var hits := ClipboardHits(docs, link);
      var pos := HitPositionsFrom(docs, link, base);
      && |pos| == |hits|
      && forall i :: 0 <= i < |pos| ==>
        base <= pos[i] < base + |docs| && hits[i] == docs[pos[i] - base] && IsHit(hits[i], link)
  {
    HitPositionsIncreasing(docs, link, base);
    if docs != [] {
      var tail := docs[1..];
      HitsAtPositions(tail, link, base + 1);
      var hits := ClipboardHits(docs, link);
      var pos := HitPositionsFrom(docs, link, base);
      var rh := ClipboardHits(tail, link);
      var rest := HitPositionsFrom(tail, link, base + 1);
      var o := if IsHit(docs[0], link) then 1 else 0;
      var head: seq<nat> := if IsHit(docs[0], link) then [base] else [];
      assert hits == (if IsHit(docs[0], link) then [docs[0]] else []) + rh;
      assert pos == head + rest;
      forall i | 0 <= i < |pos|
        ensures hits[i] == docs[pos[i] - base]
      {
        if i >= o {
          assert hits[i] == rh[i - o] && pos[i] == rest[i - o];
          assert docs[pos[i] - base] == tail[rest[i - o] - (base + 1)];
        }
      }
    }
  }

  /**
   * The hits are the matching records in store order, one per record: their
   * store positions are strictly increasing, each hit is the record at its
   * position, and every matching position is among them.
   */
  lemma HitsInStoreOrder(docs: seq<Doc>, link: string)
    ensures var hits := ClipboardHits(docs, link);
      var pos := HitPositions(docs, link);
      && |pos| == |hits|
      && (forall i :: 0 <= i < |pos| ==> pos[i] < |docs| && hits[i] == docs[pos[i]] && IsHit(hits[i], link))
      && (forall i, j :: 0 <= i < j < |pos| ==> pos[i] < pos[j])
      && (forall k :: 0 <= k < |docs| && IsHit(docs[k], link) ==> k in pos)
  {
    HitsAtPositions(docs, link, 0);
    HitPositionsIncreasing(docs, link, 0);
    var pos := HitPositions(docs, link);
    forall k | 0 <= k < |docs| && IsHit(docs[k], link)
      ensures k in pos
    {
      HitPositionsComplete(docs, link, 0, k);
    }
  }

  /** The hits of a store with distinct ids have distinct ids, so no record is answered twice. */
  lemma HitsKeepDistinctIds(docs: seq<Doc>, link: string)
    requires DistinctIds(docs)
    ensures DistinctIds(ClipboardHits(docs, link))
  {
    var hits := ClipboardHits(docs, link);
    var pos := HitPositions(docs, link);
    HitsInStoreOrder(docs, link);
    forall i, j | 0 <= i < j < |hits|
      ensures hits[i].id != hits[j].id
    {
      assert pos[i] < pos[j] && hits[i] == docs[pos[i]] && hits[j] == docs[pos[j]];
    }
  }

  /** No record before store position `k` matches `link`. */
  predicate NoHitBefore(docs: seq<Doc>, link: string, k: nat)
    requires k <= |docs|
  {
    forall i :: 0 <= i < k ==> !IsHit(docs[i], link)
  }

  /** The first hit, the one `searchByClipboardContent` answers with, is the earliest matching record in store order. */
  lemma {:induction false} FirstHitIsEarliest(docs: seq<Doc>, link: string)
    requires ClipboardHits(docs, link) != []
    ensures exists k :: 0 <= k < |docs| && docs[k] == ClipboardHits(docs, link)[0] && IsHit(docs[k], link) && NoHitBefore(docs, link, k)
  {
    if IsHit(docs[0], link) {
      assert ClipboardHits(docs, link)[0] == docs[0];
    } else {
      assert ClipboardHits(docs, link) == ClipboardHits(docs[1..], link);
      FirstHitIsEarliest(docs[1..], link);
      var k :| 0 <= k < |docs[1..]| && docs[1..][k] == ClipboardHits(docs[1..], link)[0] && IsHit(docs[1..][k], link) &&
        NoHitBefore(docs[1..], link, k);
      assert forall i :: 1 <= i < k + 1 ==> docs[i] == docs[1..][i - 1];
      assert docs[k + 1] == docs[1..][k];
    }
  }

  /** There is more than one hit, the MULTIPLE_MATCHES case, exactly when two stored records match. */
  lemma MultipleHitsIffTwoMatches(docs: seq<Doc>, link: string)
    ensures |ClipboardHits(docs, link)| > 1 <==>
      exists i, j :: 0 <= i < j < |docs| && IsHit(docs[i], link) && IsHit(docs[j], link)
  {
    var hits := ClipboardHits(docs, link);
    var pos := HitPositions(docs, link);
    HitsInStoreOrder(docs, link);
    if |hits| > 1 {
      assert pos[0] < pos[1] && IsHit(docs[pos[0]], link) && IsHit(docs[pos[1]], link);
    }
    if exists i, j :: 0 <= i < j < |docs| && IsHit(docs[i], link) && IsHit(docs[j], link) {
      var i, j :| 0 <= i < j < |docs| && IsHit(docs[i], link) && IsHit(docs[j], link);
      assert i in pos && j in pos;
      var a :| 0 <= a < |pos| && pos[a] == i;
      var b :| 0 <= b < |pos| && pos[b] == j;
      assert a != b;
    }
  }

  /** The answer for an exact clipboard hit: the first hit, and a multiple-matches event when there are more. */
  function ClipboardHitResult(hits: seq<Doc>): PostInstallResult
    requires hits != []
  {
    PostInstallResult(
      Some(hits[0].data), true,
      if |hits| > 1 then [AnalyticsMessage(PasteboardMultipleMatches, MultiplePasteboardText)] else [],
      Some(hits[0].id))
  }

  function PasteboardNotFoundResult(text: string): PostInstallResult {
    PostInstallResult(None, false, [AnalyticsMessage(PasteboardNotFound, text)], None)
  }

  /** The lookup by document id: the record with that id, found uniquely, or not found. */
  function SearchById(docs: seq<Doc>, id: string): (r: PostInstallResult)
    ensures r.foundEntry.Some? <==> HasId(docs, id)
    ensures r.foundEntry.Some? ==>
      r.uniqueMatch && r.analytics == [] && r.uuld == Some(id) && Doc(id, r.foundEntry.value) in docs
    ensures r.foundEntry.None? ==> r == PasteboardNotFoundResult(NoDocumentByIdText)
  {
    match FindById(docs, id)
    case None => PasteboardNotFoundResult(NoDocumentByIdText)
    case Some(d) => PostInstallResult(Some(d.data), true, [], Some(d.id))
  }

  /**
   * The corrected lookup by `_tracebackid`: the id is read as a document path
   * and a single segment is looked up as a record id; a path that names no
   * record of this collection, or that the store's path check refuses, is
   * not found.
   */
  function SearchByTracebackId(docs: seq<Doc>, id: string): (r: PostInstallResult)
    ensures r.foundEntry.Some? <==> ResolveDocPath(id).RecordDoc? && HasId(docs, ResolveDocPath(id).id)
    ensures r.foundEntry.Some? ==>
      && r.uniqueMatch && r.analytics == [] && r.uuld == Some(ResolveDocPath(id).id)
      && Doc(ResolveDocPath(id).id, r.foundEntry.value) in docs
    ensures r.foundEntry.None? ==> r == PasteboardNotFoundResult(NoDocumentByIdText)
  {
    match ResolveDocPath(id)
    case RecordDoc(key) => SearchById(docs, key)
    case _ => PasteboardNotFoundResult(NoDocumentByIdText)
  }

  /** An id with a trailing `/` finds the stored record named by the id alone. */
  lemma TrailingSlashFindsRecord(docs: seq<Doc>, id: string)
    requires id != "" && '/' !in id && HasId(docs, id)
    ensures SearchByTracebackId(docs, id + "/").uuld == Some(id)
  {
    PlainIdIsRecord(id);
  }

  /**
   * `searchByClipboardContent` as written. When the nested link has no
   * `_tracebackid`, `searchParams.get` yields `null`, which passes both the
   * `=== undefined` and the `=== ''` tests; `collection.doc(null)` then
   * throws and the handler answers 500 (a Failure). The id is also handed to
   * `collection.doc` unchecked, so an id the store's path check refuses
   * (`a/b`, `a//b`) fails the same way.
   */
  function SearchByClipboardContentAsWritten(docs: seq<Doc>, link: string, codec: UrlCodec): (r: Result<PostInstallResult, string>)
    ensures r.Failure? <==>
      && ClipboardHits(docs, link) == []
      && ExtractTracebackIdFromDynamicLink(link, codec).Some?
      && var id := ExtractTracebackIdFromDynamicLink(link, codec).value.tracebackId;
         id.None? || (id.value != "" && ResolveDocPath(id.value).InvalidPath?)
  {
    var hits := ClipboardHits(docs, link);
    if hits != [] then Success(ClipboardHitResult(hits))
    else
      var extraction := ExtractTracebackIdFromDynamicLink(link, codec);
      if extraction.None? || extraction.value.tracebackId == Some("") then
        Success(PasteboardNotFoundResult(NoTracebackIdText))
      else if extraction.value.tracebackId.None? then
        Failure("documentPath must be a non-empty string")
      else
        match ResolveDocPath(extraction.value.tracebackId.value)
        case InvalidPath => Failure("documentPath must point to a document")
        case NestedDoc(_) => Success(PasteboardNotFoundResult(NoDocumentByIdText))
        case RecordDoc(key) => Success(SearchById(docs, key))
  }

  /** The `_tracebackid` of a dynamic link, when it has one that is not empty. */
  function TracebackIdOf(link: string, codec: UrlCodec): Option<string> {
    var extraction := ExtractTracebackIdFromDynamicLink(link, codec);
    if extraction.None? || extraction.value.tracebackId.None? || extraction.value.tracebackId == Some("") then None
    else extraction.value.tracebackId
  }

  /**
   * `searchByClipboardContent` with the missing-id test corrected: a missing,
   * `null` or empty `_tracebackid` all give PASTEBOARD_NOT_FOUND.
   */
  function SearchByClipboardContent(docs: seq<Doc>, link: string, codec: UrlCodec): (r: PostInstallResult)
    ensures r.uniqueMatch <==> r.foundEntry.Some?
    ensures r.foundEntry.Some? <==> r.uuld.Some?
    ensures r.uuld.Some? ==> Doc(r.uuld.value, r.foundEntry.value) in docs
    ensures forall e :: e in r.analytics ==> PasteboardKind(e.kind)
    ensures var hits := ClipboardHits(docs, link);
      && (hits != [] ==>
            && r.foundEntry == Some(hits[0].data)
            && r.uuld == Some(hits[0].id)
            && hits[0].data.heuristics.clipboard == Some(link)
            && (r.analytics == [AnalyticsMessage(PasteboardMultipleMatches, MultiplePasteboardText)] <==> |hits| > 1)
            && (r.analytics == [] <==> |hits| == 1))
      && (hits == [] ==> match TracebackIdOf(link, codec)
            case None => r == PasteboardNotFoundResult(NoTracebackIdText)
            case Some(id) =>
              && (r.foundEntry.Some? <==> ResolveDocPath(id).RecordDoc? && HasId(docs, ResolveDocPath(id).id))
              && (r.foundEntry.Some? ==> r.uuld == Some(ResolveDocPath(id).id) && r.analytics == [])
              && (r.foundEntry.None? ==> r == PasteboardNotFoundResult(NoDocumentByIdText)))
  {
    var hits := ClipboardHits(docs, link);
    if hits != [] then
      ClipboardHitsMembers(docs, link);
      assert hits[0] in hits;
      ClipboardHitResult(hits)
    else
      match TracebackIdOf(link, codec)
      case None => PasteboardNotFoundResult(NoTracebackIdText)
      case Some(id) => SearchByTracebackId(docs, id)
  }

  /** Outside the `null` case the code as written and the corrected search agree. */
  lemma ClipboardAsWrittenAgreesOtherwise(docs: seq<Doc>, link: string, codec: UrlCodec)
    ensures SearchByClipboardContentAsWritten(docs, link, codec).Success? ==>
      SearchByClipboardContentAsWritten(docs, link, codec).value == SearchByClipboardContent(docs, link, codec)
  {
  }

  /**
   * A clipboard miss whose nested link carries no `_tracebackid` makes the
   * code as written fail, where PASTEBOARD_NOT_FOUND is intended.
   */
  lemma MissingTracebackIdFailsAsWritten(
    docs: seq<Doc>, link: string, codec: UrlCodec, outer: Url, encoded: string, decoded: string, nested: Url)
    requires ClipboardHits(docs, link) == []
    requires codec.parse(link) == Some(outer)
    requires Get(outer.params, LinkKey) == Some(encoded) && encoded != ""
    requires codec.decodeComponent(encoded) == Some(decoded)
    requires codec.parse(decoded) == Some(nested)
    requires !HasKey(nested.params, TracebackIdKey)
    ensures SearchByClipboardContentAsWritten(docs, link, codec).Failure?
    ensures SearchByClipboardContent(docs, link, codec) == PasteboardNotFoundResult(NoTracebackIdText)
  {
    assert NestedLink(link, codec) == Some(nested);
  }

  /** A concrete instance: an empty store and a dynamic link whose nested link `https://example.com/p` has no query. */
  lemma MissingTracebackIdExample()
    ensures var codec := UrlCodec(
        s => if s == "https://x.page.link/?link=https%3A%2F%2Fexample.com%2Fp" then Some(Url("https://x.page.link", "/", [Param("link", "https://example.com/p")]))
             else if s == "https://example.com/p" then Some(Url("https://example.com", "/p", []))
             else None,
        s => Some(s),
        (u: Url) => u.origin + u.pathname);
      && SearchByClipboardContentAsWritten([], "https://x.page.link/?link=https%3A%2F%2Fexample.com%2Fp", codec).Failure?
      && SearchByClipboardContent([], "https://x.page.link/?link=https%3A%2F%2Fexample.com%2Fp", codec) == PasteboardNotFoundResult(NoTracebackIdText)
  {
    var codec := UrlCodec(
        s => if s == "https://x.page.link/?link=https%3A%2F%2Fexample.com%2Fp" then Some(Url("https://x.page.link", "/", [Param("link", "https://example.com/p")]))
             else if s == "https://example.com/p" then Some(Url("https://example.com", "/p", []))
             else None,
        s => Some(s),
        (u: Url) => u.origin + u.pathname);
    var outer := Url("https://x.page.link", "/", [Param("link", "https://example.com/p")]);
    assert Get(outer.params, LinkKey) == Some("https://example.com/p");
    assert !HasKey(Url("https://example.com", "/p", []).params, TracebackIdKey);
    MissingTracebackIdFailsAsWritten([], "https://x.page.link/?link=https%3A%2F%2Fexample.com%2Fp", codec, outer,
      "https://example.com/p", "https://example.com/p", Url("https://example.com", "/p", []));
  }
  /**
   * A clipboard miss whose nested link carries an id the store's path check
   * refuses makes the code as written fail, where PASTEBOARD_NOT_FOUND is
   * intended.
   */
  lemma RefusedTracebackIdFailsAsWritten(
    docs: seq<Doc>, link: string, codec: UrlCodec, outer: Url, encoded: string, decoded: string, nested: Url, id: string)
    requires ClipboardHits(docs, link) == []
    requires codec.parse(link) == Some(outer)
    requires Get(outer.params, LinkKey) == Some(encoded) && encoded != ""
    requires codec.decodeComponent(encoded) == Some(decoded)
    requires codec.parse(decoded) == Some(nested)
    requires Get(nested.params, TracebackIdKey) == Some(id) && id != ""
    requires ResolveDocPath(id).InvalidPath?
    ensures SearchByClipboardContentAsWritten(docs, link, codec).Failure?
    ensures SearchByClipboardContent(docs, link, codec) == PasteboardNotFoundResult(NoDocumentByIdText)
  {
    assert NestedLink(link, codec) == Some(nested);
  }

  /** A concrete instance: an empty store and a nested link `https://example.com/p?_tracebackid=a/b`. */
  lemma SlashTracebackIdExample()
    ensures var codec := UrlCodec(
        s => if s == "https://x.page.link/?link=https%3A%2F%2Fexample.com%2Fp%3F_tracebackid%3Da%2Fb"
               then Some(Url("https://x.page.link", "/", [Param("link", "https://example.com/p?_tracebackid=a/b")]))
             else if s == "https://example.com/p?_tracebackid=a/b" then Some(Url("https://example.com", "/p", [Param("_tracebackid", "a/b")]))
             else None,
        s => Some(s),
        (u: Url) => u.origin + u.pathname);
      var link := "https://x.page.link/?link=https%3A%2F%2Fexample.com%2Fp%3F_tracebackid%3Da%2Fb";
      && SearchByClipboardContentAsWritten([], link, codec).Failure?
      && SearchByClipboardContent([], link, codec) == PasteboardNotFoundResult(NoDocumentByIdText)
  {
    var codec := UrlCodec(
        s => if s == "https://x.page.link/?link=https%3A%2F%2Fexample.com%2Fp%3F_tracebackid%3Da%2Fb"
               then Some(Url("https://x.page.link", "/", [Param("link", "https://example.com/p?_tracebackid=a/b")]))
             else if s == "https://example.com/p?_tracebackid=a/b" then Some(Url("https://example.com", "/p", [Param("_tracebackid", "a/b")]))
             else None,
        s => Some(s),
        (u: Url) => u.origin + u.pathname);
    var link := "https://x.page.link/?link=https%3A%2F%2Fexample.com%2Fp%3F_tracebackid%3Da%2Fb";
    var outer := Url("https://x.page.link", "/", [Param("link", "https://example.com/p?_tracebackid=a/b")]);
    var nested := Url("https://example.com", "/p", [Param("_tracebackid", "a/b")]);
    assert Get(outer.params, LinkKey) == Some("https://example.com/p?_tracebackid=a/b");
    assert Get(nested.params, TracebackIdKey) == Some("a/b");
    TwoSegmentsInvalid("a", "b");
    assert "a" + "/" + "b" == "a/b";
    RefusedTracebackIdFailsAsWritten([], link, codec, outer,
      "https://example.com/p?_tracebackid=a/b", "https://example.com/p?_tracebackid=a/b", nested, "a/b");
  }
}
