/** The relayer registry, its ranking, and the client that walks down it. */
module Failover {
  import opened Results

  /** Round-trip time of the last probe; Infinite until one completes. */
  datatype Latency = Ms(ms: nat) | Infinite

  datatype RelayerInfo = RelayerInfo(url: string, name: string, fee: nat, healthy: bool, latency: Latency,
                                     lastChecked: int)

  const STALE_THRESHOLD_MS := 300000

  function NormaliseUrl(url: string): string {
    if url != "" && url[|url| - 1] == '/' then url[..|url| - 1] else url
  }

  function Seed(url: string): RelayerInfo {
    RelayerInfo(url, "", 0, false, Infinite, 0)
  }

  // ------------------------------------------------------------------
  // Ranking
  // ------------------------------------------------------------------

  /** The comparator's verdict that a may stand before b: lower fee, then lower latency. */
  predicate Precedes(a: RelayerInfo, b: RelayerInfo) {
    a.fee < b.fee || (a.fee == b.fee && (b.latency.Infinite? || (a.latency.Ms? && a.latency.ms <= b.latency.ms)))
  }

  ghost predicate Sorted(s: seq<RelayerInfo>) {
    forall i, j :: 0 <= i < j < |s| ==> Precedes(s[i], s[j])
  }

  function Healthy(s: seq<RelayerInfo>): seq<RelayerInfo> {
    if s == [] then [] else Healthy(s[..|s| - 1]) + if s[|s| - 1].healthy then [s[|s| - 1]] else []
  }

  /** Stable insertion: behind everything it does not strictly beat. */
  function Insert(s: seq<RelayerInfo>, x: RelayerInfo): seq<RelayerInfo> {
    if s == [] || Precedes(s[|s| - 1], x) then s + [x]
    else Insert(s[..|s| - 1], x) + [s[|s| - 1]]
  }

  function Sort(s: seq<RelayerInfo>): seq<RelayerInfo> {
    if s == [] then [] else Insert(Sort(s[..|s| - 1]), s[|s| - 1])
  }

  /** Healthy relayers, cheapest first, then fastest, ties in registration order. */
  function Ranked(s: seq<RelayerInfo>): seq<RelayerInfo> {
    Sort(Healthy(s))
  }

  /** The comparator is a total preorder. */
  lemma PrecedesOrders(a: RelayerInfo, b: RelayerInfo, c: RelayerInfo)
    ensures Precedes(a, b) || Precedes(b, a)
    ensures Precedes(a, b) && Precedes(b, c) ==> Precedes(a, c)
  {
  }

  lemma {:induction false} InsertMembers(s: seq<RelayerInfo>, x: RelayerInfo)
    ensures multiset(Insert(s, x)) == multiset(s) + multiset{x}
    ensures forall r :: r in Insert(s, x) <==> r == x || r in s
  {
    if !(s == [] || Precedes(s[|s| - 1], x)) {
      InsertMembers(s[..|s| - 1], x);
      assert s == s[..|s| - 1] + [s[|s| - 1]];
    }
  }

  lemma SortedPush(s: seq<RelayerInfo>, x: RelayerInfo)
    requires Sorted(s) && forall r :: r in s ==> Precedes(r, x)
    ensures Sorted(s + [x])
  {
    hide Precedes;
    forall i, j | 0 <= i < j < |s + [x]| ensures Precedes((s + [x])[i], (s + [x])[j]) {
      assert s[i] in s;
    }
  }

  lemma {:induction false} InsertSorts(s: seq<RelayerInfo>, x: RelayerInfo)
    requires Sorted(s)
    ensures Sorted(Insert(s, x))
  {
    hide Precedes;
    if s == [] {
    } else if Precedes(s[|s| - 1], x) {
      forall r | r in s ensures Precedes(r, x) {
        PrecedesOrders(r, s[|s| - 1], x);
      }
      SortedPush(s, x);
    } else {
      var front, last := s[..|s| - 1], s[|s| - 1];
      InsertSorts(front, x);
      InsertMembers(front, x);
      PrecedesOrders(x, last, x);
      SortedPush(Insert(front, x), last);
    }
  }

  /** The ranking is a permutation of the healthy relayers, sorted by fee and then latency. */
  lemma {:induction false} SortKeeps(s: seq<RelayerInfo>)
    ensures Sorted(Sort(s)) && multiset(Sort(s)) == multiset(s)
  {
    if s != [] {
      var front, last := s[..|s| - 1], s[|s| - 1];
      assert s == front + [last] && Sort(s) == Insert(Sort(front), last);
      hide Sort, Sorted, Insert;
      SortKeeps(front);
      InsertSorts(Sort(front), last);
      InsertMembers(Sort(front), last);
    }
  }

  predicate Equivalent(a: RelayerInfo, b: RelayerInfo) {
    Precedes(a, b) && Precedes(b, a)
  }

  /** The members of s that tie with x, in order. */
  function Ties(s: seq<RelayerInfo>, x: RelayerInfo): seq<RelayerInfo> {
    if s == [] then [] else Ties(s[..|s| - 1], x) + if Equivalent(s[|s| - 1], x) then [s[|s| - 1]] else []
  }

  lemma {:induction false} TiesPush(s: seq<RelayerInfo>, y: RelayerInfo, x: RelayerInfo)
    ensures Ties(s + [y], x) == Ties(s, x) + if Equivalent(y, x) then [y] else []
  {
    assert (s + [y])[..|s|] == s;
  }

  lemma {:induction false} InsertStable(s: seq<RelayerInfo>, y: RelayerInfo, x: RelayerInfo)
    requires Sorted(s)
    ensures Ties(Insert(s, y), x) == Ties(s + [y], x)
  {
    TiesPush(s, y, x);
    hide Ties;
    if s != [] && !Precedes(s[|s| - 1], y) {
      var front, last := s[..|s| - 1], s[|s| - 1];
      assert s == front + [last];
      InsertStable(front, y, x);
      TiesPush(front, y, x);
      TiesPush(front, last, x);
      TiesPush(Insert(front, y), last, x);
    }
  }

  /** Sorting is stable: relayers that tie keep their order. */
  lemma {:induction false} SortStable(s: seq<RelayerInfo>, x: RelayerInfo)
    ensures Ties(Sort(s), x) == Ties(s, x)
  {
    if s != [] {
      var front, last := s[..|s| - 1], s[|s| - 1];
      SortStable(front, x);
      SortKeeps(front);
      assert s == front + [last] && Sort(s) == Insert(Sort(front), last);
      hide Sort, Sorted, Insert, Ties, Equivalent;
      InsertStable(Sort(front), last, x);
      TiesPush(Sort(front), last, x);
      TiesPush(front, last, x);
    }
  }

  /** Relayers that tie stand in the same order in both. */
  ghost predicate SameTies(a: seq<RelayerInfo>, b: seq<RelayerInfo>) {
    forall x :: Ties(a, x) == Ties(b, x)
  }

  lemma SortedLast(s: seq<RelayerInfo>, r: RelayerInfo)
    requires Sorted(s) && r in s
    ensures Precedes(r, s[|s| - 1])
  {
    PrecedesOrders(r, r, r);
  }

  /** The last of two sorted sequences with the same members and the same ties. */
  lemma LastsAgree(a: seq<RelayerInfo>, b: seq<RelayerInfo>)
    requires Sorted(a) && Sorted(b) && multiset(a) == multiset(b) && SameTies(a, b) && a != []
    ensures b != [] && a[|a| - 1] == b[|b| - 1]
  {
    hide Sorted, Precedes;
    var x := a[|a| - 1];
    assert x in multiset(b);
    var y := b[|b| - 1];
    assert y in multiset(a);
    SortedLast(b, x);
    SortedLast(a, y);
    PrecedesOrders(x, x, x);
    assert Ties(a, x)[|Ties(a, x)| - 1] == x;
    assert Ties(b, x)[|Ties(b, x)| - 1] == y;
  }

  lemma FrontsTie(a: seq<RelayerInfo>, b: seq<RelayerInfo>, last: RelayerInfo)
    requires SameTies(a + [last], b + [last])
    ensures SameTies(a, b)
  {
    forall x ensures Ties(a, x) == Ties(b, x) {
      TiesPush(a, last, x);
      TiesPush(b, last, x);
      var tie := if Equivalent(last, x) then [last] else [];
      assert Ties(a, x) + tie == Ties(a + [last], x) == Ties(b + [last], x) == Ties(b, x) + tie;
      assert Ties(a, x) == (Ties(a, x) + tie)[..|Ties(a, x)|];
    }
  }

  lemma SortedFront(a: seq<RelayerInfo>)
    requires Sorted(a) && a != []
    ensures var n := |a| - 1;
            a == a[..n] + [a[n]] && Sorted(a[..n]) && multiset(a[..n]) == multiset(a) - multiset{a[n]}
  {
    var n := |a| - 1;
    assert a == a[..n] + [a[n]];
    assert multiset(a) == multiset(a[..n]) + multiset{a[n]};
  }

  /** Sorted sequences with the same members, ties in the same order, are the same. */
  lemma {:induction false} SortedUnique(a: seq<RelayerInfo>, b: seq<RelayerInfo>)
    requires Sorted(a) && Sorted(b) && multiset(a) == multiset(b) && SameTies(a, b)
    ensures a == b
    decreases |a|
  {
    hide SameTies, Sorted, Ties;
    if a == [] {
      assert |multiset(b)| == 0;
    } else {
      LastsAgree(a, b);
      SortedFront(a);
      SortedFront(b);
      FrontsTie(a[..|a| - 1], b[..|b| - 1], a[|a| - 1]);
      SortedUnique(a[..|a| - 1], b[..|b| - 1]);
    }
  }

  lemma SortKeepsTies(s: seq<RelayerInfo>)
    ensures SameTies(Sort(s), s)
  {
    forall x ensures Ties(Sort(s), x) == Ties(s, x) {
      SortStable(s, x);
    }
  }

  lemma SameTiesJoin(a: seq<RelayerInfo>, b: seq<RelayerInfo>, s: seq<RelayerInfo>)
    requires SameTies(a, s) && SameTies(b, s)
    ensures SameTies(a, b)
  {
    forall x ensures Ties(a, x) == Ties(b, x) {
      assert Ties(a, x) == Ties(s, x);
    }
  }

  /** Whatever algorithm sorts stably by the comparator, its result is this one. */
  lemma SortIsUnique(s: seq<RelayerInfo>, t: seq<RelayerInfo>)
    ensures t == Sort(s) <==> Sorted(t) && multiset(t) == multiset(s) && SameTies(t, s)
  {
    hide *;
    SortKeeps(s);
    SortKeepsTies(s);
    if Sorted(t) && multiset(t) == multiset(s) && SameTies(t, s) {
      SameTiesJoin(t, Sort(s), s);
      SortedUnique(t, Sort(s));
    }
  }

  /** Filtering keeps every healthy relayer as often as it was there, and no other. */
  lemma {:induction false} HealthyKeeps(s: seq<RelayerInfo>, r: RelayerInfo)
    ensures multiset(Healthy(s))[r] == if r.healthy then multiset(s)[r] else 0
  {
    if s != [] {
      var front, last := s[..|s| - 1], s[|s| - 1];
      HealthyKeeps(front, r);
      assert s == front + [last];
    }
  }

  lemma RankedMember(s: seq<RelayerInfo>, r: RelayerInfo)
    ensures r in Ranked(s) <==> r.healthy && r in s
  {
    HealthyKeeps(s, r);
    SortKeeps(Healthy(s));
    hide Healthy, Sort;
    assert r in Ranked(s) <==> r in multiset(Ranked(s));
    assert r in s <==> r in multiset(s);
  }

  /** In plain numbers: a lower fee first, and of two equal fees the lower round-trip time. */
  ghost predicate CheapestThenFastest(s: seq<RelayerInfo>) {
    forall i, j :: 0 <= i < j < |s| ==>
      && s[i].latency.Ms? && s[j].latency.Ms?
      && (s[i].fee < s[j].fee || (s[i].fee == s[j].fee && s[i].latency.ms <= s[j].latency.ms))
  }

  lemma SortedIsCheapest(s: seq<RelayerInfo>)
    requires Sorted(s) && forall r :: r in s ==> r.latency.Ms?
    ensures CheapestThenFastest(s)
  {
  }

  lemma {:induction false} HealthyMembers(s: seq<RelayerInfo>)
    ensures forall r :: r in Healthy(s) ==> r.healthy
    ensures multiset(Healthy(s)) <= multiset(s)
  {
    if s != [] {
      HealthyMembers(s[..|s| - 1]);
      assert s == s[..|s| - 1] + [s[|s| - 1]];
    }
  }

  ghost predicate DistinctUrls(s: seq<RelayerInfo>) {
    forall i, j :: 0 <= i < j < |s| ==> s[i].url != s[j].url
  }

  lemma TwiceIn(t: seq<RelayerInfo>, i: nat, j: nat)
    requires i < j < |t| && t[i] == t[j]
    ensures multiset(t)[t[i]] >= 2
  {
    assert t == t[..i] + [t[i]] + t[i + 1..j] + [t[j]] + t[j + 1..];
  }

  lemma OnceIn(s: seq<RelayerInfo>, a: nat)
    requires a < |s| && DistinctUrls(s)
    ensures multiset(s)[s[a]] == 1
  {
    assert s == s[..a] + [s[a]] + s[a + 1..];
    assert s[a] !in s[..a] && s[a] !in s[a + 1..];
  }

  /** Distinctness is a property of the multiset of members. */
  lemma DistinctUrlsOfPermutation(s: seq<RelayerInfo>, t: seq<RelayerInfo>)
    requires DistinctUrls(s) && multiset(t) <= multiset(s)
    ensures DistinctUrls(t)
  {
    forall i, j | 0 <= i < j < |t| ensures t[i].url != t[j].url {
      if t[i].url == t[j].url {
        assert t[i] in multiset(t) && t[j] in multiset(t);
        assert t[i] in s && t[j] in s;
        var a :| 0 <= a < |s| && s[a] == t[i];
        var b :| 0 <= b < |s| && s[b] == t[j];
        assert a == b;
        TwiceIn(t, i, j);
        OnceIn(s, a);
      }
    }
  }

  lemma AboutRanked(s: seq<RelayerInfo>)
    requires DistinctUrls(s) && forall r :: r in s && r.healthy ==> r.latency.Ms?
    ensures Sorted(Ranked(s)) && multiset(Ranked(s)) == multiset(Healthy(s)) && DistinctUrls(Ranked(s))
    ensures forall r :: r in Ranked(s) <==> r.healthy && r in s
    ensures CheapestThenFastest(Ranked(s))
  {
    SortKeeps(Healthy(s));
    HealthyMembers(s);
    assert multiset(Ranked(s)) == multiset(Healthy(s));
    hide Ranked, Healthy, Sorted, CheapestThenFastest, DistinctUrls;
    DistinctUrlsOfPermutation(s, Ranked(s));
    forall r ensures r in Ranked(s) <==> r.healthy && r in s {
      RankedMember(s, r);
    }
    SortedIsCheapest(Ranked(s));
  }

  // ------------------------------------------------------------------
  // Registry
  // ------------------------------------------------------------------

  /** Probing a relayer: Some(info) when the probe completes, whatever it finds, None when it rejects. */
  type Probe = string -> Option<RelayerInfo>

  ghost predicate WellBehaved(probe: Probe) {
    forall url :: probe(url).Some? ==>
      && probe(url).value.url == url
      && (probe(url).value.healthy ==> probe(url).value.latency.Ms?)
  }

  function Probed(info: RelayerInfo, probe: Probe, now: int, keepLatency: bool): RelayerInfo {
    match probe(info.url)
    case Some(fresher) => fresher
    case None => info.(healthy := false, lastChecked := now, latency := if keepLatency then info.latency else Infinite)
  }

  /** What a refresh makes of an entry: always a probe, or only when the entry is stale. */
  function Refreshed(info: RelayerInfo, probe: Probe, now: int, onlyStale: bool): RelayerInfo {
    if onlyStale && now - info.lastChecked <= STALE_THRESHOLD_MS then info else Probed(info, probe, now, onlyStale)
  }

  lemma RefreshedIsGood(info: RelayerInfo, probe: Probe, now: int, onlyStale: bool)
    requires WellBehaved(probe) && (info.healthy ==> info.latency.Ms?)
    ensures var r := Refreshed(info, probe, now, onlyStale); r.url == info.url && (r.healthy ==> r.latency.Ms?)
  {
  }

  /** The first i entries are refreshed, the others are as before. */
  /** The registry's entries, in registration order, under their own urls; healthy ones have been timed. */
  ghost predicate Registered(order: seq<string>, relayers: map<string, RelayerInfo>) {
    && (forall i, j :: 0 <= i < j < |order| ==> order[i] != order[j])
    && (forall url :: url in order <==> url in relayers)
    && (forall url :: url in relayers ==>
          relayers[url].url == url && (relayers[url].healthy ==> relayers[url].latency.Ms?))
  }

  lemma RegisteredPut(order: seq<string>, relayers: map<string, RelayerInfo>, info: RelayerInfo)
    requires Registered(order, relayers) && (info.healthy ==> info.latency.Ms?)
    ensures Registered(if info.url in relayers then order else order + [info.url], relayers[info.url := info])
  {
  }

  ghost predicate RefreshedUpTo(order: seq<string>, relayers: map<string, RelayerInfo>,
                                before: map<string, RelayerInfo>, probe: Probe, now: int, onlyStale: bool, i: nat)
    requires i <= |order|
  {
    && relayers.Keys == before.Keys
    && (forall j :: 0 <= j < |order| ==>
          && order[j] in relayers
          && relayers[order[j]]
                  == if j < i then Refreshed(before[order[j]], probe, now, onlyStale) else before[order[j]])
  }

  lemma RefreshStep(order: seq<string>, relayers: map<string, RelayerInfo>, before: map<string, RelayerInfo>,
                    probe: Probe, now: int, onlyStale: bool, i: nat)
    requires i < |order| && RefreshedUpTo(order, relayers, before, probe, now, onlyStale, i)
    requires Registered(order, relayers) && WellBehaved(probe)
    ensures order[i] in relayers
    ensures var r := Refreshed(relayers[order[i]], probe, now, onlyStale);
            && r.url == order[i] && r.url in relayers && (r.healthy ==> r.latency.Ms?)
            && RefreshedUpTo(order, relayers[r.url := r], before, probe, now, onlyStale, i + 1)
  {
    assert order[i] in order;
    RefreshedIsGood(relayers[order[i]], probe, now, onlyStale);
    hide Refreshed;
  }

  lemma RefreshDone(order: seq<string>, relayers: map<string, RelayerInfo>, before: map<string, RelayerInfo>,
                    probe: Probe, now: int, onlyStale: bool)
    requires Registered(order, relayers)
    requires RefreshedUpTo(order, relayers, before, probe, now, onlyStale, |order|)
    ensures relayers.Keys == before.Keys
    ensures forall url :: url in relayers ==>
              url in before && relayers[url] == Refreshed(before[url], probe, now, onlyStale)
  {
    hide Refreshed;
  }

  function NormalisedUrls(urls: seq<string>): set<string> {
    if urls == [] then {} else NormalisedUrls(urls[..|urls| - 1]) + {NormaliseUrl(urls[|urls| - 1])}
  }

  class RelayerRegistry {
    var order: seq<string>
    var relayers: map<string, RelayerInfo>

    ghost predicate Valid()
      reads this
    {
      Registered(order, relayers)
    }

    function Values(): (vs: seq<RelayerInfo>)
      reads this
      requires Valid()
      ensures |vs| == |order| && DistinctUrls(vs)
      ensures forall r :: r in vs && r.healthy ==> r.latency.Ms?
    {
      seq(|order|, i requires 0 <= i < |order| reads this requires Valid() =>
        (assert order[i] in order; relayers[order[i]]))
    }

    method Put(info: RelayerInfo)
      requires Valid() && (info.healthy ==> info.latency.Ms?)
      modifies this
      ensures Valid() && relayers == old(relayers)[info.url := info]
      ensures order == if info.url in old(relayers) then old(order) else old(order) + [info.url]
    {
      RegisteredPut(order, relayers, info);
      hide Registered;
      if info.url !in relayers {
        order := order + [info.url];
      }
      relayers := relayers[info.url := info];
    }

    constructor (initial: seq<string>)
      ensures Valid() && relayers.Keys == NormalisedUrls(initial)
      ensures forall url :: url in relayers ==> relayers[url] == Seed(url)
    {
      order := [];
      relayers := map[];
      new;
      for i := 0 to |initial|
        invariant Valid() && relayers.Keys == NormalisedUrls(initial[..i])
        invariant forall url :: url in relayers ==> relayers[url] == Seed(url)
      {
        hide NormaliseUrl, Registered;
        assert initial[..i + 1][..i] == initial[..i];
        Put(Seed(NormaliseUrl(initial[i])));
      }
      assert initial[..|initial|] == initial;
    }

    /** Re-probes every relayer, or those last checked more than five minutes ago. */
    method Refresh(probe: Probe, now: int, onlyStale: bool)
      requires Valid() && WellBehaved(probe)
      modifies this
      ensures Valid() && order == old(order) && relayers.Keys == old(relayers.Keys)
      ensures forall url :: url in relayers ==> relayers[url] == Refreshed(old(relayers)[url], probe, now, onlyStale)
    {
      var i := 0;
      ghost var before := relayers;
      while i < |order|
        invariant i <= |order| && Valid() && order == old(order)
        invariant RefreshedUpTo(order, relayers, before, probe, now, onlyStale, i)
      {
        hide Refreshed, RefreshedUpTo, Registered, WellBehaved;
        RefreshStep(order, relayers, before, probe, now, onlyStale, i);
        Put(Refreshed(relayers[order[i]], probe, now, onlyStale));
        i := i + 1;
      }
      RefreshDone(order, relayers, before, probe, now, onlyStale);
    }

    method GetHealthyFromCache() returns (ranked: seq<RelayerInfo>)
      requires Valid()
      ensures ranked == Ranked(Values())
      ensures Sorted(ranked) && multiset(ranked) == multiset(Healthy(Values()))
      ensures forall r :: r in ranked <==> r.healthy && r in Values()
      ensures CheapestThenFastest(ranked)
      ensures DistinctUrls(ranked)
    {
      hide Ranked, Healthy, Sorted, DistinctUrls, CheapestThenFastest, Registered;
      ranked := Ranked(Values());
      AboutRanked(Values());
    }
  }

  // ------------------------------------------------------------------
  // Walking down the ranking
  // ------------------------------------------------------------------

  datatype CallResult = Success(txId: string) | Failure(error: string)

  /** The remote operation: what the n-th call, to this relayer, returns. */
  type Operation = (nat, string) -> CallResult

  datatype FailoverResult = Done(txId: string, relayerUrl: string) | AllRelayersFailed(attempts: map<string, string>)

  const DEFAULT_MAX_RETRIES := 3

  /** How many relayers may be tried; None asks for the default. */
  function Limit(maxRetries: Option<int>, count: nat): (limit: nat)
    ensures limit <= count
  {
    var most := if maxRetries.Some? then maxRetries.value else DEFAULT_MAX_RETRIES;
    if most < 0 then 0 else if most < count then most else count
  }

  function Urls(rs: seq<RelayerInfo>): seq<string> {
    seq(|rs|, i requires 0 <= i < |rs| => rs[i].url)
  }

  /** attempts holds exactly the errors of the first n relayers. */
  ghost predicate RecordsPrefix(attempts: map<string, string>, healthy: seq<RelayerInfo>, op: Operation, n: nat)
    requires n <= |healthy|
  {
    && (forall url :: url in attempts <==> exists i :: 0 <= i < n && healthy[i].url == url)
    && (forall i :: 0 <= i < n ==> op(i, healthy[i].url) == Failure(attempts[healthy[i].url]))
  }

  /**
   * What a walk down the ranking amounts to. called lists the urls called, in order; all but the last one failed.
   * On success the last one succeeded; on failure the whole permitted prefix was tried and its errors recorded.
   */
  ghost predicate Walked(healthy: seq<RelayerInfo>, maxRetries: Option<int>, op: Operation, r: FailoverResult,
                         called: seq<string>) {
    && |called| <= Limit(maxRetries, |healthy|)
    && called == Urls(healthy)[..|called|]
    && (forall i :: 0 <= i < |called| - 1 ==> op(i, called[i]).Failure?)
    && (r.Done? ==> called != [] && r.relayerUrl == called[|called| - 1]
                    && op(|called| - 1, r.relayerUrl) == Success(r.txId))
    && (healthy == [] ==> r == AllRelayersFailed(map["(none)" := "No healthy relayers available"]))
    && (r.AllRelayersFailed? && healthy != [] ==>
          |called| == Limit(maxRetries, |healthy|) && RecordsPrefix(r.attempts, healthy, op, |called|))
  }

  lemma RecordsNext(attempts: map<string, string>, healthy: seq<RelayerInfo>, op: Operation, n: nat, error: string)
    requires n < |healthy| && DistinctUrls(healthy) && RecordsPrefix(attempts, healthy, op, n)
    requires op(n, healthy[n].url) == Failure(error)
    ensures RecordsPrefix(attempts[healthy[n].url := error], healthy, op, n + 1)
  {
  }

  /** Calls the ranked relayers in order until one succeeds or the limit is reached. */
  method TryWithFailover(healthy: seq<RelayerInfo>, maxRetries: Option<int>, op: Operation)
    returns (r: FailoverResult, called: seq<string>)
    requires DistinctUrls(healthy)
    ensures Walked(healthy, maxRetries, op, r, called)
    ensures var most := if maxRetries.None? then 3 else if maxRetries.value < 0 then 0 else maxRetries.value;
            && |called| <= most && |called| <= |healthy|
            && (r.AllRelayersFailed? ==> |called| == if most < |healthy| then most else |healthy|)
            && (r.Done? <==> exists i :: 0 <= i < most && i < |healthy| && op(i, healthy[i].url).Success?)
  {
    called := [];
    if |healthy| == 0 {
      return AllRelayersFailed(map["(none)" := "No healthy relayers available"]), [];
    }
    var attempts: map<string, string> := map[];
    var limit := Limit(maxRetries, |healthy|);
    for i := 0 to limit
      invariant called == Urls(healthy)[..i]
      invariant RecordsPrefix(attempts, healthy, op, i)
    {
      var relayer := healthy[i];
      assert Urls(healthy)[..i + 1] == Urls(healthy)[..i] + [relayer.url];
      called := called + [relayer.url];
      match op(i, relayer.url) {
        case Success(txId) =>
          return Done(txId, relayer.url), called;
        case Failure(error) =>
          RecordsNext(attempts, healthy, op, i, error);
          attempts := attempts[relayer.url := error];
      }
    }
    r := AllRelayersFailed(attempts);
  }

  /**
   * A submission: every relayer is re-probed, the stale ones again, and the healthy ones are tried in rank order.
   * A success comes from a relayer that was healthy, after every better-ranked one failed.
   */
  method Submit(registry: RelayerRegistry, maxRetries: Option<int>, probe: Probe, now: int,
                reprobe: Probe, later: int, op: Operation)
    returns (r: FailoverResult, called: seq<string>, healthy: seq<RelayerInfo>)
    requires registry.Valid() && WellBehaved(probe) && WellBehaved(reprobe)
    modifies registry
    ensures registry.Valid() && registry.order == old(registry.order)
    ensures forall url :: url in registry.relayers ==>
              registry.relayers[url]
              == Refreshed(Refreshed(old(registry.relayers)[url], probe, now, false), reprobe, later, true)
    ensures Sorted(healthy) && multiset(healthy) == multiset(Healthy(registry.Values()))
    ensures Walked(healthy, maxRetries, op, r, called)
    ensures r.Done? ==>
              && |called| <= |healthy|
              && healthy[|called| - 1].healthy && healthy[|called| - 1].url == r.relayerUrl
  {
    hide Refreshed, Ranked, Limit, Precedes, RecordsPrefix, Registered, WellBehaved, Sorted, Healthy, DistinctUrls;
    registry.Refresh(probe, now, false);
    registry.Refresh(reprobe, later, true);
    healthy := registry.GetHealthyFromCache();
    r, called := TryWithFailover(healthy, maxRetries, op);
    if r.Done? {
      assert healthy[|called| - 1] in healthy;
    }
  }

  // ------------------------------------------------------------------
  // Registry entries, in plain terms
  // ------------------------------------------------------------------

  /** One trailing slash is dropped, and only one. */
  lemma NormalisedUrlIs(url: string)
    ensures NormaliseUrl(url + "/") == url
    ensures (url == "" || url[|url| - 1] != '/') ==> NormaliseUrl(url) == url
  {
    assert (url + "/")[..|url + "/"| - 1] == url;
  }

  /** Before its first probe a relayer is not healthy, so a new registry ranks nothing. */
  lemma UnprobedAreNotRanked(s: seq<RelayerInfo>)
    requires forall r :: r in s ==> r == Seed(r.url)
    ensures forall r :: r !in Ranked(s)
  {
    forall r ensures r !in Ranked(s) {
      RankedMember(s, r);
    }
  }

  /**
   * A full refresh takes every probe's word, and marks as unhealthy, untimed and checked now whatever could not be
   * probed. A partial one leaves alone what was checked in the last five minutes.
   */
  lemma RefreshIs(info: RelayerInfo, probe: Probe, now: int)
    ensures probe(info.url).Some? ==> Refreshed(info, probe, now, false) == probe(info.url).value
    ensures probe(info.url).None? ==>
              var r := Refreshed(info, probe, now, false);
              !r.healthy && r.latency.Infinite? && r.lastChecked == now && r.url == info.url && r.fee == info.fee
    ensures now - info.lastChecked <= 5 * 60 * 1000 ==> Refreshed(info, probe, now, true) == info
    ensures now - info.lastChecked > 5 * 60 * 1000 ==>
              if probe(info.url).Some? then Refreshed(info, probe, now, true) == probe(info.url).value
              else
                var r := Refreshed(info, probe, now, true);
                && !r.healthy && r.latency == info.latency && r.lastChecked == now
                && r.url == info.url && r.fee == info.fee
  {
  }
}
