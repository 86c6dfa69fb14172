/**
  Answering a query (`services/resolver/resolver.go`): own zones first, then the blocklist, then the cache of
  upstream answers, then an upstream server.
 */
module Resolver {
  import opened Wrappers
  import opened Strings
  import opened Names
  import opened Domain
  import opened Alias
  import opened WireResponse
  import DnsCache
  import ZoneCache

  const NOERROR := 0
  const SERVFAIL := 2
  const NXDOMAIN := 3

  /** The collaborators other than cache and upstream client; each may be missing. */
  datatype Setup = Setup(
    psl: SuffixList,
    zone: Option<Question -> (seq<Record>, bool)>,
    alias: Option<(Question, seq<Record>) -> (seq<Record>, Option<ChaseError>)>,
    blocklist: Option<Question -> bool>)

  /** What the upstream client says if it is asked. */
  datatype Upstream = NoClient | Fails | Replies(records: seq<Record>)

  datatype Source = FromZone | FromBlocklist | FromCache | FromUpstream

  function BuildResponse(q: Question, rcode: nat, records: seq<Record>): Response {
    Response(q.id, rcode, q, records, [], [])
  }

  predicate IsFatal(err: Option<ChaseError>) {
    err == Some(DepthExceeded) || err == Some(LoopDetected)
  }

  /** `resolveFromZone`: the records and the alias error, or `None` when the zones have nothing. */
  function ZoneRecords(c: Setup, q: Question): Option<(seq<Record>, Option<ChaseError>)> {
    if c.zone.None? then None
    else
      var (records, found) := c.zone.value(q);
      if !found || records == [] then None
      else if c.alias.None? then Some((records, None))
      else Some(c.alias.value(q, records))
  }

  function ZoneAnswer(q: Question, records: seq<Record>, err: Option<ChaseError>): Response {
    if IsFatal(err) then BuildResponse(q, SERVFAIL, []) else BuildResponse(q, NOERROR, records)
  }

  predicate Blocked(c: Setup, q: Question) {
    c.blocklist.Some? && c.blocklist.value(q)
  }

  function UpstreamAnswer(q: Question, up: Upstream): Response {
    if up.Replies? then BuildResponse(q, NOERROR, up.records) else BuildResponse(q, SERVFAIL, [])
  }

  /** Answer, where it comes from, and the cache afterwards; `None` is a resolver without a cache. */
  function Handle(c: Setup, capacity: nat, cache: Option<DnsCache.Lru>, q: Question, now: Time, up: Upstream):
    (Response, Source, Option<DnsCache.Lru>)
  {
    var own := ZoneRecords(c, q);
    if own.Some? then (ZoneAnswer(q, own.value.0, own.value.1), FromZone, cache)
    else if Blocked(c, q) then (BuildResponse(q, NXDOMAIN, []), FromBlocklist, cache)
    else match cache
      case None => (UpstreamAnswer(q, up), FromUpstream, None)
      case Some(s) =>
        var hit := DnsCache.GetResult(s, q.Key(c.psl), now);
        var s' := DnsCache.GetEffect(s, capacity, q.Key(c.psl), now);
        if hit != [] then (BuildResponse(q, NOERROR, hit), FromCache, Some(s'))
        else (UpstreamAnswer(q, up), FromUpstream,
              Some(if up.Replies? then DnsCache.SetEffect(c.psl, s', capacity, up.records) else s'))
  }

  class Resolver {
    const setup: Setup
    const cache: DnsCache.Cache?

    constructor (setup: Setup, cache: DnsCache.Cache?)
      ensures this.setup == setup && this.cache == cache
    {
      this.setup, this.cache := setup, cache;
    }

    function Footprint(): set<object> {
      if cache == null then {} else {cache.lru}
    }

    function Capacity(): nat {
      if cache == null then 0 else cache.lru.capacity
    }

    function View(): Option<DnsCache.Lru>
      reads Footprint()
    {
      if cache == null then None else Some(cache.lru.contents)
    }

    method HandleQuery(q: Question, now: Time, up: Upstream) returns (resp: Response, ghost source: Source)
      requires cache != null ==> cache.psl == setup.psl
      modifies Footprint()
      ensures (resp, source, View()) == Handle(setup, Capacity(), old(View()), q, now, up)
    {
      hide CacheKey;
      var records, found, err := ResolveFromZone(q);
      if found {
        source := FromZone;
        if IsFatal(err) {
          return BuildResponse(q, SERVFAIL, []), source;
        }
        return BuildResponse(q, NOERROR, records), source;
      }
      if setup.blocklist.Some? && setup.blocklist.value(q) {
        return BuildResponse(q, NXDOMAIN, []), FromBlocklist;
      }
      if cache != null {
        var cached, hit := cache.Get(q.Key(setup.psl), now);
        if hit {
          return BuildResponse(q, NOERROR, cached), FromCache;
        }
      }
      source := FromUpstream;
      if !up.Replies? {
        return BuildResponse(q, SERVFAIL, []), source;
      }
      if cache != null {
        var _ := cache.Set(up.records);
      }
      resp := BuildResponse(q, NOERROR, up.records);
    }

    method ResolveFromZone(q: Question) returns (records: seq<Record>, found: bool, err: Option<ChaseError>)
      ensures match ZoneRecords(setup, q)
              case None => !found
              case Some((rrs, e)) => found && records == rrs && err == e
    {
      if setup.zone.None? {
        return [], false, None;
      }
      var answer := setup.zone.value(q);
      records, found, err := answer.0, answer.1, None;
      if !found || |records| == 0 {
        return [], false, None;
      }
      if setup.alias.Some? {
        var chased := setup.alias.value(q, records);
        records, err := chased.0, chased.1;
      }
    }
  }

  // ---------- One query ----------

  /** The resolver without a cache: zones, then the blocklist, then the upstream server. */
  function Uncached(c: Setup, q: Question, up: Upstream): Response {
    match ZoneRecords(c, q)
    case Some((records, err)) => ZoneAnswer(q, records, err)
    case None => if Blocked(c, q) then BuildResponse(q, NXDOMAIN, []) else UpstreamAnswer(q, up)
  }

  /**
    Every answer echoes ID and question, and is what a resolver without a cache would answer if the upstream
    server replied with what the cache holds unexpired, or else with what it does reply.
   */
  lemma AnswersAsUncached(c: Setup, capacity: nat, s: DnsCache.Lru, q: Question, now: Time, up: Upstream)
    ensures var (resp, source, _) := Handle(c, capacity, Some(s), q, now, up);
            && resp.id == q.id && resp.question == q
            && (source == FromCache ==>
                DnsCache.GetResult(s, q.Key(c.psl), now) != [] &&
                resp == Uncached(c, q, Replies(DnsCache.GetResult(s, q.Key(c.psl), now))))
            && (source == FromUpstream ==> DnsCache.GetResult(s, q.Key(c.psl), now) == [])
            && (source != FromCache ==> resp == Uncached(c, q, up))
  {
    hide CacheKey;
  }

  /**
    Every answer, whatever the cache holds, or without one, by where it comes from.  The zones come first, if they
    find records, and the alias resolver's fatal errors are a server failure; then the blocklist; what the cache
    answers is a success with records; and the rest is what the upstream client replies, or a server failure if it
    has nothing to reply or there is none.
   */
  lemma AnswersBySource(c: Setup, capacity: nat, cache: Option<DnsCache.Lru>, q: Question, now: Time, up: Upstream)
    ensures var (resp, source, _) := Handle(c, capacity, cache, q, now, up);
            var (own, found) := if c.zone.Some? then c.zone.value(q) else ([], false);
            var (chain, err) := if c.alias.Some? then c.alias.value(q, own) else (own, None);
            var inZone := found && own != [];
            var fatal := err == Some(DepthExceeded) || err == Some(LoopDetected);
            var blocked := c.blocklist.Some? && c.blocklist.value(q);
            && resp.id == q.id && resp.question == q && resp.authority == [] && resp.additional == []
            && (source == FromZone <==> inZone)
            && (source == FromBlocklist <==> !inZone && blocked)
            && (source == FromCache ==> cache.Some?)
            && (match source
                case FromZone =>
                  if fatal then resp.rcode == 2 && resp.answers == [] else resp.rcode == 0 && resp.answers == chain
                case FromBlocklist => resp.rcode == 3 && resp.answers == []
                case FromCache => resp.rcode == 0 && resp.answers != []
                case FromUpstream =>
                  match up
                  case Replies(records) => resp.rcode == 0 && resp.answers == records
                  case _ => resp.rcode == 2 && resp.answers == [])
            && (resp.rcode == 2 <==> (inZone && fatal) || (source == FromUpstream && !up.Replies?))
  {
    hide CacheKey, DnsCache.GetResult, DnsCache.GetEffect, DnsCache.SetEffect;
  }

  /**
    On the zone path a query fails, with an empty answer, exactly when its chain of aliases is longer than the
    limit before any owner repeats, or comes back to an owner within the limit.
   */
  lemma ServfailExactly(c: Setup, l: Lookups, maxDepth: int, q: Question, records: seq<Record>, capacity: nat,
                        cache: Option<DnsCache.Lru>, now: Time, up: Upstream)
    requires c.zone.Some? && c.alias.Some? && c.zone.value(q) == (records, true) && records != []
    requires Outcome(l, maxDepth, q, records, c.alias.value(q, records).0, c.alias.value(q, records).1)
    ensures var resp := Handle(c, capacity, cache, q, now, up).0;
            && (resp.rcode == SERVFAIL <==>
                && ShouldChase(q, records)
                && ((maxDepth > 0 && HeadAt(l, q, records, maxDepth).Some? && NoRepeatBefore(l, q, records, maxDepth))
                    || exists k: nat :: FirstRepeat(l, q, records, k) && (maxDepth <= 0 || k + 1 <= maxDepth)))
            && (resp.rcode == SERVFAIL ==> resp.answers == [])
            && (resp.rcode != SERVFAIL ==> resp.rcode == NOERROR && resp.answers == c.alias.value(q, records).0)
  {
    hide HeadAt, NoRepeatBefore, FirstRepeat, Follow;
    var (chain, err) := c.alias.value(q, records);
    if ShouldChase(q, records) {
      DepthErrorExactly(l, maxDepth, q, records, chain, err);
      LoopErrorExactly(l, maxDepth, q, records, chain, err);
    }
  }

  /**
    The zone cache files a CNAME under its own type only, so what it finds for any other type never begins with
    one: started from the resolver's zones, a chase always takes its fast path.
   */
  lemma ZonesNeverStartAChase(psl: SuffixList, h: seq<ZoneCache.Op>, q: Question)
    ensures !ShouldChase(q, ZoneCache.Find(psl, ZoneCache.Run(psl, h), q).0)
  {
    hide ZoneCache.Find, ZoneCache.Run;
    ZoneCache.FoundHaveType(psl, h, q);
  }

  // ---------- Over all runs ----------

  datatype Query = Query(q: Question, at: Time, up: Upstream)

  /** The cache after these queries. */
  function Run(c: Setup, capacity: nat, h: seq<Query>): DnsCache.Lru {
    if h == [] then DnsCache.Lru([], map[])
    else
      var e := h[|h| - 1];
      Handle(c, capacity, Some(Run(c, capacity, h[..|h| - 1])), e.q, e.at, e.up).2.value
  }

  /** What one query asks of the cache. */
  function CacheOps(c: Setup, s: DnsCache.Lru, e: Query): seq<DnsCache.Event> {
    if ZoneRecords(c, e.q).Some? || Blocked(c, e.q) then []
    else
      var get := DnsCache.Event(DnsCache.Get(e.q.Key(c.psl)), e.at);
      if DnsCache.GetResult(s, e.q.Key(c.psl), e.at) == [] && e.up.Replies?
      then [get, DnsCache.Event(DnsCache.Set(e.up.records), e.at)]
      else [get]
  }

  function CacheHistory(c: Setup, capacity: nat, h: seq<Query>): seq<DnsCache.Event> {
    if h == [] then []
    else CacheHistory(c, capacity, h[..|h| - 1]) + CacheOps(c, Run(c, capacity, h[..|h| - 1]), h[|h| - 1])
  }

  function Clock(h: seq<Query>, start: Time): Time {
    if h == [] then start else h[|h| - 1].at
  }

  predicate Ordered(h: seq<Query>, start: Time) {
    h == [] || (Ordered(h[..|h| - 1], start) && Clock(h[..|h| - 1], start) <= h[|h| - 1].at)
  }

  lemma CacheStep(c: Setup, capacity: nat, ops: seq<DnsCache.Event>, e: Query, start: Time)
    requires DnsCache.Ordered(ops, start) && DnsCache.Clock(ops, start) <= e.at
    ensures var s := DnsCache.Run(c.psl, capacity, ops);
            var more := ops + CacheOps(c, s, e);
            && Handle(c, capacity, Some(s), e.q, e.at, e.up).2 == Some(DnsCache.Run(c.psl, capacity, more))
            && DnsCache.Ordered(more, start) && DnsCache.Clock(more, start) <= e.at
  {
    hide CacheKey, DnsCache.GetEffect, DnsCache.SetEffect;
    var s := DnsCache.Run(c.psl, capacity, ops);
    var key := e.q.Key(c.psl);
    var get := DnsCache.Event(DnsCache.Get(key), e.at);
    var put := DnsCache.Event(DnsCache.Set(if e.up.Replies? then e.up.records else []), e.at);
    assert ops + [] == ops;
    assert (ops + [get])[..|ops|] == ops;
    assert (ops + [get, put])[..|ops| + 1] == ops + [get];
  }

  /** The cache of the resolver is a cache with this history. */
  lemma {:induction false} RunIsCacheRun(c: Setup, capacity: nat, h: seq<Query>, start: Time)
    requires Ordered(h, start)
    ensures var ops := CacheHistory(c, capacity, h);
            && Run(c, capacity, h) == DnsCache.Run(c.psl, capacity, ops)
            && DnsCache.Ordered(ops, start) && DnsCache.Clock(ops, start) <= Clock(h, start)
    decreases |h|
  {
    hide CacheOps, Handle;
    if h != [] {
      RunIsCacheRun(c, capacity, h[..|h| - 1], start);
      CacheStep(c, capacity, CacheHistory(c, capacity, h[..|h| - 1]), h[|h| - 1], start);
    }
  }

  /** Query `j` asked the upstream server, whose reply was cached under the key. */
  predicate Caches(c: Setup, capacity: nat, h: seq<Query>, j: nat, key: Str)
    requires j < |h|
  {
    var e := h[j];
    && Handle(c, capacity, Some(Run(c, capacity, h[..j])), e.q, e.at, e.up).1 == FromUpstream
    && e.up.Replies? && e.up.records != [] && forall r | r in e.up.records :: r.Key(c.psl) == key
  }

  /** Query `j` did so, and none after it. */
  predicate LatestCached(c: Setup, capacity: nat, h: seq<Query>, j: nat, key: Str) {
    j < |h| && Caches(c, capacity, h, j, key) && forall i: nat | j < i < |h| :: !Caches(c, capacity, h, i, key)
  }

  lemma CachesBefore(c: Setup, capacity: nat, h: seq<Query>, j: nat, key: Str)
    requires j < |h| - 1
    ensures Caches(c, capacity, h, j, key) <==> Caches(c, capacity, h[..|h| - 1], j, key)
  {
    hide Handle, Run, CacheKey;
    assert h[..|h| - 1][..j] == h[..j];
  }

  /** What the last query does to the flat map. */
  lemma FlatStep(c: Setup, capacity: nat, h: seq<Query>, key: Str)
    requires h != []
    ensures var before, last := h[..|h| - 1], |h| - 1;
            var flat, flat' := DnsCache.FlatRun(c.psl, CacheHistory(c, capacity, before)),
                               DnsCache.FlatRun(c.psl, CacheHistory(c, capacity, h));
            if Caches(c, capacity, h, last, key) then key in flat' && h[last].up == Replies(flat'[key])
            else (key in flat' <==> key in flat) && (key in flat ==> flat'[key] == flat[key])
  {
    hide *;
    var before, e := h[..|h| - 1], h[|h| - 1];
    var ops := CacheHistory(c, capacity, before);
    HistoryStep(c, capacity, h);
    WhatIsCached(c, capacity, h, key);
    FlatOps(c, Run(c, capacity, before), ops, e);
  }

  lemma HistoryStep(c: Setup, capacity: nat, h: seq<Query>)
    requires h != []
    ensures var before := h[..|h| - 1];
            CacheHistory(c, capacity, h) ==
            CacheHistory(c, capacity, before) + CacheOps(c, Run(c, capacity, before), h[|h| - 1])
  {
  }

  /** The reply this query stores, if any. */
  function Stored(c: Setup, s: DnsCache.Lru, e: Query): seq<Record> {
    var asked := ZoneRecords(c, e.q).None? && !Blocked(c, e.q) && DnsCache.GetResult(s, e.q.Key(c.psl), e.at) == [];
    if asked && e.up.Replies? then e.up.records else []
  }

  lemma WhatIsCached(c: Setup, capacity: nat, h: seq<Query>, key: Str)
    requires h != []
    ensures var e, stored := h[|h| - 1], Stored(c, Run(c, capacity, h[..|h| - 1]), h[|h| - 1]);
            && (DnsCache.Storable(c.psl, stored) ==> e.up == Replies(stored))
            && (Caches(c, capacity, h, |h| - 1, key) <==>
                DnsCache.Storable(c.psl, stored) && stored[0].Key(c.psl) == key)
  {
    var e := h[|h| - 1];
    if e.up.Replies? {
      DnsCache.StoresIsStorable(c.psl, DnsCache.Event(DnsCache.Set(e.up.records), e.at), key);
    }
    hide Run, ZoneRecords, CacheKey, DnsCache.GetResult, DnsCache.GetEffect, DnsCache.SetEffect, DnsCache.OneKey;
  }

  lemma FlatOps(c: Setup, s: DnsCache.Lru, ops: seq<DnsCache.Event>, e: Query)
    ensures var flat, stored := DnsCache.FlatRun(c.psl, ops), Stored(c, s, e);
            DnsCache.FlatRun(c.psl, ops + CacheOps(c, s, e)) ==
            if DnsCache.Storable(c.psl, stored) then flat[stored[0].Key(c.psl) := stored] else flat
  {
    hide ZoneRecords, Blocked, CacheKey, DnsCache.GetResult, DnsCache.OneKey, DnsCache.FlatRun;
    var get := DnsCache.Event(DnsCache.Get(e.q.Key(c.psl)), e.at);
    var put := DnsCache.Event(DnsCache.Set(Stored(c, s, e)), e.at);
    assert ops + [] == ops;
    FlatSnoc(c.psl, ops, get);
    FlatSnoc(c.psl, ops + [get], put);
    assert ops + [get] + [put] == ops + [get, put];
  }

  lemma FlatSnoc(psl: SuffixList, ops: seq<DnsCache.Event>, op: DnsCache.Event)
    ensures DnsCache.FlatRun(psl, ops + [op]) == DnsCache.ApplyFlat(psl, DnsCache.FlatRun(psl, ops), op)
  {
    hide DnsCache.ApplyFlat;
    assert (ops + [op])[..|ops|] == ops;
  }

  /** What the flat map holds is the reply cached last. */
  lemma {:induction false} FlatIsLatestReply(c: Setup, capacity: nat, h: seq<Query>, key: Str) returns (j: nat)
    ensures var flat := DnsCache.FlatRun(c.psl, CacheHistory(c, capacity, h));
            && (key in flat ==> LatestCached(c, capacity, h, j, key) && h[j].up == Replies(flat[key]))
            && forall k: nat | LatestCached(c, capacity, h, k, key) :: key in flat && h[k].up == Replies(flat[key])
    decreases |h|
  {
    hide Caches, CacheHistory, DnsCache.FlatRun;
    j := 0;
    if h == [] {
      NothingCached(c, capacity, key);
    } else {
      var before, last := h[..|h| - 1], |h| - 1;
      j := FlatIsLatestReply(c, capacity, before, key);
      FlatStep(c, capacity, h, key);
      forall k: nat | k < last
        ensures Caches(c, capacity, h, k, key) <==> Caches(c, capacity, before, k, key)
      {
        CachesBefore(c, capacity, h, k, key);
      }
      if Caches(c, capacity, h, last, key) {
        j := last;
      }
      forall k: nat | LatestCached(c, capacity, h, k, key) && k < last
        ensures LatestCached(c, capacity, before, k, key)
      {
      }
    }
  }

  lemma NothingCached(c: Setup, capacity: nat, key: Str)
    ensures key !in DnsCache.FlatRun(c.psl, CacheHistory(c, capacity, []))
  {
  }

  /**
    Over every run with a clock that does not go back, the resolver answers as one without a cache would if an
    upstream server gave it, for an answer from the cache, an earlier reply without the records past their expiry, and
    else the reply to this query.  The earlier reply is the last one that an upstream server gave and that was cached
    under the key of the question, and all of its records have that key; an upstream server is asked only if all of
    them are past their expiry, or the key was evicted.
   */
  lemma CachedResolverRefines(c: Setup, capacity: nat, h: seq<Query>, start: Time, e: Query)
    requires capacity > 0 && Ordered(h, start) && Clock(h, start) <= e.at
    ensures var key := e.q.Key(c.psl);
            var (resp, source, _) := Handle(c, capacity, Some(Run(c, capacity, h)), e.q, e.at, e.up);
            && (source == FromCache ==>
                exists j: nat :: LatestCached(c, capacity, h, j, key) &&
                  var left := DnsCache.Kept(h[j].up.records, DnsCache.AliveAt(e.at));
                  left != [] && resp == Uncached(c, e.q, Replies(left)))
            && (source != FromCache ==> resp == Uncached(c, e.q, e.up))
            && (source == FromUpstream && key !in DnsCache.Evicted(c.psl, capacity, CacheHistory(c, capacity, h)) ==>
                forall j: nat | LatestCached(c, capacity, h, j, key) ::
                  DnsCache.Kept(h[j].up.records, DnsCache.AliveAt(e.at)) == [])
  {
    hide *;
    var key, ops, s := e.q.Key(c.psl), CacheHistory(c, capacity, h), Run(c, capacity, h);
    RunIsCacheRun(c, capacity, h, start);
    DnsCache.PruningIsUnobservable(c.psl, capacity, ops, start, key, e.at);
    AnswersAsUncached(c, capacity, s, e.q, e.at, e.up);
    var j := FlatIsLatestReply(c, capacity, h, key);
    var flat := DnsCache.FlatRun(c.psl, ops);
    if key in flat {
      DnsCache.UnexpiredIsKept(flat[key], e.at);
    }
  }

  /** A record that may be found under the question's key: its type, its class, and a name the key cannot tell apart. */
  predicate Fits(psl: SuffixList, r: Record, q: Question) {
    && r.rtype == q.qtype
    && (r.rclass == q.qclass || (!ValidClass(r.rclass) && !ValidClass(q.qclass)))
    && (Canonical(r.name) == Canonical(q.name) || Overlaps(psl, r.name, q.name) || Overlaps(psl, q.name, r.name))
  }

  /**
    Over every run, what the cache answers fits the question: each record has its type, its class unless neither
    class is supported, and its canonical name unless the names have separators that let them overlap.
   */
  lemma CachedAnswersFit(c: Setup, capacity: nat, h: seq<Query>, start: Time, e: Query)
    requires capacity > 0 && Ordered(h, start) && Clock(h, start) <= e.at
    ensures var (resp, source, _) := Handle(c, capacity, Some(Run(c, capacity, h)), e.q, e.at, e.up);
            source == FromCache ==>
              forall r | r in resp.answers ::
                && Fits(c.psl, r, e.q)
                && (ToldApart(c.psl, r.name, e.q.name) ==> Canonical(r.name) == Canonical(e.q.name))
  {
    hide *;
    var key, s := e.q.Key(c.psl), Run(c, capacity, h);
    RunIsCacheRun(c, capacity, h, start);
    DnsCache.PruningIsUnobservable(c.psl, capacity, CacheHistory(c, capacity, h), start, key, e.at);
    CacheAnswer(c, capacity, s, e);
    var answers := DnsCache.GetResult(s, key, e.at);
    if answers != [] {
      HitHasKey(c.psl, s, key, e.at);
      forall r | r in answers
        ensures Fits(c.psl, r, e.q)
        ensures ToldApart(c.psl, r.name, e.q.name) ==> Canonical(r.name) == Canonical(e.q.name)
      {
        KeyFits(c.psl, r, e.q);
      }
    }
  }

  lemma CacheAnswer(c: Setup, capacity: nat, s: DnsCache.Lru, e: Query)
    ensures var (resp, source, _) := Handle(c, capacity, Some(s), e.q, e.at, e.up);
            source == FromCache ==>
              && resp.answers == DnsCache.GetResult(s, e.q.Key(c.psl), e.at) && resp.answers != []
  {
    hide CacheKey, DnsCache.GetResult;
  }

  lemma HitHasKey(psl: SuffixList, s: DnsCache.Lru, key: Str, now: Time)
    requires forall k | k in s.values :: DnsCache.OneKey(psl, s.values[k], k)
    ensures forall r | r in DnsCache.GetResult(s, key, now) :: r.Key(psl) == key
  {
    hide CacheKey;
    if key in s.values {
      DnsCache.UnexpiredOneKey(psl, s.values[key], key, now);
    }
  }

  lemma KeyFits(psl: SuffixList, r: Record, q: Question)
    requires r.Key(psl) == q.Key(psl)
    ensures Fits(psl, r, q)
    ensures ToldApart(psl, r.name, q.name) ==> Canonical(r.name) == Canonical(q.name)
  {
    hide CacheKey, Canonical, Overlaps, ToldApart;
    CacheKeyEqual(psl, r.name, r.rtype, r.rclass, q.name, q.qtype, q.qclass);
    if ToldApart(psl, r.name, q.name) {
      CacheKeyInjective(psl, r.name, r.rtype, r.rclass, q.name, q.qtype, q.qclass);
    }
  }
}
