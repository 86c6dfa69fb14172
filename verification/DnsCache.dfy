/**
  The cache of upstream answers (`repos/dnscache`): a least-recently-used map whose lists are pruned of expired
  records when they are read.  Its specification is a plain map that never prunes and never evicts.
 */
module DnsCache {
  import opened Wrappers
  import opened Strings
  import opened Numbers
  import opened Pigeonhole
  import opened Domain

  // ---------- The least-recently-used library, by its documentation ----------

  /** Keys from the least to the most recently used, and their values. */
  datatype Lru = Lru(order: seq<Str>, values: map<Str, seq<Record>>)

  function Without(order: seq<Str>, key: Str): (r: seq<Str>)
    ensures forall k :: k in r <==> k in order && k != key
  {
    if order == [] then []
    else if order[0] == key then Without(order[1..], key)
    else [order[0]] + Without(order[1..], key)
  }

  function Touched(order: seq<Str>, key: Str): seq<Str> {
    Without(order, key) + [key]
  }

  /** The key an addition pushes out, if any. */
  function Victim(s: Lru, capacity: nat, key: Str): Option<Str> {
    if key !in s.values && |s.order| >= capacity && s.order != [] then Some(s.order[0]) else None
  }

  function LruAdd(s: Lru, capacity: nat, key: Str, records: seq<Record>): Lru {
    match Victim(s, capacity, key)
    case None => Lru(Touched(s.order, key), s.values[key := records])
    case Some(oldest) => Lru(Touched(Without(s.order, oldest), key), (s.values - {oldest})[key := records])
  }

  function LruUse(s: Lru, key: Str): Lru {
    if key in s.values then Lru(Touched(s.order, key), s.values) else s
  }

  function LruRemove(s: Lru, key: Str): Lru {
    Lru(Without(s.order, key), s.values - {key})
  }

  class LruCache {
    const capacity: nat
    var contents: Lru

    constructor (capacity: nat)
      requires capacity > 0
      ensures this.capacity == capacity && contents == Lru([], map[])
    {
      this.capacity, contents := capacity, Lru([], map[]);
    }

    method Add(key: Str, records: seq<Record>)
      modifies this
      ensures contents == LruAdd(old(contents), capacity, key, records)
    {
      contents := LruAdd(contents, capacity, key, records);
    }

    method Get(key: Str) returns (records: seq<Record>, found: bool)
      modifies this
      ensures contents == LruUse(old(contents), key)
      ensures found == (key in old(contents).values)
      ensures records == if found then old(contents).values[key] else []
    {
      found := key in contents.values;
      records := if found then contents.values[key] else [];
      contents := LruUse(contents, key);
    }

    method Remove(key: Str)
      modifies this
      ensures contents == LruRemove(old(contents), key)
    {
      contents := LruRemove(contents, key);
    }
  }

  // ---------- The cache ----------

  function Unexpired(records: seq<Record>, now: Time): seq<Record> {
    if records == [] then []
    else if records[0].Expired(now) then Unexpired(records[1..], now)
    else [records[0]] + Unexpired(records[1..], now)
  }

  /** All records are under one key. */
  predicate OneKey(psl: SuffixList, records: seq<Record>, key: Str) {
    forall i | 0 <= i < |records| :: records[i].Key(psl) == key
  }

  /** `Set` stores this list: it is not empty and its records agree on the key. */
  predicate Storable(psl: SuffixList, records: seq<Record>) {
    records != [] && OneKey(psl, records, records[0].Key(psl))
  }

  function SetEffect(psl: SuffixList, s: Lru, capacity: nat, records: seq<Record>): Lru {
    if Storable(psl, records) then LruAdd(s, capacity, records[0].Key(psl), records) else s
  }

  function GetEffect(s: Lru, capacity: nat, key: Str, now: Time): Lru {
    if key !in s.values then s
    else
      var used, valid := LruUse(s, key), Unexpired(s.values[key], now);
      if valid != [] then LruAdd(used, capacity, key, valid) else LruRemove(used, key)
  }

  function GetResult(s: Lru, key: Str, now: Time): seq<Record> {
    if key in s.values then Unexpired(s.values[key], now) else []
  }

  datatype SetError = MultipleKeys

  class Cache {
    const psl: SuffixList
    const lru: LruCache

    constructor (psl: SuffixList, size: nat)
      requires size > 0
      ensures this.psl == psl && fresh(lru) && lru.capacity == size && lru.contents == Lru([], map[])
    {
      this.psl := psl;
      this.lru := new LruCache(size);
    }

    method Set(records: seq<Record>) returns (err: Option<SetError>)
      modifies lru
      ensures err.None? <==> records == [] || Storable(psl, records)
      ensures lru.contents == SetEffect(psl, old(lru.contents), lru.capacity, records)
    {
      hide CacheKey;
      if |records| == 0 {
        return None;
      }
      var key := records[0].Key(psl);
      for i := 0 to |records|
        invariant OneKey(psl, records[..i], key)
      {
        if records[i].Key(psl) != key {
          return Some(MultipleKeys);
        }
        assert records[..i + 1] == records[..i] + [records[i]];
      }
      assert records[..|records|] == records;
      lru.Add(key, records);
      err := None;
    }

    method Get(key: Str, now: Time) returns (records: seq<Record>, found: bool)
      modifies lru
      ensures lru.contents == GetEffect(old(lru.contents), lru.capacity, key, now)
      ensures records == GetResult(old(lru.contents), key, now) && found == (records != [])
    {
      var stored, present := lru.Get(key);
      if present {
        var validRecords: seq<Record> := [];
        for i := 0 to |stored|
          invariant Unexpired(stored, now) == validRecords + Unexpired(stored[i..], now)
        {
          assert stored[i..][0] == stored[i] && stored[i..][1..] == stored[i + 1..];
          if !stored[i].Expired(now) {
            validRecords := validRecords + [stored[i]];
          }
        }
        assert validRecords == Unexpired(stored, now);
        if |validRecords| > 0 {
          lru.Add(key, validRecords);
          return validRecords, true;
        } else {
          lru.Remove(key);
        }
      }
      return [], false;
    }

    method Delete(key: Str)
      modifies lru
      ensures lru.contents == LruRemove(old(lru.contents), key)
    {
      lru.Remove(key);
    }
  }

  // ---------- The flat specification ----------

  datatype Op = Set(records: seq<Record>) | Get(key: Str) | Delete(key: Str)

  /** An operation and when it happens. */
  datatype Event = Event(op: Op, at: Time)

  function Apply(psl: SuffixList, capacity: nat, s: Lru, e: Event): Lru {
    match e.op
    case Set(records) => SetEffect(psl, s, capacity, records)
    case Get(key) => GetEffect(s, capacity, key, e.at)
    case Delete(key) => LruRemove(s, key)
  }

  /** The plain map: the last list stored under each key and not deleted since. */
  function ApplyFlat(psl: SuffixList, flat: map<Str, seq<Record>>, e: Event): map<Str, seq<Record>> {
    match e.op
    case Set(records) => if Storable(psl, records) then flat[records[0].Key(psl) := records] else flat
    case Get(_) => flat
    case Delete(key) => flat - {key}
  }

  /** The keys pushed out since they were last stored. */
  function ApplyEvicted(psl: SuffixList, capacity: nat, s: Lru, evicted: set<Str>, e: Event): set<Str> {
    match e.op
    case Set(records) =>
      if Storable(psl, records) then
        var key := records[0].Key(psl);
        (match Victim(s, capacity, key) case None => evicted case Some(oldest) => evicted + {oldest}) - {key}
      else evicted
    case Get(_) => evicted
    case Delete(key) => evicted - {key}
  }

  function Run(psl: SuffixList, capacity: nat, h: seq<Event>): Lru {
    if h == [] then Lru([], map[]) else Apply(psl, capacity, Run(psl, capacity, h[..|h| - 1]), h[|h| - 1])
  }

  function FlatRun(psl: SuffixList, h: seq<Event>): map<Str, seq<Record>> {
    if h == [] then map[] else ApplyFlat(psl, FlatRun(psl, h[..|h| - 1]), h[|h| - 1])
  }

  function Evicted(psl: SuffixList, capacity: nat, h: seq<Event>): set<Str> {
    if h == [] then {}
    else ApplyEvicted(psl, capacity, Run(psl, capacity, h[..|h| - 1]), Evicted(psl, capacity, h[..|h| - 1]), h[|h| - 1])
  }

  // ---------- Agreement ----------

  lemma {:induction false} UnexpiredTwice(records: seq<Record>, now: Time, later: Time)
    requires now <= later
    ensures Unexpired(Unexpired(records, now), later) == Unexpired(records, later)
  {
    if records != [] {
      UnexpiredTwice(records[1..], now, later);
    }
  }

  lemma {:induction false} UnexpiredOneKey(psl: SuffixList, records: seq<Record>, key: Str, now: Time)
    requires OneKey(psl, records, key)
    ensures OneKey(psl, Unexpired(records, now), key)
  {
    hide CacheKey;
    if records != [] {
      UnexpiredOneKey(psl, records[1..], key, now);
    }
  }

  /** The library's own invariant: the order lists each key once, and there is room. */
  ghost predicate LruOk(s: Lru, capacity: nat) {
    && Distinct(s.order) && |s.order| <= capacity
    && forall k :: k in s.order <==> k in s.values
  }

  lemma {:induction false} WithoutSpec(order: seq<Str>, key: Str)
    requires Distinct(order)
    ensures Distinct(Without(order, key))
    ensures |Without(order, key)| == if key in order then |order| - 1 else |order|
  {
    if order != [] {
      WithoutSpec(order[1..], key);
      assert order == [order[0]] + order[1..] && order[0] !in order[1..];
    }
  }

  lemma TouchedSpec(order: seq<Str>, key: Str)
    requires Distinct(order)
    ensures Distinct(Touched(order, key))
    ensures |Touched(order, key)| == if key in order then |order| else |order| + 1
    ensures forall k :: k in Touched(order, key) <==> k in order || k == key
  {
    WithoutSpec(order, key);
  }

  lemma LruAddOk(s: Lru, capacity: nat, key: Str, records: seq<Record>)
    requires LruOk(s, capacity) && capacity > 0
    ensures LruOk(LruAdd(s, capacity, key, records), capacity)
  {
    match Victim(s, capacity, key)
    case None => TouchedSpec(s.order, key);
    case Some(oldest) =>
      WithoutSpec(s.order, oldest);
      TouchedSpec(Without(s.order, oldest), key);
  }

  lemma LruUseOk(s: Lru, capacity: nat, key: Str)
    requires LruOk(s, capacity)
    ensures LruOk(LruUse(s, key), capacity)
  {
    TouchedSpec(s.order, key);
  }

  lemma LruRemoveOk(s: Lru, capacity: nat, key: Str)
    requires LruOk(s, capacity)
    ensures LruOk(LruRemove(s, key), capacity)
  {
    WithoutSpec(s.order, key);
  }

  /** From `now` on, the two lists have the same unexpired records. */
  ghost predicate SameFrom(a: seq<Record>, b: seq<Record>, now: Time) {
    forall t | now <= t :: Unexpired(a, t) == Unexpired(b, t)
  }

  /** From `now` on, all records of the list are expired. */
  ghost predicate DeadFrom(a: seq<Record>, now: Time) {
    forall t | now <= t :: Unexpired(a, t) == []
  }

  /** What every stored list keeps. */
  ghost predicate Agrees(psl: SuffixList, s: Lru, flat: map<Str, seq<Record>>, evicted: set<Str>, now: Time) {
    && (forall k | k in s.values ::
          k in flat && s.values[k] != [] && OneKey(psl, s.values[k], k) && SameFrom(s.values[k], flat[k], now))
    && (forall k | k in flat && k !in s.values && k !in evicted :: DeadFrom(flat[k], now))
  }

  lemma AgreesLater(psl: SuffixList, s: Lru, flat: map<Str, seq<Record>>, evicted: set<Str>, now: Time, later: Time)
    requires Agrees(psl, s, flat, evicted, now) && now <= later
    ensures Agrees(psl, s, flat, evicted, later)
  {
  }

  lemma SetAgrees(psl: SuffixList, capacity: nat, s: Lru, flat: map<Str, seq<Record>>, evicted: set<Str>,
                  records: seq<Record>, now: Time)
    requires Agrees(psl, s, flat, evicted, now) && LruOk(s, capacity)
    ensures var e := Event(Set(records), now);
            Agrees(psl, Apply(psl, capacity, s, e), ApplyFlat(psl, flat, e),
                   ApplyEvicted(psl, capacity, s, evicted, e), now)
  {
  }

  lemma GetAgrees(psl: SuffixList, capacity: nat, s: Lru, flat: map<Str, seq<Record>>, evicted: set<Str>, key: Str,
                  now: Time)
    requires Agrees(psl, s, flat, evicted, now) && LruOk(s, capacity)
    ensures Agrees(psl, GetEffect(s, capacity, key, now), flat, evicted, now)
  {
    if key in s.values {
      var valid := Unexpired(s.values[key], now);
      UnexpiredOneKey(psl, s.values[key], key, now);
      forall t | now <= t ensures Unexpired(valid, t) == Unexpired(s.values[key], t) == Unexpired(flat[key], t) {
        UnexpiredTwice(s.values[key], now, t);
      }
      if valid == [] {
        assert DeadFrom(flat[key], now);
      } else {
        assert SameFrom(valid, flat[key], now);
      }
    }
  }

  lemma ApplyAgrees(psl: SuffixList, capacity: nat, s: Lru, flat: map<Str, seq<Record>>, evicted: set<Str>, e: Event)
    requires Agrees(psl, s, flat, evicted, e.at) && LruOk(s, capacity) && capacity > 0
    ensures LruOk(Apply(psl, capacity, s, e), capacity)
    ensures Agrees(psl, Apply(psl, capacity, s, e), ApplyFlat(psl, flat, e),
                   ApplyEvicted(psl, capacity, s, evicted, e), e.at)
  {
    ApplyOk(psl, capacity, s, e);
    match e.op
    case Set(records) => SetAgrees(psl, capacity, s, flat, evicted, records, e.at);
    case Get(key) => GetAgrees(psl, capacity, s, flat, evicted, key, e.at);
    case Delete(key) =>
  }

  lemma ApplyOk(psl: SuffixList, capacity: nat, s: Lru, e: Event)
    requires LruOk(s, capacity) && capacity > 0
    ensures LruOk(Apply(psl, capacity, s, e), capacity)
  {
    match e.op
    case Set(records) =>
      if Storable(psl, records) {
        LruAddOk(s, capacity, records[0].Key(psl), records);
      }
    case Get(key) => GetOk(s, capacity, key, e.at);
    case Delete(key) => LruRemoveOk(s, capacity, key);
  }

  lemma GetOk(s: Lru, capacity: nat, key: Str, now: Time)
    requires LruOk(s, capacity) && capacity > 0
    ensures LruOk(GetEffect(s, capacity, key, now), capacity)
  {
    LruUseOk(s, capacity, key);
    var used, valid := LruUse(s, key), if key in s.values then Unexpired(s.values[key], now) else [];
    LruAddOk(used, capacity, key, valid);
    LruRemoveOk(used, capacity, key);
  }

  // ---------- Over all runs ----------

  function Clock(h: seq<Event>, start: Time): Time {
    if h == [] then start else h[|h| - 1].at
  }

  /** The clock does not go back. */
  predicate Ordered(h: seq<Event>, start: Time) {
    h == [] || (Ordered(h[..|h| - 1], start) && Clock(h[..|h| - 1], start) <= h[|h| - 1].at)
  }

  lemma {:induction false} RunAgrees(psl: SuffixList, capacity: nat, h: seq<Event>, start: Time)
    requires capacity > 0 && Ordered(h, start)
    ensures LruOk(Run(psl, capacity, h), capacity)
    ensures Agrees(psl, Run(psl, capacity, h), FlatRun(psl, h), Evicted(psl, capacity, h), Clock(h, start))
    decreases |h|
  {
    if h != [] {
      hide Agrees, LruOk, Apply, ApplyFlat, ApplyEvicted;
      var before, e := h[..|h| - 1], h[|h| - 1];
      RunAgrees(psl, capacity, before, start);
      AgreesLater(psl, Run(psl, capacity, before), FlatRun(psl, before), Evicted(psl, capacity, before),
                  Clock(before, start), e.at);
      ApplyAgrees(psl, capacity, Run(psl, capacity, before), FlatRun(psl, before), Evicted(psl, capacity, before), e);
    }
  }

  /**
    Over every run with a clock that does not go back, pruning cannot be observed: a hit gives exactly the
    unexpired records, in order, of the list last stored under the key, and a miss on a key still stored and
    never evicted since means that none of its records was unexpired.  The size stays within the capacity.
   */
  lemma PruningIsUnobservable(psl: SuffixList, capacity: nat, h: seq<Event>, start: Time, key: Str, now: Time)
    requires capacity > 0 && Ordered(h, start) && Clock(h, start) <= now
    ensures var answer, flat := GetResult(Run(psl, capacity, h), key, now), FlatRun(psl, h);
            && (answer != [] ==> key in flat && answer == Unexpired(flat[key], now))
            && (answer == [] && key in flat && key !in Evicted(psl, capacity, h) ==> Unexpired(flat[key], now) == [])
    ensures |Run(psl, capacity, h).values| <= capacity
    ensures forall k | k in Run(psl, capacity, h).values ::
              Run(psl, capacity, h).values[k] != [] && OneKey(psl, Run(psl, capacity, h).values[k], k)
  {
    RunAgrees(psl, capacity, h, start);
    var s := Run(psl, capacity, h);
    if key in s.values {
      assert SameFrom(s.values[key], FlatRun(psl, h)[key], Clock(h, start));
    }
    OrderIsKeys(s, capacity);
  }

  lemma OrderIsKeys(s: Lru, capacity: nat)
    requires LruOk(s, capacity)
    ensures |s.values| == |s.order|
  {
    DistinctFits(s.order, s.values.Keys);
    assert s.values.Keys == Elements(s.order);
    assert |s.values.Keys| <= |s.order|;
  }

  /** Entry `i` of the history stores the key, and none after it stores or deletes it. */
  predicate LatestStore(psl: SuffixList, h: seq<Event>, i: nat, key: Str) {
    && i < |h| && Stores(psl, h[i], key)
    && forall j | i < j < |h| :: !Stores(psl, h[j], key) && h[j].op != Delete(key)
  }

  /** The event sets a list of records, at least one, that are all under the key. */
  predicate Stores(psl: SuffixList, e: Event, key: Str) {
    e.op.Set? && e.op.records != [] && forall r | r in e.op.records :: r.Key(psl) == key
  }

  lemma StoresIsStorable(psl: SuffixList, e: Event, key: Str)
    ensures Stores(psl, e, key) <==>
            e.op.Set? && Storable(psl, e.op.records) && e.op.records[0].Key(psl) == key
  {
    hide CacheKey;
  }

  /** The flat map is what the history says it is. */
  lemma {:induction false} FlatIsLatest(psl: SuffixList, h: seq<Event>, key: Str) returns (i: nat)
    ensures key in FlatRun(psl, h) ==> LatestStore(psl, h, i, key) && FlatRun(psl, h)[key] == h[i].op.records
    ensures forall j: nat | LatestStore(psl, h, j, key) ::
              key in FlatRun(psl, h) && FlatRun(psl, h)[key] == h[j].op.records
    decreases |h|
  {
    hide CacheKey, Storable;
    i := 0;
    if h != [] {
      var before, last := h[..|h| - 1], |h| - 1;
      StoresIsStorable(psl, h[last], key);
      i := FlatIsLatest(psl, before, key);
      if Stores(psl, h[last], key) {
        i := last;
      }
      forall j: nat | LatestStore(psl, h, j, key)
        ensures key in FlatRun(psl, h) && FlatRun(psl, h)[key] == h[j].op.records
      {
        if j < last {
          assert LatestStore(psl, before, j, key);
        }
      }
    }
  }

  function KeyStored(psl: SuffixList, e: Event): set<Str> {
    if e.op.Set? && Storable(psl, e.op.records) then {e.op.records[0].Key(psl)} else {}
  }

  /** All keys ever stored. */
  function KeysStored(psl: SuffixList, h: seq<Event>): set<Str> {
    if h == [] then {} else KeysStored(psl, h[..|h| - 1]) + KeyStored(psl, h[|h| - 1])
  }

  lemma RoomForOne(psl: SuffixList, capacity: nat, s: Lru, e: Event, keys: set<Str>)
    requires LruOk(s, capacity) && s.values.Keys <= keys && KeyStored(psl, e) <= keys && |keys| <= capacity
    ensures ApplyEvicted(psl, capacity, s, {}, e) == {}
    ensures Apply(psl, capacity, s, e).values.Keys <= keys
  {
    hide CacheKey, OneKey;
    if e.op.Set? && Storable(psl, e.op.records) {
      NoVictim(s, capacity, e.op.records[0].Key(psl), keys);
    }
  }

  /** A cache with room for every key ever stored evicts nothing. */
  lemma {:induction false} RoomForAll(psl: SuffixList, capacity: nat, h: seq<Event>, start: Time)
    requires capacity > 0 && Ordered(h, start) && |KeysStored(psl, h)| <= capacity
    ensures Evicted(psl, capacity, h) == {}
    ensures Run(psl, capacity, h).values.Keys <= KeysStored(psl, h)
    decreases |h|
  {
    hide CacheKey, OneKey, Storable, Apply, ApplyEvicted, KeyStored;
    if h != [] {
      var before := h[..|h| - 1];
      SubsetSize(KeysStored(psl, before), KeysStored(psl, h));
      RoomForAll(psl, capacity, before, start);
      RunAgrees(psl, capacity, before, start);
      RoomForOne(psl, capacity, Run(psl, capacity, before), h[|h| - 1], KeysStored(psl, h));
    }
  }

  lemma SubsetSize<T>(a: set<T>, b: set<T>)
    requires a <= b
    ensures |a| <= |b|
  {
    assert b == a + (b - a);
  }

  lemma NoVictim(s: Lru, capacity: nat, key: Str, keys: set<Str>)
    requires LruOk(s, capacity) && s.values.Keys <= keys && key in keys && |keys| <= capacity
    ensures Victim(s, capacity, key).None?
  {
    if key !in s.values {
      DistinctFits(s.order + [key], keys);
    }
  }

  /** Such a cache agrees with the flat map on every key. */
  lemma AgreesWithFlat(psl: SuffixList, capacity: nat, h: seq<Event>, start: Time, key: Str, now: Time)
    requires capacity > 0 && Ordered(h, start) && Clock(h, start) <= now && |KeysStored(psl, h)| <= capacity
    ensures GetResult(Run(psl, capacity, h), key, now) ==
            if key in FlatRun(psl, h) then Unexpired(FlatRun(psl, h)[key], now) else []
  {
    PruningIsUnobservable(psl, capacity, h, start, key, now);
    RoomForAll(psl, capacity, h, start);
  }

  // ---------- Expiry ----------

  /** The records for which `keep` holds, in order. */
  function Kept(records: seq<Record>, keep: Record -> bool): seq<Record> {
    if records == [] then []
    else if keep(records[0]) then [records[0]] + Kept(records[1..], keep)
    else Kept(records[1..], keep)
  }

  /** Not past its expiry; a record without one lives for ever. */
  function AliveAt(now: Time): Record -> bool {
    (r: Record) => r.expiresAt.None? || now <= r.expiresAt.value
  }

  lemma {:induction false} UnexpiredIsKept(records: seq<Record>, now: Time)
    ensures Unexpired(records, now) == Kept(records, AliveAt(now))
  {
    if records != [] {
      UnexpiredIsKept(records[1..], now);
    }
  }

  lemma {:induction false} KeptMeans(records: seq<Record>, keep: Record -> bool, r: Record)
    ensures r in Kept(records, keep) <==> r in records && keep(r)
  {
    if records != [] {
      KeptMeans(records[1..], keep, r);
    }
  }

  /**
    Over every run, an answer is the records not past their expiry, in order, of the list last set under the key; and
    unless the key was evicted, every such list answers so.
   */
  lemma HitsAreAlive(psl: SuffixList, capacity: nat, h: seq<Event>, start: Time, key: Str, now: Time)
    requires capacity > 0 && Ordered(h, start) && Clock(h, start) <= now
    ensures var answer := GetResult(Run(psl, capacity, h), key, now);
            && (answer != [] ==>
                exists i: nat :: LatestStore(psl, h, i, key) && answer == Kept(h[i].op.records, AliveAt(now)))
            && (key !in Evicted(psl, capacity, h) ==>
                forall i: nat | LatestStore(psl, h, i, key) :: answer == Kept(h[i].op.records, AliveAt(now)))
  {
    hide *;
    PruningIsUnobservable(psl, capacity, h, start, key, now);
    var i := FlatIsLatest(psl, h, key);
    if key in FlatRun(psl, h) {
      UnexpiredIsKept(FlatRun(psl, h)[key], now);
    }
  }

  /** A lookup leaves under its key what it answered, or nothing at all, and every other key as it was. */
  lemma GetPrunes(psl: SuffixList, capacity: nat, h: seq<Event>, key: Str, now: Time)
    requires capacity > 0
    ensures var s, s' := Run(psl, capacity, h), Run(psl, capacity, h + [Event(Get(key), now)]);
            var answer := if key in s.values then Kept(s.values[key], AliveAt(now)) else [];
            && (answer != [] ==> key in s'.values && s'.values[key] == answer)
            && (answer == [] ==> key !in s'.values)
            && s'.values - {key} == s.values - {key}
  {
    var s, more := Run(psl, capacity, h), h + [Event(Get(key), now)];
    assert more[..|h|] == h;
    if key in s.values {
      UnexpiredIsKept(s.values[key], now);
    }
  }

  /** A record cached on arrival and last set under its key is answered until its TTL has passed, and not after. */
  lemma ServedForItsTTL(psl: SuffixList, capacity: nat, h: seq<Event>, start: Time, now: Time, i: nat,
                        name: Str, t: RRType, c: RRClass, ttl: uint32, data: seq<byte>, text: Str, arrival: Time)
    requires capacity > 0 && Ordered(h, start) && Clock(h, start) <= now
    requires NewCachedRecord(name, t, c, ttl, data, text, arrival).Some?
    requires var r := NewCachedRecord(name, t, c, ttl, data, text, arrival).value;
             && LatestStore(psl, h, i, r.Key(psl)) && r in h[i].op.records
             && r.Key(psl) !in Evicted(psl, capacity, h)
    ensures var r := NewCachedRecord(name, t, c, ttl, data, text, arrival).value;
            r in GetResult(Run(psl, capacity, h), r.Key(psl), now) <==> now <= arrival + ttl * 1_000_000_000
  {
    hide CacheKey, Evicted, Run, GetResult, Ordered, Kept;
    var r := NewCachedRecord(name, t, c, ttl, data, text, arrival).value;
    HitsAreAlive(psl, capacity, h, start, r.Key(psl), now);
    KeptMeans(h[i].op.records, AliveAt(now), r);
  }

  // ---------- Which key is evicted ----------

  /** The event stores the key or finds unexpired records under it. */
  predicate Uses(psl: SuffixList, s: Lru, e: Event, key: Str) {
    Stores(psl, e, key) || (e.op == Get(key) && GetResult(s, key, e.at) != [])
  }

  /** The position of the last event that used the key. */
  function LastUse(psl: SuffixList, capacity: nat, h: seq<Event>, key: Str): int {
    if h == [] then -1
    else if Uses(psl, Run(psl, capacity, h[..|h| - 1]), h[|h| - 1], key) then |h| - 1
    else LastUse(psl, capacity, h[..|h| - 1], key)
  }

  lemma {:induction false} LastUseInside(psl: SuffixList, capacity: nat, h: seq<Event>, key: Str)
    ensures LastUse(psl, capacity, h, key) < |h|
    decreases |h|
  {
    hide Uses;
    if h != [] {
      LastUseInside(psl, capacity, h[..|h| - 1], key);
    }
  }

  /** One key stands before another. */
  ghost predicate Before(order: seq<Str>, a: Str, b: Str) {
    exists i, j :: 0 <= i < j < |order| && order[i] == a && order[j] == b
  }

  lemma {:induction false} WithoutKeepsOrder(order: seq<Str>, key: Str, a: Str, b: Str)
    requires Before(Without(order, key), a, b)
    ensures Before(order, a, b)
  {
    if order != [] {
      var rest := Without(order[1..], key);
      var i, j :| 0 <= i < j < |Without(order, key)| && Without(order, key)[i] == a && Without(order, key)[j] == b;
      if order[0] == key || i > 0 {
        var d := if order[0] == key then 0 else 1;
        assert rest[i - d] == a && rest[j - d] == b;
        WithoutKeepsOrder(order[1..], key, a, b);
        var i', j' :| 0 <= i' < j' < |order[1..]| && order[1..][i'] == a && order[1..][j'] == b;
        assert order[i' + 1] == a && order[j' + 1] == b;
      } else {
        assert rest[j - 1] == b && b in order[1..];
        var k :| 0 <= k < |order[1..]| && order[1..][k] == b;
        assert order[0] == a && order[k + 1] == b;
      }
    }
  }

  lemma TouchedOrder(order: seq<Str>, key: Str, a: Str, b: Str)
    requires Before(Touched(order, key), a, b) && Distinct(order)
    ensures b == key || Before(order, a, b)
    ensures a != key
  {
    TouchedSpec(order, key);
    var t, w := Touched(order, key), Without(order, key);
    var i, j :| 0 <= i < j < |t| && t[i] == a && t[j] == b;
    assert t[|t| - 1] == key;
    if j < |t| - 1 {
      assert w[i] == a && w[j] == b;
      WithoutKeepsOrder(order, key, a, b);
    }
  }

  /** Nothing stands after a key just used, and otherwise the order stays. */
  lemma StepKeepsOrder(psl: SuffixList, capacity: nat, s: Lru, e: Event, a: Str, b: Str)
    requires LruOk(s, capacity) && Before(Apply(psl, capacity, s, e).order, a, b)
    ensures !Uses(psl, s, e, a) && (Uses(psl, s, e, b) || Before(s.order, a, b))
  {
    StoresIsStorable(psl, e, a);
    StoresIsStorable(psl, e, b);
    hide CacheKey, OneKey, Before, Stores;
    match e.op
    case Set(records) =>
      if Storable(psl, records) {
        AddKeepsOrder(s, capacity, records[0].Key(psl), records, a, b);
      }
    case Get(key) => GetKeepsOrder(s, capacity, key, e.at, a, b);
    case Delete(key) => WithoutKeepsOrder(s.order, key, a, b);
  }

  lemma AddKeepsOrder(s: Lru, capacity: nat, key: Str, records: seq<Record>, a: Str, b: Str)
    requires LruOk(s, capacity) && Before(LruAdd(s, capacity, key, records).order, a, b)
    ensures a != key && (b == key || Before(s.order, a, b))
  {
    hide Before;
    match Victim(s, capacity, key)
    case None => TouchedOrder(s.order, key, a, b);
    case Some(oldest) =>
      WithoutSpec(s.order, oldest);
      TouchedOrder(Without(s.order, oldest), key, a, b);
      if b != key {
        WithoutKeepsOrder(s.order, oldest, a, b);
      }
  }

  lemma GetKeepsOrder(s: Lru, capacity: nat, key: Str, now: Time, a: Str, b: Str)
    requires LruOk(s, capacity) && Before(GetEffect(s, capacity, key, now).order, a, b)
    ensures if GetResult(s, key, now) == [] then Before(s.order, a, b)
            else a != key && (b == key || Before(s.order, a, b))
  {
    if key in s.values {
      hide Before;
      var used := LruUse(s, key);
      LruUseOk(s, capacity, key);
      if GetResult(s, key, now) == [] {
        BeforeInside(Without(used.order, key), a, b);
        WithoutKeepsOrder(used.order, key, a, b);
        TouchedOrder(s.order, key, a, b);
      } else {
        TouchedOrder(used.order, key, a, b);
        if b != key {
          TouchedOrder(s.order, key, a, b);
        }
      }
    }
  }

  lemma BeforeInside(order: seq<Str>, a: Str, b: Str)
    requires Before(order, a, b)
    ensures a in order && b in order
  {
  }

  lemma {:induction false} RunOk(psl: SuffixList, capacity: nat, h: seq<Event>)
    requires capacity > 0
    ensures LruOk(Run(psl, capacity, h), capacity)
    decreases |h|
  {
    hide Apply, LruOk;
    if h == [] {
      NothingIsOk(capacity);
    } else {
      RunOk(psl, capacity, h[..|h| - 1]);
      ApplyOk(psl, capacity, Run(psl, capacity, h[..|h| - 1]), h[|h| - 1]);
    }
  }

  lemma NothingIsOk(capacity: nat)
    ensures LruOk(Lru([], map[]), capacity)
  {
  }

  /** The order of the keys is the order of their last uses. */
  lemma {:induction false} OrderIsLastUse(psl: SuffixList, capacity: nat, h: seq<Event>, a: Str, b: Str)
    requires capacity > 0 && Before(Run(psl, capacity, h).order, a, b)
    ensures LastUse(psl, capacity, h, a) < LastUse(psl, capacity, h, b)
    decreases |h|
  {
    if h == [] {
      assert false;
    } else {
      hide Before, Uses, LruOk, Apply;
      var before := h[..|h| - 1];
      var s := Run(psl, capacity, before);
      RunOk(psl, capacity, before);
      StepKeepsOrder(psl, capacity, s, h[|h| - 1], a, b);
      LastUseInside(psl, capacity, before, a);
      if !Uses(psl, s, h[|h| - 1], b) {
        OrderIsLastUse(psl, capacity, before, a, b);
      }
    }
  }

  /** What is evicted was used before everything that stays. */
  lemma EvictsLeastRecent(psl: SuffixList, capacity: nat, h: seq<Event>, key: Str, other: Str)
    requires capacity > 0 && Victim(Run(psl, capacity, h), capacity, key).Some?
    requires var s := Run(psl, capacity, h); other in s.values && other != Victim(s, capacity, key).value
    ensures var victim := Victim(Run(psl, capacity, h), capacity, key).value;
            LastUse(psl, capacity, h, victim) < LastUse(psl, capacity, h, other)
  {
    var order := Run(psl, capacity, h).order;
    RunOk(psl, capacity, h);
    assert other in order;
    var j :| 0 <= j < |order| && order[j] == other;
    assert order[0] == Victim(Run(psl, capacity, h), capacity, key).value;
    OrderIsLastUse(psl, capacity, h, order[0], other);
  }
}
