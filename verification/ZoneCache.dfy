/** Authoritative records by zone and cache key (`repos/zonecache`), and the flat list they stand for. */
module ZoneCache {
  import opened Wrappers
  import opened Strings
  import opened Names
  import opened Pigeonhole
  import opened Domain

  type Group = map<Str, seq<Record>>

  /** The records under a key, in order. */
  function WithKey(psl: SuffixList, records: seq<Record>, key: Str): seq<Record> {
    if records == [] then []
    else if records[0].Key(psl) == key then [records[0]] + WithKey(psl, records[1..], key)
    else WithKey(psl, records[1..], key)
  }

  function KeysOf(psl: SuffixList, records: seq<Record>): set<Str> {
    set i | 0 <= i < |records| :: records[i].Key(psl)
  }

  /** Every key with its records. */
  function Grouped(psl: SuffixList, records: seq<Record>): Group {
    map key | key in KeysOf(psl, records) :: WithKey(psl, records, key)
  }

  function Append(g: Group, key: Str, record: Record): Group {
    g[key := (if key in g then g[key] else []) + [record]]
  }

  lemma {:induction false} WithKeySnoc(psl: SuffixList, records: seq<Record>, record: Record, key: Str)
    ensures WithKey(psl, records + [record], key) ==
            WithKey(psl, records, key) + if record.Key(psl) == key then [record] else []
  {
    hide CacheKey;
    if records == [] {
      assert [] + [record] == [record] && [record][1..] == [];
    } else {
      WithKeySnoc(psl, records[1..], record, key);
      assert (records + [record])[1..] == records[1..] + [record];
    }
  }

  lemma {:induction false} WithKeyFound(psl: SuffixList, records: seq<Record>, key: Str)
    ensures WithKey(psl, records, key) != [] <==> key in KeysOf(psl, records)
    ensures forall r | r in WithKey(psl, records, key) :: r.Key(psl) == key
  {
    hide CacheKey;
    if records != [] {
      WithKeyFound(psl, records[1..], key);
      KeysOfCons(psl, records);
    }
  }

  lemma KeysOfCons(psl: SuffixList, records: seq<Record>)
    requires records != []
    ensures KeysOf(psl, records) == {records[0].Key(psl)} + KeysOf(psl, records[1..])
  {
    hide CacheKey;
    var rest := records[1..];
    forall k ensures k in KeysOf(psl, records) <==> k == records[0].Key(psl) || k in KeysOf(psl, rest) {
      if k in KeysOf(psl, records) {
        var i :| 0 <= i < |records| && records[i].Key(psl) == k;
        assert i == 0 || rest[i - 1] == records[i];
      }
      if k in KeysOf(psl, rest) {
        var i :| 0 <= i < |rest| && rest[i].Key(psl) == k;
        assert records[i + 1] == rest[i];
      }
    }
  }

  lemma KeysOfSnoc(psl: SuffixList, records: seq<Record>, record: Record)
    ensures KeysOf(psl, records + [record]) == KeysOf(psl, records) + {record.Key(psl)}
  {
    hide CacheKey;
    var more := records + [record];
    forall k ensures k in KeysOf(psl, more) <==> k in KeysOf(psl, records) || k == record.Key(psl) {
      if k in KeysOf(psl, records) {
        var i :| 0 <= i < |records| && records[i].Key(psl) == k;
        assert more[i] == records[i];
      }
      assert more[|records|] == record;
    }
  }

  /** The grouping loop adds one record at a time. */
  lemma GroupedSnoc(psl: SuffixList, records: seq<Record>, record: Record)
    ensures Grouped(psl, records + [record]) == Append(Grouped(psl, records), record.Key(psl), record)
  {
    hide CacheKey, KeysOf, WithKey;
    var key := record.Key(psl);
    KeysOfSnoc(psl, records, record);
    WithKeyFound(psl, records, key);
    forall k | k in KeysOf(psl, records) + {key}
      ensures WithKey(psl, records + [record], k) == Append(Grouped(psl, records), key, record)[k]
    {
      WithKeySnoc(psl, records, record, k);
    }
  }

  /** The groups partition the records: each is in its own key's group as often as in the list, and in no other. */
  lemma {:induction false} GroupsPartition(psl: SuffixList, records: seq<Record>, r: Record)
    ensures forall k | k in Grouped(psl, records) :: Grouped(psl, records)[k] != []
    ensures forall k | k in Grouped(psl, records) ::
              multiset(Grouped(psl, records)[k])[r] == if k == r.Key(psl) then multiset(records)[r] else 0
    ensures r in records ==> r.Key(psl) in Grouped(psl, records)
  {
    hide CacheKey;
    forall k | k in Grouped(psl, records)
      ensures Grouped(psl, records)[k] != []
      ensures multiset(Grouped(psl, records)[k])[r] == if k == r.Key(psl) then multiset(records)[r] else 0
    {
      WithKeyFound(psl, records, k);
      WithKeyCount(psl, records, k, r);
    }
  }

  lemma {:induction false} WithKeyCount(psl: SuffixList, records: seq<Record>, key: Str, r: Record)
    ensures multiset(WithKey(psl, records, key))[r] == if key == r.Key(psl) then multiset(records)[r] else 0
  {
    hide CacheKey;
    if records != [] {
      WithKeyCount(psl, records[1..], key, r);
      assert records == [records[0]] + records[1..];
    }
  }

  // ---------- The cache ----------

  type Zones = map<Str, Group>

  function ZoneOf(psl: SuffixList, q: Question): Str {
    ApexDomain(psl, Canonical(q.name))
  }

  function Find(psl: SuffixList, zones: Zones, q: Question): (seq<Record>, bool) {
    var zone := ZoneOf(psl, q);
    if zone in zones && q.Key(psl) in zones[zone] then (zones[zone][q.Key(psl)], true) else ([], false)
  }

  /** All pairs of a zone and one of its keys. */
  function Pairs(zones: Zones, roots: set<Str>): set<(Str, Str)> {
    set z, k | z in roots && z in zones && k in zones[z] :: (z, k)
  }

  class Cache {
    const psl: SuffixList
    var zones: Zones

    constructor (psl: SuffixList)
      ensures this.psl == psl && zones == map[]
    {
      this.psl, zones := psl, map[];
    }

    method FindRecords(q: Question) returns (records: seq<Record>, found: bool)
      ensures (records, found) == Find(psl, zones, q)
    {
      var fqdn := CanonicalDNSName(q.name);
      var zone := ApexDomain(psl, fqdn);
      if zone !in zones {
        return [], false;
      }
      var key := q.Key(psl);
      if key !in zones[zone] {
        return [], false;
      }
      return zones[zone][key], true;
    }

    method PutZone(zoneRoot: Str, records: seq<Record>)
      modifies this
      ensures zones == old(zones)[Canonical(zoneRoot) := Grouped(psl, records)]
    {
      hide CacheKey;
      var root := CanonicalDNSName(zoneRoot);
      var zoneMap: Group := map[];
      for i := 0 to |records|
        invariant zones == old(zones)
        invariant zoneMap == Grouped(psl, records[..i])
      {
        var key := records[i].Key(psl);
        GroupedSnoc(psl, records[..i], records[i]);
        assert records[..i] + [records[i]] == records[..i + 1];
        zoneMap := zoneMap[key := (if key in zoneMap then zoneMap[key] else []) + [records[i]]];
      }
      assert records[..|records|] == records;
      zones := zones[root := zoneMap];
    }

    method RemoveZone(zoneRoot: Str)
      modifies this
      ensures zones == old(zones) - {Canonical(zoneRoot)}
    {
      var root := CanonicalDNSName(zoneRoot);
      zones := zones - {root};
    }

    /** The number of keys, zone by zone. */
    method Count() returns (count: nat)
      ensures count == |Pairs(zones, zones.Keys)|
    {
      count := 0;
      var left := zones.Keys;
      while left != {}
        invariant left <= zones.Keys
        invariant count == |Pairs(zones, zones.Keys - left)|
        decreases left
      {
        var z :| z in left;
        PairsMore(zones, zones.Keys - left, z);
        assert zones.Keys - (left - {z}) == (zones.Keys - left) + {z};
        count := count + |zones[z]|;
        left := left - {z};
      }
      assert zones.Keys - {} == zones.Keys;
    }
  }

  lemma PairsMore(zones: Zones, roots: set<Str>, z: Str)
    requires z in zones && z !in roots
    ensures |Pairs(zones, roots + {z})| == |Pairs(zones, roots)| + |zones[z]|
  {
    var own := set k | k in zones[z] :: (z, k);
    assert Pairs(zones, roots + {z}) == Pairs(zones, roots) + own;
    assert Pairs(zones, roots) !! own;
    PairsOfOne(z, zones[z].Keys, own);
  }

  lemma {:induction false} PairsOfOne(z: Str, keys: set<Str>, pairs: set<(Str, Str)>)
    requires pairs == set k | k in keys :: (z, k)
    ensures |pairs| == |keys|
    decreases keys
  {
    if keys != {} {
      var k :| k in keys;
      PairsOfOne(z, keys - {k}, pairs - {(z, k)});
    } else {
      assert pairs == {};
    }
  }

  // ---------- Over all runs ----------

  datatype Op = Put(root: Str, records: seq<Record>) | Remove(root: Str)

  /** What `PutZone` and `RemoveZone` do. */
  function Apply(psl: SuffixList, zones: Zones, op: Op): Zones {
    match op
    case Put(root, records) => zones[Canonical(root) := Grouped(psl, records)]
    case Remove(root) => zones - {Canonical(root)}
  }

  function Run(psl: SuffixList, h: seq<Op>): Zones {
    if h == [] then map[] else Apply(psl, Run(psl, h[..|h| - 1]), h[|h| - 1])
  }

  /** The list last put for each zone and not removed since. */
  function LastPut(h: seq<Op>): map<Str, seq<Record>> {
    if h == [] then map[]
    else
      var before := LastPut(h[..|h| - 1]);
      match h[|h| - 1]
      case Put(root, records) => before[Canonical(root) := records]
      case Remove(root) => before - {Canonical(root)}
  }

  lemma {:induction false} RunIsGrouped(psl: SuffixList, h: seq<Op>)
    ensures Run(psl, h) == map z | z in LastPut(h) :: Grouped(psl, LastPut(h)[z])
    decreases |h|
  {
    hide Grouped, Canonical;
    if h != [] {
      RunIsGrouped(psl, h[..|h| - 1]);
    }
  }

  /** Whether a record answers a question: the same canonical name, type and class. */
  predicate Answers(r: Record, q: Question) {
    Canonical(r.name) == Canonical(q.name) && r.rtype == q.qtype && r.rclass == q.qclass
  }

  function Filtered(records: seq<Record>, q: Question): seq<Record> {
    if records == [] then []
    else if Answers(records[0], q) then [records[0]] + Filtered(records[1..], q)
    else Filtered(records[1..], q)
  }

  /** Names without the separator, in classes that have a name of their own. */
  predicate KeySafe(records: seq<Record>) {
    records == [] || (Free(records[0].name, PIPES) && ValidClass(records[0].rclass) && KeySafe(records[1..]))
  }

  lemma {:induction false} KeyMeansFields(psl: SuffixList, records: seq<Record>, q: Question)
    requires KeySafe(records) && (Free(q.name, PIPES) || PipeFree(psl))
    ensures WithKey(psl, records, q.Key(psl)) == Filtered(records, q)
    decreases |records|
  {
    hide CacheKey, Canonical;
    if records != [] {
      CacheKeyInjective(psl, records[0].name, records[0].rtype, records[0].rclass, q.name, q.qtype, q.qclass);
      KeyMeansFields(psl, records[1..], q);
    }
  }

  /** Whatever the names and the list, what is filed under a question's key has its type. */
  lemma {:induction false} KeyMeansType(psl: SuffixList, records: seq<Record>, q: Question)
    ensures forall i | 0 <= i < |WithKey(psl, records, q.Key(psl))| ::
              WithKey(psl, records, q.Key(psl))[i].rtype == q.qtype
  {
    hide CacheKey;
    if records != [] {
      CacheKeyEqual(psl, records[0].name, records[0].rtype, records[0].rclass, q.name, q.qtype, q.qclass);
      KeyMeansType(psl, records[1..], q);
    }
  }

  /** So has everything a lookup finds, over every run. */
  lemma FoundHaveType(psl: SuffixList, h: seq<Op>, q: Question)
    ensures forall i | 0 <= i < |Find(psl, Run(psl, h), q).0| :: Find(psl, Run(psl, h), q).0[i].rtype == q.qtype
  {
    hide CacheKey, Canonical, ApexDomain, WithKey;
    RunIsGrouped(psl, h);
    var zone := ZoneOf(psl, q);
    if zone in LastPut(h) {
      KeyMeansType(psl, LastPut(h)[zone], q);
    }
  }

  /** The filter of the list last put for this zone, if any. */
  function FilteredZone(h: seq<Op>, root: Str, q: Question): seq<Record> {
    if root in LastPut(h) then Filtered(LastPut(h)[root], q) else []
  }

  /**
    Over every run, a lookup gives the records, in order, that have the question's canonical name, type and class,
    of the list last put for one zone, and reports nothing found exactly if there are none.  The zone is the one the
    public suffix list gives for the name, or if it gives none the one of that very name.
   */
  lemma FindIsFilter(psl: SuffixList, h: seq<Op>, q: Question)
    requires Free(q.name, PIPES) || PipeFree(psl)
    requires forall z | z in LastPut(h) :: KeySafe(LastPut(h)[z])
    ensures var (found, any) := Find(psl, Run(psl, h), q);
            var name := Canonical(Canonical(q.name));
            && (any <==> found != [])
            && (psl(name).Some? ==> found == FilteredZone(h, psl(name).value, q))
            && (psl(name).None? ==> found == FilteredZone(h, name, q))
  {
    hide CacheKey, Canonical;
    RunIsGrouped(psl, h);
    var zone := ZoneOf(psl, q);
    if zone in LastPut(h) {
      KeyMeansFields(psl, LastPut(h)[zone], q);
      WithKeyFound(psl, LastPut(h)[zone], q.Key(psl));
    }
  }

  lemma {:induction false} WithKeyInside(psl: SuffixList, records: seq<Record>, key: Str)
    ensures forall r | r in WithKey(psl, records, key) :: r in records
  {
    hide CacheKey;
    if records != [] {
      WithKeyInside(psl, records[1..], key);
    }
  }

  /** Whatever the names and classes, nothing put for another zone is ever found. */
  lemma FoundInZone(psl: SuffixList, h: seq<Op>, q: Question, r: Record)
    requires r in Find(psl, Run(psl, h), q).0
    ensures var name := Canonical(Canonical(q.name));
            var root := if psl(name).Some? then psl(name).value else name;
            root in LastPut(h) && r in LastPut(h)[root]
  {
    hide CacheKey, Canonical, WithKey;
    RunIsGrouped(psl, h);
    WithKeyInside(psl, LastPut(h)[ZoneOf(psl, q)], q.Key(psl));
  }

  // ---------- What `Count` counts ----------

  /** The records in the lists, each as the name of its list and its place there. */
  function Places(lists: map<Str, seq<Record>>): set<(Str, nat)> {
    set z, i: nat | z in lists && 0 <= i < |lists[z]| :: (z, i)
  }

  /** No two records of a list are under the same key. */
  predicate OneRecordAKey(psl: SuffixList, records: seq<Record>) {
    forall i, j | 0 <= i < j < |records| :: records[i].Key(psl) != records[j].Key(psl)
  }

  /**
    `Count` gives the number of records put and not removed exactly if every list put has different keys for all
    its records; otherwise it gives less.
   */
  lemma CountIsRecordsExactly(psl: SuffixList, h: seq<Op>)
    ensures var zones, lists := Run(psl, h), LastPut(h);
            && |Pairs(zones, zones.Keys)| <= |Places(lists)|
            && (|Pairs(zones, zones.Keys)| == |Places(lists)| <==>
                forall z | z in lists :: OneRecordAKey(psl, lists[z]))
  {
    hide *;
    RunIsGrouped(psl, h);
    var lists := LastPut(h);
    var f := KeyedPlace(psl, lists);
    PairsAreKeys(psl, lists, Run(psl, h));
    ImageSize(Places(lists), f);
    KeysTellPlaces(psl, lists);
  }

  /** A place, with its record's key for its number. */
  function KeyedPlace(psl: SuffixList, lists: map<Str, seq<Record>>): ((Str, nat)) -> (Str, Str) {
    (p: (Str, nat)) => (p.0, if p.0 in lists && p.1 < |lists[p.0]| then lists[p.0][p.1].Key(psl) else [])
  }

  lemma PairsAreKeys(psl: SuffixList, lists: map<Str, seq<Record>>, zones: Zones)
    requires zones == map z | z in lists :: Grouped(psl, lists[z])
    ensures Pairs(zones, zones.Keys) == Image(Places(lists), KeyedPlace(psl, lists))
  {
    hide CacheKey, WithKey;
    var f := KeyedPlace(psl, lists);
    var image := Image(Places(lists), f);
    forall z, k ensures (z, k) in Pairs(zones, zones.Keys) <==> (z, k) in image {
      if (z, k) in Pairs(zones, zones.Keys) {
        var i: nat :| i < |lists[z]| && lists[z][i].Key(psl) == k;
        assert (z, i) in Places(lists) && f((z, i)) == (z, k);
      }
    }
    assert Pairs(zones, zones.Keys) == image;
  }

  lemma KeysTellPlaces(psl: SuffixList, lists: map<Str, seq<Record>>)
    ensures var f := KeyedPlace(psl, lists);
            (forall p, r | p in Places(lists) && r in Places(lists) && f(p) == f(r) :: p == r) <==>
            forall z | z in lists :: OneRecordAKey(psl, lists[z])
  {
    hide CacheKey;
    var f := KeyedPlace(psl, lists);
    if forall p, r | p in Places(lists) && r in Places(lists) && f(p) == f(r) :: p == r {
      forall z, i, j | z in lists && 0 <= i < j < |lists[z]| ensures lists[z][i].Key(psl) != lists[z][j].Key(psl) {
        assert (z, i) in Places(lists) && (z, j) in Places(lists) && (z, i) != (z, j);
      }
    }
  }

  /** A zone of two records that differ in their data only counts as one. */
  lemma CountMissesRecords(psl: SuffixList, root: Str, r: Record, text: Str)
    ensures var h := [Put(root, [r, r.(text := text)])];
            && |Places(LastPut(h))| == 2
            && |Pairs(Run(psl, h), Run(psl, h).Keys)| == 1
  {
    hide CacheKey, Canonical;
    var records, z := [r, r.(text := text)], Canonical(root);
    var h := [Put(root, records)];
    assert h[..0] == [];
    RunIsGrouped(psl, h);
    assert LastPut(h) == map[z := records];
    assert Places(LastPut(h)) == {(z, 0), (z, 1)};
    assert records[0].Key(psl) == records[1].Key(psl) == r.Key(psl);
    assert KeysOf(psl, records) == {r.Key(psl)};
    assert Pairs(Run(psl, h), Run(psl, h).Keys) == {(z, r.Key(psl))};
  }
}
