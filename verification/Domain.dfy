/** Questions, resource records and the cache key (`internal/dns/domain`). */
module Domain {
  import opened Wrappers
  import opened Strings
  import opened Numbers
  import opened Names

  // ---------- Types and classes ----------

  type RRType = uint16

  type RRClass = uint16

  const CNAME: RRType := 5

  /** The mnemonic of a supported type. */
  function Mnemonic(t: RRType): Option<string> {
    match t
    case 1 => Some("A")
    case 2 => Some("NS")
    case 5 => Some("CNAME")
    case 6 => Some("SOA")
    case 12 => Some("PTR")
    case 15 => Some("MX")
    case 16 => Some("TXT")
    case 28 => Some("AAAA")
    case 33 => Some("SRV")
    case 35 => Some("NAPTR")
    case 41 => Some("OPT")
    case 43 => Some("DS")
    case 46 => Some("RRSIG")
    case 47 => Some("NSEC")
    case 48 => Some("DNSKEY")
    case 52 => Some("TLSA")
    case 64 => Some("SVCB")
    case 65 => Some("HTTPS")
    case 255 => Some("ANY")
    case 257 => Some("CAA")
    case _ => None
  }

  predicate ValidType(t: RRType) {
    Mnemonic(t).Some?
  }

  /** `RRType.String`. */
  function TypeName(t: RRType): Str {
    match Mnemonic(t)
    case Some(name) => MnemonicIsAscii(t); Ascii(name)
    case None => Ascii("UNKNOWN(") + FormatDec(t) + Ascii(")")
  }

  lemma MnemonicIsAscii(t: RRType)
    requires Mnemonic(t).Some?
    ensures var s := Mnemonic(t).value;
            && |s| > 0 && s[0] != 'U'
            && forall i | 0 <= i < |s| :: 'A' <= s[i] <= 'Z'
  {
  }

  /** `RRTypeFromString`, with 0 for an unknown name. */
  function TypeFromMnemonic(s: string): RRType {
    if s == "A" then 1
    else if s == "NS" then 2
    else if s == "CNAME" then 5
    else if s == "SOA" then 6
    else if s == "PTR" then 12
    else if s == "MX" then 15
    else if s == "TXT" then 16
    else if s == "AAAA" then 28
    else if s == "SRV" then 33
    else if s == "NAPTR" then 35
    else if s == "OPT" then 41
    else if s == "DS" then 43
    else if s == "RRSIG" then 46
    else if s == "NSEC" then 47
    else if s == "DNSKEY" then 48
    else if s == "TLSA" then 52
    else if s == "SVCB" then 64
    else if s == "HTTPS" then 65
    else if s == "ANY" then 255
    else if s == "CAA" then 257
    else 0
  }

  lemma AsciiInjective(s: string, t: string)
    requires forall i | 0 <= i < |s| :: s[i] as int < 128
    requires forall i | 0 <= i < |t| :: t[i] as int < 128
    ensures Ascii(s) == Ascii(t) ==> s == t
  {
    if Ascii(s) == Ascii(t) {
      assert |s| == |t|;
      forall i | 0 <= i < |s| ensures s[i] == t[i] {
        assert Ascii(s)[i] == Ascii(t)[i];
      }
    }
  }

  /** Parsing undoes printing, both ways: a name stands for a type exactly if it is printed for it. */
  lemma TypeFromTypeName(t: RRType, s: string)
    ensures t != 0 && TypeFromMnemonic(s) == t <==> Mnemonic(t) == Some(s)
  {
  }

  predicate ValidClass(c: RRClass) {
    c == 1 || c == 3 || c == 4 || c == 254 || c == 255
  }

  /** `RRClass.String`: every unsupported class has the same name. */
  function ClassName(c: RRClass): Str {
    match c
    case 1 => Ascii("IN")
    case 3 => Ascii("CH")
    case 4 => Ascii("HS")
    case 254 => Ascii("NONE")
    case 255 => Ascii("ANY")
    case _ => Ascii("UNKNOWN")
  }

  /** `ParseRRClass`, with 0 for an unknown name. */
  function ClassFromName(s: Str): RRClass {
    if s == Ascii("IN") then 1
    else if s == Ascii("CH") then 3
    else if s == Ascii("HS") then 4
    else if s == Ascii("NONE") then 254
    else if s == Ascii("ANY") then 255
    else 0
  }

  /** A name stands for a class exactly if it is printed for it and the class is supported. */
  lemma ClassFromClassName(c: RRClass, s: Str)
    ensures c != 0 && ClassFromName(s) == c <==> ValidClass(c) && ClassName(c) == s
  {
    AsciiInjective("IN", "CH");
    AsciiInjective("IN", "HS");
    AsciiInjective("CH", "HS");
    AsciiInjective("NONE", "ANY");
    assert Ascii("IN")[0] == 73 && Ascii("CH")[0] == 67 && Ascii("HS")[0] == 72;
    assert Ascii("NONE")[0] == 78 && Ascii("ANY")[0] == 65;
  }

  lemma TypeNameInjective(t: RRType, u: RRType)
    ensures TypeName(t) == TypeName(u) <==> t == u
  {
    if TypeName(t) == TypeName(u) {
      if ValidType(t) && ValidType(u) {
        MnemonicIsAscii(t);
        MnemonicIsAscii(u);
        AsciiInjective(Mnemonic(t).value, Mnemonic(u).value);
        TypeFromTypeName(t, Mnemonic(t).value);
        TypeFromTypeName(u, Mnemonic(u).value);
      } else if !ValidType(t) && !ValidType(u) {
        var s := TypeName(t);
        assert FormatDec(t) == s[8..|s| - 1] == FormatDec(u);
        FormatDecInjective(t, u);
      } else {
        UnknownTypeName(if ValidType(t) then u else t);
        MnemonicIsAscii(if ValidType(t) then t else u);
        assert false;
      }
    }
  }

  /** The name of an unsupported type is its number in `UNKNOWN()`. */
  lemma UnknownTypeName(t: RRType)
    requires !ValidType(t)
    ensures TypeName(t) != [] && TypeName(t)[0] == 'U' as int
    ensures var s := TypeName(t);
            |s| > 9 && s[..8] == Ascii("UNKNOWN(") && Numeral(s[8..|s| - 1], t) && s[|s| - 1] == ')' as int
  {
    var s := TypeName(t);
    ParseOfFormat(t);
    assert s[8..|s| - 1] == FormatDec(t) == s[8..|s| - 1][0..];
    assert s[..8] == Ascii("UNKNOWN(") && s[0] == Ascii("UNKNOWN(")[0];
    assert s[|s| - 1] == Ascii(")")[0];
  }

  lemma ClassNameInjective(c: RRClass, d: RRClass)
    ensures ClassName(c) == ClassName(d) <==> c == d || (!ValidClass(c) && !ValidClass(d))
  {
    AsciiInjective("IN", "CH");
    AsciiInjective("IN", "HS");
    AsciiInjective("CH", "HS");
    AsciiInjective("NONE", "UNKNOWN");
    AsciiInjective("ANY", "UNKNOWN");
  }

  lemma TypeNameFree(t: RRType)
    ensures Free(TypeName(t), PIPES)
  {
    if ValidType(t) {
      MnemonicIsAscii(t);
    } else {
      FormatDecFree(t, PIPES);
    }
  }

  lemma ClassNameFree(c: RRClass)
    ensures Free(ClassName(c), PIPES)
  {
  }

  // ---------- Cache keys ----------

  /** The public suffix list: the registrable domain of a name, or `None` where the lookup fails. */
  type SuffixList = Str -> Option<Str>

  function ApexDomain(psl: SuffixList, name: Str): Str {
    match psl(Canonical(name))
    case Some(apex) => apex
    case None => Canonical(name)
  }

  function CacheKey(psl: SuffixList, name: Str, t: RRType, c: RRClass): Str {
    var canonical := Canonical(name);
    ApexDomain(psl, canonical) + [PIPE] + canonical + [PIPE] + TypeName(t) + [PIPE] + ClassName(c)
  }

  /** The list invents no separator. */
  ghost predicate PipeFree(psl: SuffixList) {
    forall name | Free(name, PIPES) && psl(name).Some? :: Free(psl(name).value, PIPES)
  }

  /** The four fields of a key can be read back from it. */
  lemma CacheKeyFields(psl: SuffixList, name: Str, t: RRType, c: RRClass)
    requires PipeFree(psl) && Free(name, PIPES)
    ensures Split(CacheKey(psl, name, t, c), PIPES) ==
            [ApexDomain(psl, Canonical(name)), Canonical(name), TypeName(t), ClassName(c)]
    ensures var apex := Split(CacheKey(psl, name, t, c), PIPES)[0];
            var again := Canonical(Canonical(name));
            psl(again) == Some(apex) || (psl(again).None? && apex == again)
  {
    var canonical := Canonical(name);
    var apex := ApexDomain(psl, canonical);
    CanonicalFree(name, PIPES);
    CanonicalFree(canonical, PIPES);
    TypeNameFree(t);
    ClassNameFree(c);
    SplitFour(apex, canonical, TypeName(t), ClassName(c));
  }

  lemma SplitFour(a: Str, b: Str, c: Str, d: Str)
    requires Free(a, PIPES) && Free(b, PIPES) && Free(c, PIPES) && Free(d, PIPES)
    ensures Split(a + [PIPE] + b + [PIPE] + c + [PIPE] + d, PIPES) == [a, b, c, d]
  {
    var two := a + [PIPE] + b;
    var three := two + [PIPE] + c;
    assert Split(two, PIPES) == [a, b] by {
      SplitAtSeparator(a, PIPE, b, PIPES);
      SplitWithoutSeparator(a, PIPES);
      SplitWithoutSeparator(b, PIPES);
    }
    assert Split(three, PIPES) == [a, b, c] by {
      SplitAtSeparator(two, PIPE, c, PIPES);
      SplitWithoutSeparator(c, PIPES);
    }
    SplitAtSeparator(three, PIPE, d, PIPES);
    SplitWithoutSeparator(d, PIPES);
  }

  lemma LastPipe(a: Str, c: Str, b: Str, d: Str)
    requires Free(c, PIPES) && Free(d, PIPES)
    ensures a + [PIPE] + c == b + [PIPE] + d <==> a == b && c == d
  {
    var s, t := a + [PIPE] + c, b + [PIPE] + d;
    assert s[|a|] == PIPE && t[|b|] == PIPE;
    if |s| == |t| && |a| > |b| {
      assert t[|a|] == d[|a| - |b| - 1];
    } else if |s| == |t| && |a| < |b| {
      assert s[|b|] == c[|b| - |a| - 1];
    } else if s == t {
      assert a == s[..|a|] == b && c == s[|a| + 1..] == d;
    }
  }

  /** The first name ends in a separator and the second, and the apex of the second supplies what precedes them. */
  predicate Overlaps(psl: SuffixList, n1: Str, n2: Str) {
    var m1, m2 := Canonical(n1), Canonical(n2);
    var a1, a2 := ApexDomain(psl, m1), ApexDomain(psl, m2);
    |a1| < |a2| && var t := a2[|a1| + 1..]; a2 == a1 + [PIPE] + t && m1 == t + [PIPE] + m2
  }

  lemma PairsAgree(a1: Str, m1: Str, a2: Str, m2: Str)
    requires |a1| < |a2|
    ensures a1 + [PIPE] + m1 == a2 + [PIPE] + m2 <==>
            var t := a2[|a1| + 1..]; a2 == a1 + [PIPE] + t && m1 == t + [PIPE] + m2
  {
    var t := a2[|a1| + 1..];
    var s1, s2 := a1 + [PIPE] + m1, a2 + [PIPE] + m2;
    if s1 == s2 {
      assert s2[..|a2|] == a2 && s1[..|a1|] == a1 && s1[|a1|] == PIPE;
      assert a2 == a2[..|a1|] + [a2[|a1|]] + t;
      assert m1 == s1[|a1| + 1..] == s2[|a1| + 1..] == t + [PIPE] + m2;
    }
    if a2 == a1 + [PIPE] + t && m1 == t + [PIPE] + m2 {
      assert a1 + [PIPE] + (t + [PIPE] + m2) == (a1 + [PIPE] + t) + [PIPE] + m2;
    }
  }

  /**
    When two keys are equal, for all names and whatever the public suffix list says: exactly if types are equal,
    classes are equal or both unsupported, and canonical names are equal or one overlaps the other.
   */
  lemma CacheKeyEqual(psl: SuffixList, n1: Str, t1: RRType, c1: RRClass, n2: Str, t2: RRType, c2: RRClass)
    ensures CacheKey(psl, n1, t1, c1) == CacheKey(psl, n2, t2, c2) <==>
            && t1 == t2 && (c1 == c2 || (!ValidClass(c1) && !ValidClass(c2)))
            && (Canonical(n1) == Canonical(n2) || Overlaps(psl, n1, n2) || Overlaps(psl, n2, n1))
  {
    hide Canonical, TypeName, ClassName, ApexDomain;
    var m1, m2 := Canonical(n1), Canonical(n2);
    var a1, a2 := ApexDomain(psl, m1), ApexDomain(psl, m2);
    TypeNameInjective(t1, t2);
    ClassNameInjective(c1, c2);
    TypeNameFree(t1);
    TypeNameFree(t2);
    ClassNameFree(c1);
    ClassNameFree(c2);
    var k1, k2 := a1 + [PIPE] + m1, a2 + [PIPE] + m2;
    LastPipe(k1 + [PIPE] + TypeName(t1), ClassName(c1), k2 + [PIPE] + TypeName(t2), ClassName(c2));
    LastPipe(k1, TypeName(t1), k2, TypeName(t2));
    if |a1| < |a2| {
      PairsAgree(a1, m1, a2, m2);
    } else if |a2| < |a1| {
      PairsAgree(a2, m2, a1, m1);
    } else if k1 == k2 {
      assert m1 == k1[|a1| + 1..] == m2;
    }
  }

  /** Neither name has the separator, or one has not and the list invents none. */
  ghost predicate ToldApart(psl: SuffixList, n1: Str, n2: Str) {
    (Free(n1, PIPES) || Free(n2, PIPES)) && ((Free(n1, PIPES) && Free(n2, PIPES)) || PipeFree(psl))
  }

  lemma NoOverlap(psl: SuffixList, n1: Str, n2: Str)
    requires Free(Canonical(n1), PIPES)
    ensures !Overlaps(psl, n1, n2)
  {
    hide Canonical, ApexDomain;
    var a1, a2 := ApexDomain(psl, Canonical(n1)), ApexDomain(psl, Canonical(n2));
    if |a1| < |a2| {
      var t := a2[|a1| + 1..];
      assert (t + [PIPE] + Canonical(n2))[|t|] == PIPE;
    }
  }

  lemma FreeApex(psl: SuffixList, n1: Str, n2: Str)
    requires Free(n2, PIPES) && PipeFree(psl)
    ensures !Overlaps(psl, n1, n2)
  {
    hide Canonical;
    var a1, a2 := ApexDomain(psl, Canonical(n1)), ApexDomain(psl, Canonical(n2));
    CanonicalFree(n2, PIPES);
    CanonicalFree(Canonical(n2), PIPES);
    assert Free(a2, PIPES);
    if |a1| < |a2| {
      assert (a1 + [PIPE] + a2[|a1| + 1..])[|a1|] == PIPE;
    }
  }

  lemma NeverOverlap(psl: SuffixList, n1: Str, n2: Str)
    requires ToldApart(psl, n1, n2)
    ensures !Overlaps(psl, n1, n2) && !Overlaps(psl, n2, n1)
  {
    hide Canonical, Overlaps, PipeFree;
    if Free(n1, PIPES) {
      CanonicalFree(n1, PIPES);
      NoOverlap(psl, n1, n2);
    } else {
      FreeApex(psl, n1, n2);
    }
    if Free(n2, PIPES) {
      CanonicalFree(n2, PIPES);
      NoOverlap(psl, n2, n1);
    } else {
      FreeApex(psl, n2, n1);
    }
  }

  /**
    Keys identify canonical name, type and class, over all sixteen-bit types and classes, with the one exception that
    all unsupported classes share a key.
   */
  lemma CacheKeyInjective(psl: SuffixList, n1: Str, t1: RRType, c1: RRClass, n2: Str, t2: RRType, c2: RRClass)
    requires ToldApart(psl, n1, n2)
    ensures CacheKey(psl, n1, t1, c1) == CacheKey(psl, n2, t2, c2) <==>
            && Canonical(n1) == Canonical(n2) && t1 == t2
            && (c1 == c2 || (!ValidClass(c1) && !ValidClass(c2)))
  {
    hide Canonical, CacheKey, ApexDomain, Overlaps, ToldApart;
    CacheKeyEqual(psl, n1, t1, c1, n2, t2, c2);
    NeverOverlap(psl, n1, n2);
  }

  /** Each apex is the name itself or follows a dot in it. */
  ghost predicate AtDots(psl: SuffixList) {
    forall name | psl(name).Some? ::
      var apex := psl(name).value;
      apex == name || (|apex| < |name| && name[|name| - |apex| - 1..] == [DOT] + apex)
  }

  lemma OverlappingNames(psl: SuffixList, n1: Str, n2: Str)
    requires Canonical(n1) == n1 == [98, DOT, 99, PIPE, 99, PIPE, 98, DOT, 99] && psl(n1) == Some([99])
    requires Canonical(n2) == n2 == [99, PIPE, 98, DOT, 99] && psl(n2) == Some(n2)
    ensures Overlaps(psl, n1, n2)
  {
    hide Canonical;
    assert n2[2..] == [98, DOT, 99];
  }

  /** With separators inside names the apex alone does not help: a list of suffixes, and two names that share a key. */
  lemma CacheKeyCollision() returns (psl: SuffixList, n1: Str, n2: Str)
    ensures AtDots(psl) && PipeFree(psl) && Canonical(n1) == n1 && Canonical(n2) == n2 && n1 != n2
    ensures forall t, c :: CacheKey(psl, n1, t, c) == CacheKey(psl, n2, t, c)
  {
    // b.c|c|b.c, filed under c, and c|b.c, filed under itself
    n1, n2 := [98, DOT, 99, PIPE, 99, PIPE, 98, DOT, 99], [99, PIPE, 98, DOT, 99];
    var first := n1;
    psl := name => if name == first then Some([99]) else Some(name);
    assert n1[7..] == [DOT] + [99];
    CanonicalFixed(n1);
    CanonicalFixed(n2);
    hide Canonical, CacheKey, Overlaps;
    OverlappingNames(psl, n1, n2);
    forall t, c ensures CacheKey(psl, n1, t, c) == CacheKey(psl, n2, t, c) {
      CacheKeyEqual(psl, n1, t, c, n2, t, c);
    }
  }

  // ---------- Questions and records ----------

  datatype Question = Question(id: uint16, name: Str, qtype: RRType, qclass: RRClass) {
    function Key(psl: SuffixList): Str {
      CacheKey(psl, name, qtype, qclass)
    }
  }

  /** `NewQuestion`, with `None` for its validation errors. */
  function NewQuestion(id: uint16, name: Str, t: RRType, c: RRClass): Option<Question> {
    if name == [] || !ValidType(t) || !ValidClass(c) then None else Some(Question(id, name, t, c))
  }

  /** An instant or a length of time, in nanoseconds. */
  type Time = int

  const SECOND: Time := 1_000_000_000

  /** `expiresAt` is `None` for authoritative records. */
  datatype Record = Record(
    name: Str, rtype: RRType, rclass: RRClass, ttl: uint32, expiresAt: Option<Time>, data: seq<byte>, text: Str)
  {
    function Key(psl: SuffixList): Str {
      CacheKey(psl, name, rtype, rclass)
    }

    predicate Valid() {
      name != [] && ValidType(rtype) && ValidClass(rclass) && !(text == [] && data == [])
    }

    /** `IsExpired`: strictly past the expiry. */
    predicate Expired(now: Time) {
      expiresAt.Some? && now > expiresAt.value
    }

    function TTLRemaining(now: Time): (left: Time)
      ensures left >= 0
    {
      match expiresAt
      case None => ttl * 1_000_000_000
      case Some(at) => if at - now < 0 then 0 else at - now
    }

    /** `uint32(TTLRemaining().Seconds())`: whole seconds, cut to 32 bits. */
    function WireTTL(now: Time): uint32 {
      TTLRemaining(now) / 1_000_000_000 % 0x1_0000_0000
    }
  }

  function NewCachedRecord(
    name: Str, t: RRType, c: RRClass, ttl: uint32, data: seq<byte>, text: Str, now: Time): Option<Record>
  {
    var rr := Record(Canonical(name), t, c, ttl, Some(now + ttl * 1_000_000_000), data, text);
    if rr.Valid() then Some(rr) else None
  }

  // ---------- The life of a record across servers ----------

  /** The TTL on the wire: a zone's own record keeps it, a cached one has the whole seconds left to its expiry. */
  lemma WireTTLExactly(rr: Record, now: Time)
    ensures rr.expiresAt.None? ==> rr.WireTTL(now) == rr.ttl
    ensures rr.expiresAt.Some? && rr.expiresAt.value <= now ==> rr.WireTTL(now) == 0
    ensures rr.expiresAt.Some? && now <= rr.expiresAt.value < now + 0x1_0000_0000 * 1_000_000_000 ==>
              now + rr.WireTTL(now) * 1_000_000_000 <= rr.expiresAt.value < now + (rr.WireTTL(now) + 1) * 1_000_000_000
  {
  }

  /** A record passed on: each hop receives it at one time and sends it at a later one. */
  datatype Hop = Hop(received: Time, sent: Time)

  predicate InOrder(hops: seq<Hop>) {
    && (forall i | 0 <= i < |hops| :: hops[i].received <= hops[i].sent)
    && (forall i | 0 < i < |hops| :: hops[i - 1].sent <= hops[i].received)
  }

  /** The TTL that leaves the last hop, each one caching what it received and sending what is left. */
  function TTLAfter(rr: Record, ttl: uint32, hops: seq<Hop>): uint32 {
    if hops == [] then ttl
    else
      var last := hops[|hops| - 1];
      var arrived := TTLAfter(rr, ttl, hops[..|hops| - 1]);
      rr.(ttl := arrived, expiresAt := Some(last.received + arrived * 1_000_000_000)).WireTTL(last.sent)
  }

  /** The time spent in caches, from each arrival to the following departure. */
  function CacheTime(hops: seq<Hop>): Time {
    if hops == [] then 0
    else CacheTime(hops[..|hops| - 1]) + (hops[|hops| - 1].sent - hops[|hops| - 1].received)
  }

  /** The time under way, from each departure to the following arrival. */
  function Transit(hops: seq<Hop>): Time {
    if |hops| <= 1 then 0
    else Transit(hops[..|hops| - 1]) + (hops[|hops| - 1].received - hops[|hops| - 2].sent)
  }

  /** From the first arrival to the last departure. */
  function Elapsed(hops: seq<Hop>): Time {
    if hops == [] then 0 else hops[|hops| - 1].sent - hops[0].received
  }

  /** Whole seconds, rounded up. */
  function Ceiling(t: Time): int {
    (t + 999_999_999) / 1_000_000_000
  }

  /** The seconds each cache takes off, those it has begun to hold the record. */
  function HeldSeconds(hops: seq<Hop>): int {
    if hops == [] then 0
    else HeldSeconds(hops[..|hops| - 1]) + Ceiling(hops[|hops| - 1].sent - hops[|hops| - 1].received)
  }

  /** What rounding takes off beyond the time held. */
  function RoundedOff(hops: seq<Hop>): Time {
    HeldSeconds(hops) * 1_000_000_000 - CacheTime(hops)
  }

  /** One hop: the whole seconds left are what came less the time held, rounded down and never below zero. */
  lemma OneHop(rr: Record, arrived: uint32, hop: Hop)
    requires hop.received <= hop.sent
    ensures var out := rr.(ttl := arrived, expiresAt := Some(hop.received + arrived * 1_000_000_000)).WireTTL(hop.sent);
            var held := Ceiling(hop.sent - hop.received);
            out == if arrived > held then arrived - held else 0
  {
    var left := arrived * 1_000_000_000 - (hop.sent - hop.received);
    if left > 0 {
      assert left / 1_000_000_000 <= arrived;
    }
  }

  /** The TTL at the end, exactly: the original one less the seconds every cache takes off. */
  lemma {:induction false} TTLExactly(rr: Record, ttl: uint32, hops: seq<Hop>)
    requires InOrder(hops)
    ensures 0 <= CacheTime(hops) <= HeldSeconds(hops) * 1_000_000_000 <= CacheTime(hops) + 1_000_000_000 * |hops|
    ensures TTLAfter(rr, ttl, hops) == if ttl > HeldSeconds(hops) then ttl - HeldSeconds(hops) else 0
  {
    if hops != [] {
      var before := hops[..|hops| - 1];
      TTLExactly(rr, ttl, before);
      OneHop(rr, TTLAfter(rr, ttl, before), hops[|hops| - 1]);
    }
  }

  lemma {:induction false} TimeSplits(hops: seq<Hop>)
    ensures Elapsed(hops) == CacheTime(hops) + Transit(hops)
  {
    if |hops| > 1 {
      TimeSplits(hops[..|hops| - 1]);
    } else if |hops| == 1 {
      assert CacheTime(hops[..0]) == 0;
    }
  }

  /** The TTL sent last is no more than the original one less this time, or zero. */
  predicate NotProlonged(rr: Record, ttl: uint32, hops: seq<Hop>, time: Time) {
    var left := ttl * 1_000_000_000 - time;
    TTLAfter(rr, ttl, hops) * 1_000_000_000 <= if left > 0 then left else 0
  }

  /**
    No chain of caches prolongs a record's life by the time it is held.  Counting the time under way as well, the
    life is not prolonged exactly if nothing is left of it, or rounding has taken off at least the time under way.
   */
  lemma LifeNeverGrows(rr: Record, ttl: uint32, hops: seq<Hop>)
    requires InOrder(hops)
    ensures NotProlonged(rr, ttl, hops, CacheTime(hops))
    ensures NotProlonged(rr, ttl, hops, Elapsed(hops)) <==>
            ttl <= HeldSeconds(hops) || Transit(hops) <= RoundedOff(hops)
  {
    TTLExactly(rr, ttl, hops);
    TimeSplits(hops);
  }

  /** Five seconds under way move the expiry five seconds on; half a second is absorbed by half a second held. */
  lemma TransitProlongs(rr: Record)
    ensures var hops := [Hop(0, 0), Hop(5 * 1_000_000_000, 5 * 1_000_000_000)];
            InOrder(hops) && TTLAfter(rr, 10, hops) == 10 && !NotProlonged(rr, 10, hops, Elapsed(hops))
    ensures var hops := [Hop(0, 500_000_000), Hop(1_000_000_000, 1_000_000_000)];
            InOrder(hops) && TTLAfter(rr, 10, hops) == 9 && NotProlonged(rr, 10, hops, Elapsed(hops))
  {
    TwoHops(rr, 10, Hop(0, 0), Hop(5 * 1_000_000_000, 5 * 1_000_000_000));
    TwoHops(rr, 10, Hop(0, 500_000_000), Hop(1_000_000_000, 1_000_000_000));
  }

  lemma TwoHops(rr: Record, ttl: uint32, a: Hop, b: Hop)
    requires a.received <= a.sent <= b.received <= b.sent
    ensures var held := Ceiling(a.sent - a.received) + Ceiling(b.sent - b.received);
            TTLAfter(rr, ttl, [a, b]) == if ttl > held then ttl - held else 0
  {
    var hops := [a, b];
    assert hops[..1] == [a] && [a][..0] == [];
    assert HeldSeconds([a]) == Ceiling(a.sent - a.received);
    TTLExactly(rr, ttl, hops);
  }
}
