/**
  The RDATA of SOA, MX and SRV records (`rrdata/006soa.go`, `015mx.go`, `033srv.go`): text of white-space separated
  fields to bytes and back.
 */
module RdataFields {
  import opened Wrappers
  import opened Strings
  import opened Numbers
  import opened Names
  import opened Labels

  // ---------- Numbers in a row ----------

  /** All the numbers, or `None` if one does not parse or is larger than `max`. */
  function ParseAll(parts: seq<Str>, max: nat): (r: Option<seq<nat>>)
    ensures r.Some? ==> |r.value| == |parts| && forall i | 0 <= i < |parts| :: r.value[i] <= max
  {
    if parts == [] then Some([])
    else match ParseUint(parts[0], max)
      case None => None
      case Some(n) =>
        match ParseAll(parts[1..], max)
        case None => None
        case Some(rest) => Some([n] + rest)
  }

  function FormatAll(ns: seq<nat>): (r: seq<Str>)
    ensures |r| == |ns|
  {
    if ns == [] then [] else [FormatDec(ns[0])] + FormatAll(ns[1..])
  }

  lemma {:induction false} ParseAllOfFormatAll(ns: seq<nat>, max: nat)
    requires forall i | 0 <= i < |ns| :: ns[i] <= max
    ensures ParseAll(FormatAll(ns), max) == Some(ns)
  {
    if ns != [] {
      ParseOfFormat(ns[0]);
      ParseAllOfFormatAll(ns[1..], max);
      assert FormatAll(ns)[1..] == FormatAll(ns[1..]);
      assert [ns[0]] + ns[1..] == ns;
    }
  }

  lemma {:induction false} FormatAllWords(ns: seq<nat>)
    ensures NoneEmpty(FormatAll(ns))
    ensures AllFree(FormatAll(ns), SPACES) && AllFree(FormatAll(ns), UPPER) && AllFree(FormatAll(ns), DOTS)
  {
    if ns != [] {
      ParseOfFormat(ns[0]);
      FormatAllWords(ns[1..]);
    }
  }

  lemma {:induction false} ParseAllAt(parts: seq<Str>, max: nat, i: nat)
    requires i < |parts|
    ensures ParseAll(parts, max).Some? ==> ParseUint(parts[i], max) == Some(ParseAll(parts, max).value[i])
    ensures ParseUint(parts[i], max).None? ==> ParseAll(parts, max).None?
    decreases i
  {
    if i > 0 {
      ParseAllAt(parts[1..], max, i - 1);
    }
  }

  /** Big-endian fields of two or four bytes, one after the other. */
  function Fields16(ns: seq<nat>): (r: seq<byte>)
    requires forall i | 0 <= i < |ns| :: ns[i] <= 0xFFFF
    ensures |r| == 2 * |ns|
  {
    if ns == [] then [] else U16(ns[0]) + Fields16(ns[1..])
  }

  function Fields32(ns: seq<nat>): (r: seq<byte>)
    requires forall i | 0 <= i < |ns| :: ns[i] <= 0xFFFF_FFFF
    ensures |r| == 4 * |ns|
  {
    if ns == [] then [] else U32(ns[0]) + Fields32(ns[1..])
  }

  lemma {:induction false} Fields16Snoc(ns: seq<nat>, n: nat)
    requires n <= 0xFFFF && forall i | 0 <= i < |ns| :: ns[i] <= 0xFFFF
    ensures Fields16(ns + [n]) == Fields16(ns) + U16(n)
  {
    if ns != [] {
      Fields16Snoc(ns[1..], n);
      assert (ns + [n])[1..] == ns[1..] + [n];
    }
  }

  lemma {:induction false} Fields32Snoc(ns: seq<nat>, n: nat)
    requires n <= 0xFFFF_FFFF && forall i | 0 <= i < |ns| :: ns[i] <= 0xFFFF_FFFF
    ensures Fields32(ns + [n]) == Fields32(ns) + U32(n)
  {
    if ns != [] {
      Fields32Snoc(ns[1..], n);
      assert (ns + [n])[1..] == ns[1..] + [n];
    }
  }

  function Get16s(b: seq<byte>, at: nat, count: nat): (r: seq<nat>)
    requires at + 2 * count <= |b|
    ensures |r| == count && forall i | 0 <= i < count :: r[i] <= 0xFFFF
    decreases count
  {
    if count == 0 then [] else [GetU16(b, at)] + Get16s(b, at + 2, count - 1)
  }

  function Get32s(b: seq<byte>, at: nat, count: nat): (r: seq<nat>)
    requires at + 4 * count <= |b|
    ensures |r| == count && forall i | 0 <= i < count :: r[i] <= 0xFFFF_FFFF
    decreases count
  {
    if count == 0 then [] else [GetU32(b, at)] + Get32s(b, at + 4, count - 1)
  }

  lemma {:induction false} Get16sOfFields(b: seq<byte>, at: nat, ns: seq<nat>)
    requires (forall i | 0 <= i < |ns| :: ns[i] <= 0xFFFF) && Has(b, at, Fields16(ns))
    ensures Get16s(b, at, |ns|) == ns
    decreases |ns|
  {
    if ns != [] {
      HasSplit(b, at, U16(ns[0]), Fields16(ns[1..]));
      GetOfU16(b, at, ns[0]);
      Get16sOfFields(b, at + 2, ns[1..]);
    }
  }

  lemma {:induction false} Get32sOfFields(b: seq<byte>, at: nat, ns: seq<nat>)
    requires (forall i | 0 <= i < |ns| :: ns[i] <= 0xFFFF_FFFF) && Has(b, at, Fields32(ns))
    ensures Get32s(b, at, |ns|) == ns
    decreases |ns|
  {
    if ns != [] {
      HasSplit(b, at, U32(ns[0]), Fields32(ns[1..]));
      GetOfU32(b, at, ns[0]);
      Get32sOfFields(b, at + 4, ns[1..]);
    }
  }

  // ---------- Names in text ----------

  /** The dotted text of a name's labels. */
  function Dotted(name: Str): Str {
    Join(NameLabels(name), [DOT])
  }

  predicate IsRoot(name: Str) {
    NameLabels(name) == []
  }

  /** An encoded name is at most two bytes longer than its text. */
  lemma NameBytesSize(name: Str)
    requires NameBytes(name).Some?
    ensures |NameBytes(name).value| == if IsRoot(name) then 1 else |Dotted(name)| + 2
    ensures |NameBytes(name).value| <= |name| + 2
  {
    WireNameSize(NameLabels(name));
    SplitSize(Canonical(name), DOTS);
    NonEmptySize(Split(Canonical(name), DOTS));
    if NameLabels(name) != [] {
      JoinSize(NameLabels(name), [DOT]);
    }
    TrimSpec(name, SPACES);
    TrimRightIsPrefix(Lower(Trim(name, SPACES)), DOTS);
  }

  /** The text of a name that stands in wire form at the start of the data, whatever follows. */
  lemma NameTextOfWire(name: Str, b: seq<byte>)
    requires NameBytes(name).Some? && Has(b, 0, NameBytes(name).value)
    ensures NameText(b) == Some(Dotted(name))
  {
    NameLabelsSpec(name);
    ReadOfWire(b, 0, NameLabels(name));
  }

  // ---------- MX ----------

  function MxBytes(data: Str): Option<seq<byte>> {
    var parts := Fields(data);
    if |parts| != 2 then None
    else match Atoi(parts[0])
      case None => None
      case Some(pref) =>
        if pref < 0 || pref > 65535 then None
        else match NameBytes(parts[1])
          case None => None
          case Some(name) => Some(U16(pref) + name)
  }

  method EncodeMXData(data: Str) returns (r: Option<seq<byte>>)
    ensures r == MxBytes(data)
  {
    var parts := Fields(data);
    if |parts| != 2 {
      return None;
    }
    var pref := Atoi(parts[0]);
    if pref.None? || pref.value < 0 || pref.value > 65535 {
      return None;
    }
    var prefBytes := new byte[2](_ => 0);
    prefBytes[0], prefBytes[1] := pref.value / 256, pref.value % 256;
    assert prefBytes[..] == U16(pref.value);
    var name := EncodeDomainName(parts[1]);
    if name.None? {
      return None;
    }
    r := Some(prefBytes[..] + name.value);
  }

  function MxText(b: seq<byte>): Decoding {
    if |b| < 2 then Invalid
    else match NameText(b[2..])
      case None => Invalid
      case Some(name) => Text(FormatDec(GetU16(b, 0)) + [SPACE] + name)
  }

  method DecodeMXData(b: seq<byte>) returns (r: Decoding)
    ensures r == MxText(b)
  {
    if |b| < 2 {
      return Invalid;
    }
    var pref := GetU16(b, 0);
    var domain := DecodeDomainName(b[2..]);
    if domain.None? {
      return Invalid;
    }
    r := Text(FormatDec(pref) + [SPACE] + domain.value);
  }

  /**
    An accepted MX text decodes to its normal form, preference without sign or leading zeros and canonical
    exchange; and the normal form encodes to the same bytes exactly when the exchange is not the root.
   */
  lemma MxRoundTrip(data: Str)
    requires MxBytes(data).Some?
    ensures var w, exchange := MxBytes(data).value, Fields(data)[1];
            var normal := FormatDec(Atoi(Fields(data)[0]).value) + [SPACE] + Dotted(exchange);
            && MxText(w) == Text(normal)
            && (MxBytes(normal) == Some(w) <==> !IsRoot(exchange))
  {
    hide *;
    var pref := MxParts(data);
    var exchange := Fields(data)[1];
    MxDecodes(pref, exchange, MxBytes(data).value);
    MxNormal(pref, exchange);
  }

  /** The pieces of an accepted MX text. */
  lemma MxParts(data: Str) returns (pref: uint16)
    requires MxBytes(data).Some?
    ensures |Fields(data)| == 2 && Atoi(Fields(data)[0]) == Some(pref) && Free(Fields(data)[1], SPACES)
    ensures NameBytes(Fields(data)[1]).Some?
    ensures MxBytes(data).value == U16(pref) + NameBytes(Fields(data)[1]).value
  {
    hide Fields, Atoi, NameBytes;
    FieldsAreWords(data);
    pref := Atoi(Fields(data)[0]).value;
  }

  lemma MxNormal(pref: uint16, exchange: Str)
    requires NameBytes(exchange).Some? && Free(exchange, SPACES)
    ensures MxBytes(FormatDec(pref) + [SPACE] + Dotted(exchange)) ==
            if IsRoot(exchange) then None else Some(U16(pref) + NameBytes(exchange).value)
  {
    hide Fields, Atoi, NameBytes, NameLabels, Canonical, FormatDec;
    SpaceFreeName(exchange);
    ParseOfFormat(pref);
    FormatDecFree(pref, SPACES);
    FieldsAtSpace(FormatDec(pref), Dotted(exchange));
    FieldsOfWord(FormatDec(pref));
    FieldsOfWord(Dotted(exchange));
    AtoiOfFormat(pref);
  }

  /**
    Which texts are MX data, and for which bytes: two fields, a numeral of sixteen bits with an optional sign, and the
    exchange; the number comes first, its high byte before the low one.
   */
  lemma MxExactly(data: Str, w: seq<byte>)
    ensures MxBytes(data) == Some(w) <==>
            var parts := Fields(data);
            && |parts| == 2 && |w| >= 2 && SignedNumeral(parts[0], w[0] as int * 256 + w[1])
            && NameBytes(parts[1]) == Some(w[2..])
  {
    hide Fields, Atoi, NameBytes, SignedNumeral;
    var parts := Fields(data);
    if |w| >= 2 {
      if |parts| == 2 {
        AtoiExactly(parts[0], w[0] as int * 256 + w[1]);
      }
      assert w == [w[0], w[1]] + w[2..];
    }
    if MxBytes(data) == Some(w) {
      var pref := Atoi(parts[0]).value;
      assert w[0] == pref / 256 && w[1] == pref % 256;
      assert w[2..] == NameBytes(parts[1]).value;
    }
  }

  /** Which bytes decode as MX data: two, and labels; the text is number and name. */
  lemma MxTextExactly(b: seq<byte>, text: Str)
    ensures MxText(b) == Text(text) <==>
            && |b| >= 2
            && exists labels :: LabelsLie(b[2..], 0, labels) &&
                 text == FormatDec(b[0] as int * 256 + b[1]) + [SPACE] + Join(labels, [DOT])
  {
    hide NameText, LabelsLie, FormatDec, Join;
    if |b| >= 2 {
      NameTextMeans(b[2..]);
    }
  }

  lemma NameTextMeans(b: seq<byte>)
    ensures NameText(b).Some? ==> exists labels :: LabelsLie(b, 0, labels) && NameText(b).value == Join(labels, [DOT])
    ensures forall labels | LabelsLie(b, 0, labels) :: NameText(b) == Some(Join(labels, [DOT]))
  {
    hide NameText, LabelsLie, Join;
    if NameText(b).Some? {
      NameTextExactly(b, NameText(b).value);
    }
    forall labels | LabelsLie(b, 0, labels) ensures NameText(b) == Some(Join(labels, [DOT])) {
      NameTextExactly(b, Join(labels, [DOT]));
    }
  }

  lemma MxDecodes(pref: uint16, exchange: Str, w: seq<byte>)
    requires NameBytes(exchange).Some? && w == U16(pref) + NameBytes(exchange).value
    ensures MxText(w) == Text(FormatDec(pref) + [SPACE] + Dotted(exchange))
  {
    assert w[2..] == NameBytes(exchange).value == w[2..][0..|w| - 2];
    assert w[0..2] == U16(pref);
    GetOfU16(w, 0, pref);
    NameTextOfWire(exchange, w[2..]);
  }

  lemma AtoiOfFormat(n: nat)
    requires n <= 65535
    ensures Atoi(FormatDec(n)) == Some(n)
  {
    ParseOfFormat(n);
    assert IsDigit(FormatDec(n)[0]);
  }

  // ---------- SRV ----------

  function SrvBytes(data: Str): Option<seq<byte>> {
    var parts := Fields(data);
    if |parts| != 4 then None
    else match ParseAll(parts[..3], 0xFFFF)
      case None => None
      case Some(ns) =>
        match NameBytes(parts[3])
        case None => None
        case Some(target) => Some(Fields16(ns) + target)
  }

  method EncodeSRVData(data: Str) returns (r: Option<seq<byte>>)
    ensures r == SrvBytes(data)
  {
    var parts := Fields(data);
    if |parts| != 4 {
      return None;
    }
    var buf := new byte[6](_ => 0);
    ghost var ns: seq<nat> := [];
    for i := 0 to 3
      invariant |ns| == i && forall k | 0 <= k < i :: ns[k] <= 0xFFFF && ParseUint(parts[k], 0xFFFF) == Some(ns[k])
      invariant buf[..2 * i] == Fields16(ns)
    {
      var val := ParseUint(parts[i], 0xFFFF);
      if val.None? {
        ParseAllAt(parts[..3], 0xFFFF, i);
        return None;
      }
      Fields16Snoc(ns, val.value);
      ghost var before := buf[..2 * i];
      buf[2 * i], buf[2 * i + 1] := val.value / 256, val.value % 256;
      assert buf[..2 * i] == before;
      assert buf[..2 * (i + 1)] == before + U16(val.value);
      ns := ns + [val.value];
    }
    ParseAllIs(parts[..3], 0xFFFF, ns);
    assert buf[..] == buf[..6];
    var target := EncodeDomainName(parts[3]);
    if target.None? {
      return None;
    }
    r := Some(buf[..] + target.value);
  }

  lemma {:induction false} ParseAllIs(parts: seq<Str>, max: nat, ns: seq<nat>)
    requires |ns| == |parts| && forall k | 0 <= k < |parts| :: ParseUint(parts[k], max) == Some(ns[k])
    ensures ParseAll(parts, max) == Some(ns)
  {
    if parts != [] {
      ParseAllIs(parts[1..], max, ns[1..]);
      assert [ns[0]] + ns[1..] == ns;
    }
  }

  function SrvText(b: seq<byte>): Decoding {
    if |b| < 6 then Invalid
    else match NameText(b[6..])
      case None => Invalid
      case Some(target) => Text(Canonical(Join(FormatAll(Get16s(b, 0, 3)) + [target], [SPACE])))
  }

  method DecodeSRVData(b: seq<byte>) returns (r: Decoding)
    ensures r == SrvText(b)
  {
    if |b| < 6 {
      return Invalid;
    }
    var priority, weight, port := GetU16(b, 0), GetU16(b, 2), GetU16(b, 4);
    var target := DecodeDomainName(b[6..]);
    if target.None? {
      return Invalid;
    }
    var decoded := FormatDec(priority) + [SPACE] + FormatDec(weight) + [SPACE] + FormatDec(port) + [SPACE];
    decoded := decoded + target.value;
    assert Get16s(b, 0, 3) == [priority, weight, port] by {
      assert Get16s(b, 4, 1) == [port] && Get16s(b, 2, 2) == [weight, port];
    }
    FourWords(priority, weight, port, target.value);
    decoded := CanonicalDNSName(decoded);
    r := Text(decoded);
  }

  lemma FourWords(a: nat, b: nat, c: nat, word: Str)
    ensures Join(FormatAll([a, b, c]) + [word], [SPACE]) ==
            FormatDec(a) + [SPACE] + FormatDec(b) + [SPACE] + FormatDec(c) + [SPACE] + word
  {
    var x, y, z := FormatDec(a), FormatDec(b), FormatDec(c);
    assert FormatAll([a, b, c]) == [x, y, z] by {
      assert [a, b, c][1..] == [b, c] && [b, c][1..] == [c] && [c][1..] == [];
      assert FormatAll([c]) == [z] && FormatAll([b, c]) == [y, z];
    }
    hide FormatDec, FormatAll;
    JoinSnoc([x, y, z], word, [SPACE]);
    JoinSnoc([x, y], z, [SPACE]);
    JoinSnoc([x], y, [SPACE]);
    assert [x] + [y] == [x, y] && [x, y] + [z] == [x, y, z];
  }

  /**
    An accepted SRV text decodes, and what it decodes to encodes to the same bytes exactly when the target is not
    the root; it is then the normal form, decimals without leading zeros and the canonical target.
   */
  lemma SrvRoundTrip(data: Str)
    requires SrvBytes(data).Some?
    ensures var w, parts := SrvBytes(data).value, Fields(data);
            var normal := FormatAll(ParseAll(parts[..3], 0xFFFF).value) + [Dotted(parts[3])];
            && SrvText(w).Text?
            && (SrvBytes(SrvText(w).text) == Some(w) <==> !IsRoot(parts[3]))
            && (!IsRoot(parts[3]) ==> SrvText(w).text == Join(normal, [SPACE]))
  {
    hide Canonical, NameBytes, NameLabels, Fields, ParseAll, FormatAll;
    var parts := Fields(data);
    var w := SrvBytes(data).value;
    var ns, target := ParseAll(parts[..3], 0xFFFF).value, parts[3];
    FieldsAreWords(data);
    SrvDecodes(ns, target, w);
    SpaceFreeName(target);
    SrvNormal(ns, target);
  }

  /** Which texts are SRV data, and for which bytes: four fields, three numerals of sixteen bits and the target. */
  lemma SrvExactly(data: Str, w: seq<byte>)
    ensures SrvBytes(data) == Some(w) <==>
            var parts := Fields(data);
            && |parts| == 4 && |w| >= 6
            && (forall i | 0 <= i < 3 :: Numeral(parts[i], w[2 * i] as int * 256 + w[2 * i + 1]))
            && NameBytes(parts[3]) == Some(w[6..])
  {
    hide *;
    var parts := Fields(data);
    SrvParts(data);
    if |parts| == 4 && |w| >= 6 {
      var ns := [GetU16(w, 0), GetU16(w, 2), GetU16(w, 4)];
      ThreeFields(w, ns);
      NumeralsParse(parts[..3], 0xFFFF, ns);
      assert w == w[..6] + w[6..];
      ThreeNumerals(parts, w);
    }
    if SrvBytes(data).Some? {
      var ns: seq<nat> := ParseAll(parts[..3], 0xFFFF).value;
      var buf, target := Fields16(ns), NameBytes(parts[3]).value;
      assert (buf + target)[6..] == target && (buf + target)[..6] == buf;
      ThreeFields(buf + target, ns);
    }
  }

  lemma SrvParts(data: Str)
    ensures var parts := Fields(data);
            SrvBytes(data) ==
            if |parts| != 4 || ParseAll(parts[..3], 0xFFFF).None? || NameBytes(parts[3]).None? then None
            else Some(Fields16(ParseAll(parts[..3], 0xFFFF).value) + NameBytes(parts[3]).value)
  {
    hide Fields, ParseAll, NameBytes, Fields16;
  }

  lemma ThreeNumerals(parts: seq<Str>, w: seq<byte>)
    requires |parts| == 4 && |w| >= 6
    ensures var ns: seq<nat> := [GetU16(w, 0), GetU16(w, 2), GetU16(w, 4)];
            (forall i | 0 <= i < 3 :: Numeral(parts[..3][i], ns[i])) <==>
            forall i | 0 <= i < 3 :: Numeral(parts[i], w[2 * i] as int * 256 + w[2 * i + 1])
  {
    hide Numeral;
    var ns: seq<nat> := [GetU16(w, 0), GetU16(w, 2), GetU16(w, 4)];
    assert forall i | 0 <= i < 3 :: ns[i] == w[2 * i] as int * 256 + w[2 * i + 1];
  }

  lemma {:induction false} NumeralsParse(parts: seq<Str>, max: nat, ns: seq<nat>)
    requires |ns| == |parts| && forall i | 0 <= i < |ns| :: ns[i] <= max
    ensures ParseAll(parts, max) == Some(ns) <==> forall i | 0 <= i < |parts| :: Numeral(parts[i], ns[i])
  {
    hide Numeral, ParseUint;
    if parts != [] {
      ParseUintExactly(parts[0], max, ns[0]);
      NumeralsParse(parts[1..], max, ns[1..]);
      assert [ns[0]] + ns[1..] == ns;
    }
  }

  /** Six bytes are the three numbers they spell. */
  lemma ThreeFields(w: seq<byte>, ns: seq<nat>)
    requires |w| >= 6 && |ns| == 3 && forall i | 0 <= i < 3 :: ns[i] <= 0xFFFF
    ensures w[..6] == Fields16(ns) <==> ns == [GetU16(w, 0), GetU16(w, 2), GetU16(w, 4)]
  {
    assert ns == [ns[0]] + [ns[1]] + [ns[2]];
    Fields16Snoc([], ns[0]);
    Fields16Snoc([ns[0]], ns[1]);
    Fields16Snoc([ns[0]] + [ns[1]], ns[2]);
    assert [] + [ns[0]] == [ns[0]];
    assert Fields16(ns) == U16(ns[0]) + U16(ns[1]) + U16(ns[2]);
    hide U16, GetU16, Fields16;
    var one, two := U16(ns[0]), U16(ns[0]) + U16(ns[1]);
    assert Has(w, 0, two + U16(ns[2])) <==> w[..6] == two + U16(ns[2]) by {
      assert w[0..6] == w[..6];
    }
    HasSplit(w, 0, two, U16(ns[2]));
    HasSplit(w, 0, one, U16(ns[1]));
    HasU16(w, 0, ns[0]);
    HasU16(w, 2, ns[1]);
    HasU16(w, 4, ns[2]);
  }

  /** Which bytes decode as SRV data: three numbers of two bytes, and labels. */
  lemma SrvTextExactly(b: seq<byte>, text: Str)
    ensures SrvText(b) == Text(text) <==>
            && |b| >= 6
            && exists labels :: LabelsLie(b[6..], 0, labels) && text == Canonical(
                 FormatDec(b[0] as int * 256 + b[1]) + [SPACE] + FormatDec(b[2] as int * 256 + b[3]) + [SPACE] +
                 FormatDec(b[4] as int * 256 + b[5]) + [SPACE] + Join(labels, [DOT]))
  {
    if |b| >= 6 {
      assert Get16s(b, 0, 3) == [GetU16(b, 0), GetU16(b, 2), GetU16(b, 4)] by {
        assert Get16s(b, 4, 1) == [GetU16(b, 4)] && Get16s(b, 2, 2) == [GetU16(b, 2), GetU16(b, 4)];
      }
      hide NameText, LabelsLie, FormatDec, FormatAll, Join, Canonical, Get16s;
      NameTextMeans(b[6..]);
      forall word ensures Join(FormatAll([GetU16(b, 0), GetU16(b, 2), GetU16(b, 4)]) + [word], [SPACE]) ==
                          FormatDec(GetU16(b, 0)) + [SPACE] + FormatDec(GetU16(b, 2)) + [SPACE] +
                          FormatDec(GetU16(b, 4)) + [SPACE] + word
      {
        FourWords(GetU16(b, 0), GetU16(b, 2), GetU16(b, 4), word);
      }
    }
  }

  lemma SrvDecodes(ns: seq<nat>, target: Str, w: seq<byte>)
    requires |ns| == 3 && (forall i | 0 <= i < 3 :: ns[i] <= 0xFFFF)
    requires NameBytes(target).Some? && w == Fields16(ns) + NameBytes(target).value
    ensures SrvText(w) == Text(Canonical(Join(FormatAll(ns) + [Dotted(target)], [SPACE])))
  {
    var name := NameBytes(target).value;
    assert w[6..] == name && name[0..|name|] == name;
    assert w[0..6] == Fields16(ns);
    Get16sOfFields(w, 0, ns);
    NameTextOfWire(target, w[6..]);
  }

  lemma SrvNormal(ns: seq<nat>, target: Str)
    requires |ns| == 3 && (forall i | 0 <= i < 3 :: ns[i] <= 0xFFFF)
    requires NameBytes(target).Some? && Free(target, SPACES)
    ensures var text := Join(FormatAll(ns) + [Dotted(target)], [SPACE]);
            if IsRoot(target) then SrvBytes(Canonical(text)).None?
            else Canonical(text) == text && SrvBytes(text) == Some(Fields16(ns) + NameBytes(target).value)
  {
    var ds, name := FormatAll(ns), Dotted(target);
    SpaceFreeName(target);
    FormatAllWords(ns);
    ParseAllOfFormatAll(ns, 0xFFFF);
    if IsRoot(target) {
      JoinSnoc(ds, [], [SPACE]);
      assert ds[2] != [] && Free(ds[2], DOTS);
      CanonicalDropsSpace(ds);
      FieldsOfJoin(ds);
    } else {
      var words := ds + [name];
      assert words[..3] == ds;
      DottedEnd(target);
      WordsCanonical(words);
      FieldsOfJoin(words);
    }
  }

  /** Lower-case words joined by spaces, the last not ending in a dot, are their own canonical form. */
  lemma WordsCanonical(words: seq<Str>)
    requires words != [] && NoneEmpty(words) && AllFree(words, SPACES) && AllFree(words, UPPER)
    requires Last(words[|words| - 1]) != DOT
    ensures Canonical(Join(words, [SPACE])) == Join(words, [SPACE])
  {
    JoinEnds(words, [SPACE]);
    JoinFree(words, [SPACE], UPPER);
    assert words[0][0] !in SPACES && Last(words[|words| - 1]) !in SPACES;
    CanonicalFixed(Join(words, [SPACE]));
  }

  /** A trailing space goes. */
  lemma CanonicalDropsSpace(words: seq<Str>)
    requires words != [] && NoneEmpty(words) && AllFree(words, SPACES) && AllFree(words, UPPER)
    requires Last(words[|words| - 1]) != DOT
    ensures Canonical(Join(words, [SPACE]) + [SPACE] + []) == Join(words, [SPACE])
  {
    var j := Join(words, [SPACE]);
    var s := j + [SPACE] + [];
    JoinEnds(words, [SPACE]);
    JoinFree(words, [SPACE], UPPER);
    assert words[0][0] !in SPACES && Last(words[|words| - 1]) !in SPACES;
    assert s[0] == j[0] && s[..|s| - 1] == j && s[|s| - 1] == SPACE;
    assert Trim(s, SPACES) == TrimRight(s, SPACES) == TrimRight(j, SPACES) == j;
    LowerSpec(j);
    assert j[|j| - 1] == Last(j);
  }

  /** The text of a name other than the root does not end in a dot. */
  lemma DottedEnd(name: Str)
    requires Free(name, SPACES) && NameBytes(name).Some? && !IsRoot(name)
    ensures Dotted(name) != [] && Last(Dotted(name)) != DOT
  {
    SpaceFreeName(name);
    CanonicalSpec(Dotted(name));
  }

  // ---------- SOA ----------

  function SoaBytes(data: Str): Option<seq<byte>> {
    var parts := Fields(data);
    if |parts| != 7 then None
    else match NameBytes(parts[0])
      case None => None
      case Some(mname) =>
        match NameBytes(parts[1])
        case None => None
        case Some(rname) =>
          match ParseAll(parts[2..], 0xFFFF_FFFF)
          case None => None
          case Some(ns) => Some(mname + rname + Fields32(ns))
  }

  method EncodeSOAData(data: Str) returns (r: Option<seq<byte>>)
    ensures r == SoaBytes(data)
  {
    var parts := Fields(data);
    if |parts| != 7 {
      return None;
    }
    var mname := EncodeDomainName(parts[0]);
    if mname.None? {
      return None;
    }
    var rname := EncodeDomainName(parts[1]);
    if rname.None? {
      return None;
    }
    var u32 := new byte[20](_ => 0);
    ghost var ns: seq<nat> := [];
    for i := 0 to 5
      invariant |ns| == i && forall k | 0 <= k < i ::
                  ns[k] <= 0xFFFF_FFFF && ParseUint(parts[2..][k], 0xFFFF_FFFF) == Some(ns[k])
      invariant u32[..4 * i] == Fields32(ns)
    {
      assert parts[2..][i] == parts[i + 2];
      var val := ParseUint(parts[i + 2], 0xFFFF_FFFF);
      if val.None? {
        ParseAllAt(parts[2..], 0xFFFF_FFFF, i);
        return None;
      }
      Fields32Snoc(ns, val.value);
      PutU32(u32, 4 * i, val.value);
      ns := ns + [val.value];
    }
    ParseAllIs(parts[2..], 0xFFFF_FFFF, ns);
    assert u32[..] == u32[..20];
    r := Some(mname.value + rname.value + u32[..]);
  }

  /** `binary.BigEndian.PutUint32`. */
  method PutU32(a: array<byte>, at: nat, n: nat)
    requires at + 4 <= a.Length && n <= 0xFFFF_FFFF
    modifies a
    ensures a[..at + 4] == old(a[..at]) + U32(n)
    ensures a[at + 4..] == old(a[at + 4..])
  {
    var high, low := n / 0x1_0000, n % 0x1_0000;
    a[at], a[at + 1], a[at + 2], a[at + 3] := high / 256, high % 256, low / 256, low % 256;
    assert a[..at] == old(a[..at]);
    assert a[at..at + 4] == U32(n);
    assert a[..at + 4] == a[..at] + a[at..at + 4];
  }

  /** The offsets after the names come from the length of their texts. */
  function SoaText(b: seq<byte>): Decoding {
    if |b| < 25 then Invalid
    else match NameText(b)
      case None => Invalid
      case Some(mname) =>
        var second := |mname| + 2;
        if second > |b| then Panics
        else match NameText(b[second..])
          case None => Invalid
          case Some(rname) =>
            var third := second + |rname| + 2;
            if third > |b| then Panics
            else if |b| - third < 20 then Invalid
            else Text(Join([mname, rname] + FormatAll(Get32s(b, third, 5)), [SPACE]))
  }

  method DecodeSOAData(b: seq<byte>) returns (r: Decoding)
    ensures r == SoaText(b)
  {
    if |b| < 25 {
      return Invalid;
    }
    var mname := DecodeDomainName(b);
    if mname.None? {
      return Invalid;
    }
    var offset := |mname.value| + 2;
    if offset > |b| {
      return Panics;
    }
    var rname := DecodeDomainName(b[offset..]);
    if rname.None? {
      return Invalid;
    }
    offset := offset + |rname.value| + 2;
    if offset > |b| {
      return Panics;
    }
    if |b| - offset < 20 {
      return Invalid;
    }
    var u32 := ReadU32s(b, offset, 5);
    r := Text(Join([mname.value, rname.value] + FormatAll(u32), [SPACE]));
  }

  method ReadU32s(b: seq<byte>, at: nat, count: nat) returns (u32: seq<nat>)
    requires at + 4 * count <= |b|
    ensures u32 == Get32s(b, at, count)
  {
    u32 := [];
    for i := 0 to count
      invariant |u32| == i && Get32s(b, at, count) == u32 + Get32s(b, at + 4 * i, count - i)
    {
      var next := at + 4 * i;
      assert Get32s(b, next, count - i) == [GetU32(b, next)] + Get32s(b, next + 4, count - i - 1);
      u32 := u32 + [GetU32(b, next)];
    }
  }

  /** Labels from here on run to the end of the data without the zero byte that ends a name. */
  predicate RunsOut(b: seq<byte>, at: nat)
    decreases |b| - at
  {
    at >= |b| || (b[at] != 0 && at + 1 + b[at] <= |b| && RunsOut(b, at + 1 + b[at]))
  }

  lemma {:induction false} ReadSize(b: seq<byte>, at: nat)
    requires at <= |b|
    ensures RunsOut(b, at) ==> ReadLabels(b, at).Some?
    ensures match ReadLabels(b, at)
            case None => true
            case Some(labels) => Total(labels) + |labels| + (if RunsOut(b, at) then 0 else 1) <= |b| - at &&
                                 (RunsOut(b, at) ==> Total(labels) + |labels| == |b| - at)
    decreases |b| - at
  {
    if at < |b| && b[at] != 0 && at + 1 + b[at] <= |b| {
      ReadSize(b, at + 1 + b[at]);
    }
  }

  /** A name's text with the two bytes taken to surround it stays within the data exactly if a zero byte ends it. */
  lemma NameTextSize(b: seq<byte>)
    requires |b| >= 2
    ensures RunsOut(b, 0) ==> NameText(b).Some?
    ensures NameText(b).Some? ==> (|NameText(b).value| + 2 > |b| <==> RunsOut(b, 0))
  {
    ReadSize(b, 0);
    var labels := ReadLabels(b, 0);
    if labels.Some? && labels.value != [] {
      JoinSize(labels.value, [DOT]);
    }
  }

  /** Where the decoder looks for the second name. */
  function SecondName(b: seq<byte>): Option<seq<byte>> {
    match NameText(b)
    case Some(mname) => if |mname| + 2 <= |b| then Some(b[|mname| + 2..]) else None
    case None => None
  }

  /**
    On which data the decoder panics: of at least twenty-five bytes, where the first name runs to the end, or
    where what it takes for the second does, or is a zero byte that ends the data.
   */
  lemma SoaPanicsExactly(b: seq<byte>)
    ensures SoaText(b) == Panics <==>
            && |b| >= 25
            && (RunsOut(b, 0) ||
                (SecondName(b).Some? && (RunsOut(SecondName(b).value, 0) || SecondName(b).value == [0])))
  {
    if |b| >= 25 {
      hide NameText, RunsOut;
      NameTextSize(b);
      if SecondName(b).Some? {
        var rest := SecondName(b).value;
        if |rest| >= 2 {
          NameTextSize(rest);
        } else {
          ShortName(rest);
        }
      }
    }
  }

  lemma ShortName(b: seq<byte>)
    requires |b| <= 1
    ensures RunsOut(b, 0) || b == [0] <==> NameText(b).Some?
  {
  }

  /** Twenty-five bytes of one label do. */
  lemma SoaPanics(b: seq<byte>)
    requires |b| == 25 && b[0] == 24
    ensures SoaText(b) == Panics
  {
    assert RunsOut(b, 25);
    SoaPanicsExactly(b);
  }

  /** The four bytes at `at`, the highest first. */
  function Word(w: seq<byte>, at: nat): nat
    requires at + 4 <= |w|
  {
    ((w[at] as int * 256 + w[at + 1]) * 256 + w[at + 2]) * 256 + w[at + 3]
  }

  lemma {:induction false} WordsAre(w: seq<byte>, at: nat, count: nat, i: nat)
    requires at + 4 * count <= |w| && i < count
    ensures Get32s(w, at, count)[i] == Word(w, at + 4 * i)
    decreases i
  {
    if i > 0 {
      WordsAre(w, at + 4, count - 1, i - 1);
    }
  }

  lemma {:induction false} FieldsOfWords(w: seq<byte>, at: nat, count: nat)
    requires at + 4 * count == |w|
    ensures Fields32(Get32s(w, at, count)) == w[at..]
    decreases count
  {
    if count > 0 {
      FieldsOfWords(w, at + 4, count - 1);
      assert Get32s(w, at, count)[1..] == Get32s(w, at + 4, count - 1);
      WordBytes(w, at);
      assert w[at..] == w[at..at + 4] + w[at + 4..];
    }
  }

  lemma WordBytes(w: seq<byte>, at: nat)
    requires at + 4 <= |w|
    ensures U32(GetU32(w, at)) == w[at..at + 4]
  {
    var high, low := GetU16(w, at), GetU16(w, at + 2);
    assert GetU32(w, at) / 0x1_0000 == high && GetU32(w, at) % 0x1_0000 == low;
    assert w[at..at + 4] == [w[at], w[at + 1], w[at + 2], w[at + 3]];
  }

  /** An encoding of the two names, in this order, and five numbers. */
  predicate SoaLies(parts: seq<Str>, w: seq<byte>) {
    && |parts| == 7 && NameBytes(parts[0]).Some? && NameBytes(parts[1]).Some?
    && var m, r := NameBytes(parts[0]).value, NameBytes(parts[1]).value;
       && |w| == |m| + |r| + 20
       && w[..|m|] == m && w[|m|..|m| + |r|] == r
       && forall i | 0 <= i < 5 :: Numeral(parts[2 + i], Word(w, |m| + |r| + 4 * i))
  }

  /**
    Which texts are SOA data, and for which bytes: seven fields, two names and five numerals of thirty-two bits.
   */
  lemma SoaExactly(data: Str, w: seq<byte>)
    ensures SoaBytes(data) == Some(w) <==> SoaLies(Fields(data), w)
  {
    hide Fields, NameBytes, Numeral, ParseAll, Fields32, Word, Get32s, U32;
    var parts := Fields(data);
    if |parts| == 7 && NameBytes(parts[0]).Some? && NameBytes(parts[1]).Some? {
      var m, r := NameBytes(parts[0]).value, NameBytes(parts[1]).value;
      var at := |m| + |r|;
      if |w| == at + 20 {
        FiveNumerals(parts, w, at);
        FieldsOfWords(w, at, 5);
        assert w == w[..|m|] + w[|m|..at] + w[at..];
      }
      if SoaBytes(data) == Some(w) {
        var ns := ParseAll(parts[2..], 0xFFFF_FFFF).value;
        assert w == m + r + Fields32(ns) && w[..|m|] == m && w[|m|..at] == r && w[at..] == Fields32(ns);
        assert Has(w, at, Fields32(ns));
        Get32sOfFields(w, at, ns);
      }
    }
  }

  lemma FiveNumerals(parts: seq<Str>, w: seq<byte>, at: nat)
    requires |parts| == 7 && |w| == at + 20
    ensures ParseAll(parts[2..], 0xFFFF_FFFF) == Some(Get32s(w, at, 5)) <==>
            forall i | 0 <= i < 5 :: Numeral(parts[2 + i], Word(w, at + 4 * i))
  {
    hide Numeral, ParseAll, Word, Get32s;
    var ns := Get32s(w, at, 5);
    NumeralsParse(parts[2..], 0xFFFF_FFFF, ns);
    forall i | 0 <= i < 5 ensures ns[i] == Word(w, at + 4 * i) && parts[2..][i] == parts[2 + i] {
      WordsAre(w, at, 5, i);
    }
  }

  /** Which bytes decode as SOA data: two names, each followed from two bytes past its text on, and five numbers. */
  lemma SoaTextExactly(b: seq<byte>, text: Str)
    ensures SoaText(b) == Text(text) <==>
            && |b| >= 25
            && exists m, r :: SoaReads(b, m, r) &&
                 text == Join([Join(m, [DOT]), Join(r, [DOT])] + FormatAll(SoaNumbers(b, m, r)), [SPACE])
  {
    hide NameText, LabelsLie, FormatAll, Join, Word, Get32s;
    if |b| >= 25 {
      NameTextMeans(b);
      forall at: nat | at + 20 <= |b| ensures Get32s(b, at, 5) == seq(5, i requires 0 <= i < 5 => Word(b, at + 4 * i)) {
        forall i | 0 <= i < 5 ensures Get32s(b, at, 5)[i] == Word(b, at + 4 * i) {
          WordsAre(b, at, 5, i);
        }
      }
      if NameText(b).Some? && |NameText(b).value| + 2 <= |b| {
        NameTextMeans(b[|NameText(b).value| + 2..]);
      }
    }
  }

  predicate SoaReads(b: seq<byte>, m: seq<Str>, r: seq<Str>) {
    && LabelsLie(b, 0, m)
    && var second := |Join(m, [DOT])| + 2;
       && second <= |b| && LabelsLie(b[second..], 0, r) && second + |Join(r, [DOT])| + 22 <= |b|
  }

  function SoaNumbers(b: seq<byte>, m: seq<Str>, r: seq<Str>): seq<nat>
    requires SoaReads(b, m, r)
  {
    seq(5, i requires 0 <= i < 5 => Word(b, |Join(m, [DOT])| + |Join(r, [DOT])| + 4 + 4 * i))
  }

  /** The pieces of an accepted SOA text. */
  datatype Soa = Soa(mname: Str, rname: Str, numbers: seq<nat>)

  predicate SoaOk(x: Soa) {
    && |x.numbers| == 5 && (forall i | 0 <= i < 5 :: x.numbers[i] <= 0xFFFF_FFFF)
    && Free(x.mname, SPACES) && Free(x.rname, SPACES)
    && NameBytes(x.mname).Some? && NameBytes(x.rname).Some?
  }

  function SoaWire(x: Soa): seq<byte>
    requires SoaOk(x)
  {
    NameBytes(x.mname).value + NameBytes(x.rname).value + Fields32(x.numbers)
  }

  /** Canonical names, decimals without leading zeros, single spaces. */
  function SoaNormal(x: Soa): Str {
    Join([Dotted(x.mname), Dotted(x.rname)] + FormatAll(x.numbers), [SPACE])
  }

  lemma SoaParts(data: Str) returns (x: Soa)
    requires SoaBytes(data).Some?
    ensures SoaOk(x) && SoaBytes(data) == Some(SoaWire(x))
    ensures x.mname == Fields(data)[0] && x.rname == Fields(data)[1]
    ensures ParseAll(Fields(data)[2..], 0xFFFF_FFFF) == Some(x.numbers)
  {
    var parts := Fields(data);
    FieldsAreWords(data);
    x := Soa(parts[0], parts[1], ParseAll(parts[2..], 0xFFFF_FFFF).value);
  }

  /** Where the second name and the numbers stand in the encoding. */
  lemma SoaLayout(x: Soa)
    requires SoaOk(x)
    ensures var w, m, r := SoaWire(x), NameBytes(x.mname).value, NameBytes(x.rname).value;
            && |w| == |m| + |r| + 20
            && Has(w, 0, m) && Has(w[|m|..], 0, r) && Has(w, |m| + |r|, Fields32(x.numbers))
  {
    var w, m, r, n := SoaWire(x), NameBytes(x.mname).value, NameBytes(x.rname).value, Fields32(x.numbers);
    assert w[..|m|] == m;
    assert w[|m|..] == r + n;
    assert w[|m| + |r|..] == n;
  }

  /** With names other than the root, both offsets are right: an encoded name is two bytes longer than its text. */
  lemma SoaDecodes(x: Soa)
    requires SoaOk(x) && !IsRoot(x.mname) && !IsRoot(x.rname)
    ensures SoaText(SoaWire(x)) == Text(SoaNormal(x))
  {
    hide NameBytes, NameLabels, NameText, Get32s, Fields32, Free, Has;
    var w := SoaWire(x);
    SpaceFreeName(x.mname);
    SpaceFreeName(x.rname);
    SoaLayout(x);
    NameBytesSize(x.mname);
    NameBytesSize(x.rname);
    NameTextOfWire(x.mname, w);
    NameTextOfWire(x.rname, w[|NameBytes(x.mname).value|..]);
    Get32sOfFields(w, |NameBytes(x.mname).value| + |NameBytes(x.rname).value|, x.numbers);
  }

  lemma SoaReencodes(x: Soa)
    requires SoaOk(x) && !IsRoot(x.mname) && !IsRoot(x.rname)
    ensures SoaBytes(SoaNormal(x)) == Some(SoaWire(x))
  {
    hide NameBytes, NameLabels, Fields, ParseAll, FormatAll, Canonical, Free;
    var ds := FormatAll(x.numbers);
    var words := [Dotted(x.mname), Dotted(x.rname)] + ds;
    SpaceFreeName(x.mname);
    SpaceFreeName(x.rname);
    FormatAllWords(x.numbers);
    ParseAllOfFormatAll(x.numbers, 0xFFFF_FFFF);
    assert words[2..] == ds;
    FieldsOfJoin(words);
  }

  /** With a root for the second name only, the numbers are sought one byte too late. */
  lemma SoaRootRname(x: Soa)
    requires SoaOk(x) && !IsRoot(x.mname) && IsRoot(x.rname)
    ensures SoaText(SoaWire(x)) == Invalid
  {
    hide NameBytes, NameLabels, NameText, Get32s, Fields32, Free, Has;
    var w := SoaWire(x);
    SoaLayout(x);
    NameBytesSize(x.mname);
    NameBytesSize(x.rname);
    NameTextOfWire(x.mname, w);
    NameTextOfWire(x.rname, w[|NameBytes(x.mname).value|..]);
  }

  /** With a root for the first name, what can still be decoded is too short to encode to as many bytes. */
  lemma SoaRootMname(x: Soa)
    requires SoaOk(x) && IsRoot(x.mname)
    ensures SoaText(SoaWire(x)).Text? ==> SoaBytes(SoaText(SoaWire(x)).text) != Some(SoaWire(x))
  {
    hide NameBytes, NameLabels, NameText, Get32s, Fields32, Free, Has;
    var w := SoaWire(x);
    SoaLayout(x);
    NameBytesSize(x.mname);
    NameBytesSize(x.rname);
    NameTextOfWire(x.mname, w);
    if SoaText(w).Text? {
      var rname := NameText(w[2..]).value;
      assert |rname| + 4 + 20 <= |w|;
      SoaTextSize(rname, Get32s(w, 2 + |rname| + 2, 5));
    }
  }

  lemma FieldsAfterRoot(rname: Str, ns: seq<nat>)
    requires |ns| == 5
    ensures Fields(Join([[], rname] + FormatAll(ns), [SPACE])) == Fields(rname) + FormatAll(ns)
  {
    hide Fields, FormatAll;
    var ds := FormatAll(ns);
    var tail := Join(ds, [SPACE]);
    assert [[], rname] + ds == [[]] + ([rname] + ds);
    JoinCons([], [rname] + ds, [SPACE]);
    JoinCons(rname, ds, [SPACE]);
    FormatAllWords(ns);
    FieldsOfJoin(ds);
    FieldsAtSpace(rname, tail);
    FieldsAtSpace([], rname + [SPACE] + tail);
    FieldsOfWord([]);
    assert [] + (Fields(rname) + ds) == Fields(rname) + ds;
  }

  lemma SoaTextSize(rname: Str, ns: seq<nat>)
    requires |ns| == 5
    ensures var again := SoaBytes(Join([[], rname] + FormatAll(ns), [SPACE]));
            again.Some? ==> |again.value| <= |rname| + 23
  {
    hide NameBytes, NameLabels, Fields, ParseAll, FormatAll;
    var ds := FormatAll(ns);
    var text := Join([[], rname] + ds, [SPACE]);
    FieldsAfterRoot(rname, ns);
    var again := SoaBytes(text);
    if again.Some? {
      var f := Fields(rname);
      assert |f| == 2 && Fields(text)[0] == f[0] && Fields(text)[1] == f[1];
      NameBytesSize(f[0]);
      NameBytesSize(f[1]);
      FieldsSize(rname);
      assert Total(f[1..][1..]) == 0 && Total(f) == |f[0]| + |f[1]|;
    }
  }

  /**
    An accepted SOA text decodes, and what it decodes to encodes to the same bytes, exactly when neither name is
    the root; it is then the normal form.
   */
  lemma SoaRoundTrip(data: Str)
    requires SoaBytes(data).Some?
    ensures var w, parts := SoaBytes(data).value, Fields(data);
            var good := !IsRoot(parts[0]) && !IsRoot(parts[1]);
            var normal := [Dotted(parts[0]), Dotted(parts[1])] + FormatAll(ParseAll(parts[2..], 0xFFFF_FFFF).value);
            && (SoaText(w).Text? && SoaBytes(SoaText(w).text) == Some(w) <==> good)
            && (good ==> SoaText(w) == Text(Join(normal, [SPACE])))
  {
    var x := SoaParts(data);
    if IsRoot(x.mname) {
      SoaRootMname(x);
    } else if IsRoot(x.rname) {
      SoaRootRname(x);
    } else {
      SoaDecodes(x);
      SoaReencodes(x);
    }
  }
}
