/**
  Choosing the RDATA codec by record type (`rrdata/encoding.go`, `rrdata/decoding.go`), and what becomes of records
  made from text when they are sent.  The text of IP addresses comes from Go's library, so the codecs of A and AAAA
  are arbitrary functions.
 */
module Rdata {
  import opened Wrappers
  import opened Strings
  import opened Numbers
  import opened Labels
  import opened Domain
  import opened RdataFields
  import opened RdataText
  import opened WireQuery
  import opened WireResponse
  import opened WireRoundTrip

  type RdataEncoder = (RRType, Str) -> Option<seq<byte>>

  predicate IsAddress(t: RRType) {
    t == 1 || t == 28
  }

  function Encode(addresses: RdataEncoder, t: RRType, text: Str): Option<seq<byte>> {
    match t
    case 1 | 28 => addresses(t, text)
    case 2 | 5 | 12 => NameBytes(text)
    case 6 => SoaBytes(text)
    case 15 => MxBytes(text)
    case 16 => TxtBytes(text)
    case 33 => SrvBytes(text)
    case 35 | 41 | 43 | 46 | 47 | 48 | 52 | 64 | 65 => None
    case 257 => CaaBytes(text)
    case _ => Some(text)
  }

  function Decode(addresses: RdataDecoder, t: RRType, data: seq<byte>): Decoding {
    match t
    case 1 | 28 => addresses(t, data)
    case 2 | 5 | 12 => (match NameText(data) case None => Invalid case Some(name) => Text(name))
    case 6 => SoaText(data)
    case 15 => MxText(data)
    case 16 => TxtText(data)
    case 33 => SrvText(data)
    case 35 | 41 | 43 | 46 | 47 | 48 | 52 | 64 | 65 => Invalid
    case 257 => CaaText(data)
    case _ => Text(data)
  }

  predicate Named(t: RRType, names: set<string>) {
    Mnemonic(t).Some? && Mnemonic(t).value in names
  }

  /** Which codec serves which type, by their names; a type without a name, and ANY, keeps text and data as they are. */
  lemma CodecsByName(enc: RdataEncoder, dec: RdataDecoder, t: RRType, text: Str, data: seq<byte>)
    ensures Named(t, {"NS", "CNAME", "PTR"}) ==>
              Encode(enc, t, text) == NameBytes(text) &&
              forall name :: Decode(dec, t, data) == Text(name) <==> NameText(data) == Some(name)
    ensures Named(t, {"SOA"}) ==> Encode(enc, t, text) == SoaBytes(text) && Decode(dec, t, data) == SoaText(data)
    ensures Named(t, {"MX"}) ==> Encode(enc, t, text) == MxBytes(text) && Decode(dec, t, data) == MxText(data)
    ensures Named(t, {"TXT"}) ==> Encode(enc, t, text) == TxtBytes(text) && Decode(dec, t, data) == TxtText(data)
    ensures Named(t, {"SRV"}) ==> Encode(enc, t, text) == SrvBytes(text) && Decode(dec, t, data) == SrvText(data)
    ensures Named(t, {"CAA"}) ==> Encode(enc, t, text) == CaaBytes(text) && Decode(dec, t, data) == CaaText(data)
    ensures Named(t, {"A", "AAAA"}) ==> Encode(enc, t, text) == enc(t, text) && Decode(dec, t, data) == dec(t, data)
    ensures Named(t, {"NAPTR", "OPT", "DS", "RRSIG", "NSEC", "DNSKEY", "TLSA", "SVCB", "HTTPS"}) ==>
              Encode(enc, t, text) == None && Decode(dec, t, data) == Invalid
    ensures !ValidType(t) || Named(t, {"ANY"}) ==>
              Encode(enc, t, text) == Some(text) && Decode(dec, t, data) == Text(data)
  {
    hide NameBytes, NameText, SoaBytes, SoaText, MxBytes, MxText;
    hide TxtBytes, TxtText, SrvBytes, SrvText, CaaBytes, CaaText;
  }

  function Decoder(addresses: RdataDecoder): RdataDecoder {
    (t: RRType, data: seq<byte>) => Decode(addresses, t, data)
  }

  /** Which accepted texts are sure to be decoded again, and nothing panics. */
  predicate Legible(t: RRType, text: Str) {
    var parts := Fields(text);
    match t
    case 6 => |parts| >= 2 && !IsRoot(parts[0]) && !IsRoot(parts[1])
    case 257 => |parts| >= 2 && |parts[1]| <= 253
    case _ => true
  }

  /** Which accepted texts decode to a text that stands for the same bytes. */
  predicate Stable(t: RRType, text: Str) {
    var parts := Fields(text);
    match t
    case 2 | 5 | 12 => Trimmed(Dotted(text), SPACES)
    case 15 => |parts| == 2 && !IsRoot(parts[1])
    case 33 => |parts| == 4 && !IsRoot(parts[3])
    case _ => Legible(t, text)
  }

  /** What an accepted text has at least. */
  lemma Accepted(enc: RdataEncoder, t: RRType, text: Str)
    requires Encode(enc, t, text).Some? && !IsAddress(t)
    ensures t == 6 ==> |Fields(text)| == 7
    ensures t == 15 ==> |Fields(text)| == 2
    ensures t == 33 ==> |Fields(text)| == 4
    ensures t == 257 ==> |Fields(text)| >= 3
    ensures text != [] ==> Encode(enc, t, text).value != []
  {
    hide Fields, Atoi, ParseAll, Segments;
  }

  lemma LegibleIsDecoded(enc: RdataEncoder, dec: RdataDecoder, t: RRType, text: Str)
    requires Encode(enc, t, text).Some? && !IsAddress(t) && Legible(t, text)
    ensures Decode(dec, t, Encode(enc, t, text).value).Text?
  {
    Accepted(enc, t, text);
    hide NameBytes, NameText, SoaBytes, SoaText, MxBytes, MxText;
    hide TxtBytes, TxtText, SrvBytes, SrvText, CaaBytes, CaaText, Fields;
    match t
    case 2 | 5 | 12 => NameRoundTrip(text);
    case 6 => SoaRoundTrip(text);
    case 15 => MxRoundTrip(text);
    case 16 => TxtRoundTrip(text);
    case 33 => SrvRoundTrip(text);
    case 257 => CaaRoundTrip(text);
    case _ =>
  }

  /**
    For every type but the addresses, an accepted text decodes to one that encodes to the same bytes exactly under
    the condition of its type: no space at an end of a name's labels, no root for the names of SOA, MX and SRV, and at
    most 253 bytes of tag for CAA.
   */
  lemma ReencodesExactly(enc: RdataEncoder, dec: RdataDecoder, t: RRType, text: Str)
    requires Encode(enc, t, text).Some? && !IsAddress(t)
    ensures var w := Encode(enc, t, text).value;
            Decode(dec, t, w).Text? && Encode(enc, t, Decode(dec, t, w).text) == Some(w) <==> Stable(t, text)
  {
    Accepted(enc, t, text);
    hide NameBytes, NameText, SoaBytes, SoaText, MxBytes, MxText;
    hide TxtBytes, TxtText, SrvBytes, SrvText, CaaBytes, CaaText, Fields;
    match t
    case 2 | 5 | 12 => NameRoundTrip(text);
    case 6 => SoaRoundTrip(text);
    case 15 => MxRoundTrip(text);
    case 16 => TxtRoundTrip(text);
    case 33 => SrvRoundTrip(text);
    case 257 => CaaRoundTrip(text);
    case _ =>
  }

  /** On which data a decoder panics: SOA data with a name it finds no end of, CAA data with a tag above 253 bytes. */
  lemma PanicsExactly(dec: RdataDecoder, t: RRType, data: seq<byte>)
    requires !IsAddress(t)
    ensures Decode(dec, t, data) == Panics <==>
            || (t == 257 && |data| >= 2 && data[1] >= 254)
            || (t == 6 && |data| >= 25 &&
                (RunsOut(data, 0) ||
                 (SecondName(data).Some? && (RunsOut(SecondName(data).value, 0) || SecondName(data).value == [0]))))
  {
    hide SoaText, CaaText, MxText, TxtText, SrvText, NameText, RunsOut, SecondName;
    OthersNeverPanic(data);
    if t == 6 {
      SoaPanicsExactly(data);
    } else if t == 257 {
      CaaPanicsExactly(data);
    }
  }

  lemma OthersNeverPanic(data: seq<byte>)
    ensures MxText(data) != Panics && TxtText(data) != Panics && SrvText(data) != Panics
  {
    hide NameText, ReadLabels, FormatDec, Join;
  }

  // ---------- Records made from text ----------

  /** A valid record with the data its text encodes to, legible to a receiver. */
  predicate FromText(enc: RdataEncoder, dec: RdataDecoder, rr: Record) {
    && rr.Valid() && Encode(enc, rr.rtype, rr.text) == Some(rr.data)
    && if IsAddress(rr.rtype) then dec(rr.rtype, rr.data).Text? && rr.data != [] else Legible(rr.rtype, rr.text)
  }

  predicate AllFromText(enc: RdataEncoder, dec: RdataDecoder, rrs: seq<Record>) {
    forall i | 0 <= i < |rrs| :: FromText(enc, dec, rrs[i])
  }

  lemma FromTextIsCarried(enc: RdataEncoder, dec: RdataDecoder, rr: Record)
    requires FromText(enc, dec, rr)
    ensures Carried(rr, Decoder(dec))
  {
    hide Decode, Encode, Legible;
    if IsAddress(rr.rtype) {
      AddressDecodes(dec, rr.rtype, rr.data);
    } else {
      LegibleIsDecoded(enc, dec, rr.rtype, rr.text);
      Accepted(enc, rr.rtype, rr.text);
    }
  }

  lemma AddressDecodes(dec: RdataDecoder, t: RRType, data: seq<byte>)
    requires IsAddress(t)
    ensures Decode(dec, t, data) == dec(t, data)
  {
  }

  lemma {:induction false} AllFromTextIsCarried(enc: RdataEncoder, dec: RdataDecoder, rrs: seq<Record>)
    requires AllFromText(enc, dec, rrs)
    ensures AllCarried(rrs, Decoder(dec))
  {
    hide FromText, Carried;
    if rrs != [] {
      FromTextIsCarried(enc, dec, rrs[0]);
      AllFromTextIsCarried(enc, dec, rrs[1..]);
    }
  }

  /** Encoding the text that was received gives the data that was sent. */
  predicate SameData(enc: RdataEncoder, sent: Record, got: Record) {
    Encode(enc, sent.rtype, got.text) == Some(sent.data)
  }

  /**
    From text to text.  A response of records made from text, whose owners come back, is decoded to the same records
    in order; and the text of each, unless it is an address, stands for the data that was sent exactly if the text it
    was made from is stable.
   */
  lemma TextsSurvive(r: Response, now: Time, arrival: Time, enc: RdataEncoder, dec: RdataDecoder)
    requires Encodable(r) && NamesWritable(r)
    requires AllFromText(enc, dec, r.answers) && NamesSurvive(r.answers, FirstOwner(r.answers), r.question.name)
    ensures ResponseBytes(r, now).Ok?
    ensures var out := ResponseOf(ResponseBytes(r, now).value, r.id, arrival, Decoder(dec));
            && out.Value? && out.value == Response(r.id, 0, NO_QUESTION, out.value.answers, [], [])
            && SameAnswers(r.answers, out.value.answers, now, arrival, Decoder(dec))
            && forall i | 0 <= i < |r.answers| && !IsAddress(r.answers[i].rtype) ::
                 SameData(enc, r.answers[i], out.value.answers[i]) <==> Stable(r.answers[i].rtype, r.answers[i].text)
  {
    hide *;
    AllFromTextIsCarried(enc, dec, r.answers);
    ResponseRoundTrip(r, now, arrival, Decoder(dec));
    var got := ResponseOf(ResponseBytes(r, now).value, r.id, arrival, Decoder(dec)).value.answers;
    SameCount(r.answers, got, now, arrival, Decoder(dec));
    forall i | 0 <= i < |r.answers| && !IsAddress(r.answers[i].rtype)
      ensures SameData(enc, r.answers[i], got[i]) <==> Stable(r.answers[i].rtype, r.answers[i].text)
    {
      TextSurvives(r.answers, got, i, now, arrival, enc, dec);
    }
  }

  lemma SameCount(sent: seq<Record>, got: seq<Record>, now: Time, arrival: Time, rdata: RdataDecoder)
    requires SameAnswers(sent, got, now, arrival, rdata)
    ensures |sent| == |got|
  {
  }

  lemma TextSurvives(sent: seq<Record>, got: seq<Record>, i: nat, now: Time, arrival: Time,
                     enc: RdataEncoder, dec: RdataDecoder)
    requires i < |sent| == |got| && AllFromText(enc, dec, sent) && !IsAddress(sent[i].rtype)
    requires SameAnswers(sent, got, now, arrival, Decoder(dec))
    ensures SameData(enc, sent[i], got[i]) <==> Stable(sent[i].rtype, sent[i].text)
  {
    hide Decode, Encode, Stable, Legible;
    assert FromText(enc, dec, sent[i]) && SameRecord(sent[i], got[i], now, arrival, Decoder(dec));
    ReencodesExactly(enc, dec, sent[i].rtype, sent[i].text);
  }
}
