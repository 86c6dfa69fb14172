/**
  What a response message is, written down without the decoder: a header, questions, and three lists of records one
  behind the other (section 4.1 of RFC 1035).
 */
module WireLayout {
  import opened Wrappers
  import opened Strings
  import opened Numbers
  import opened Names
  import opened Labels
  import opened WireNames
  import opened Domain
  import opened WireQuery
  import opened WireResponse

  // ---------- Questions ----------

  /** Pieces with a length byte each, up to a zero byte; no byte of it means a pointer. */
  predicate PiecesLie(data: seq<byte>, at: nat, pieces: seq<Str>)
    decreases |pieces|
  {
    if pieces == [] then at < |data| && data[at] == 0
    else
      && 0 < |pieces[0]| < 256 && Has(data, at, [|pieces[0]|] + pieces[0])
      && PiecesLie(data, at + 1 + |pieces[0]|, pieces[1..])
  }

  /** The size of such pieces. */
  function PiecesSize(pieces: seq<Str>): nat {
    if pieces == [] then 1 else 1 + |pieces[0]| + PiecesSize(pieces[1..])
  }

  /** Questions lie here, each its name in pieces and four bytes for type and class, which are not looked at. */
  predicate QuestionsLie(data: seq<byte>, at: nat, names: seq<seq<Str>>, end: nat)
    decreases |names|
  {
    if names == [] then end == at
    else PiecesLie(data, at, names[0]) && QuestionsLie(data, at + PiecesSize(names[0]) + 4, names[1..], end)
  }

  lemma {:induction false} PiecesAreSkipped(data: seq<byte>, at: nat, pieces: seq<Str>)
    requires PiecesLie(data, at, pieces)
    ensures SkipName(data, at) == Some(at + PiecesSize(pieces))
    decreases |pieces|
  {
    if pieces != [] {
      assert data[at] == data[at..at + 1 + |pieces[0]|][0];
      PiecesAreSkipped(data, at + 1 + |pieces[0]|, pieces[1..]);
    }
  }

  lemma {:induction false} SkippedPieces(data: seq<byte>, at: nat) returns (pieces: seq<Str>)
    requires SkipName(data, at).Some?
    ensures PiecesLie(data, at, pieces)
    decreases |data| - at
  {
    if data[at] == 0 {
      pieces := [];
    } else {
      var next := at + 1 + data[at];
      var rest := SkippedPieces(data, next);
      var piece := data[at + 1..next];
      assert data[at..next] == [|piece|] + piece;
      pieces := [piece] + rest;
      assert pieces[1..] == rest;
    }
  }

  lemma {:induction false} QuestionsAreSkipped(data: seq<byte>, at: nat, names: seq<seq<Str>>, end: nat)
    requires QuestionsLie(data, at, names, end)
    ensures SkipQuestions(data, at, |names|) == Some(end)
    decreases |names|
  {
    hide SkipName, PiecesLie;
    if names != [] {
      PiecesAreSkipped(data, at, names[0]);
      QuestionsAreSkipped(data, at + PiecesSize(names[0]) + 4, names[1..], end);
    }
  }

  lemma {:induction false} SkippedQuestions(data: seq<byte>, at: nat, count: nat) returns (names: seq<seq<Str>>)
    requires SkipQuestions(data, at, count).Some?
    ensures |names| == count && QuestionsLie(data, at, names, SkipQuestions(data, at, count).value)
    decreases count
  {
    hide SkipName, PiecesLie;
    names := [];
    if count > 0 {
      var pieces := SkippedPieces(data, at);
      PiecesAreSkipped(data, at, pieces);
      var rest := SkippedQuestions(data, at + PiecesSize(pieces) + 4, count - 1);
      names := [pieces] + rest;
      assert names[1..] == rest;
    }
  }

  // ---------- Records ----------

  /** The bytes after a record's owner. */
  function RecordFields(t: RRType, c: RRClass, ttl: uint32, data: seq<byte>): seq<byte>
    requires |data| < 0x1_0000
  {
    U16(t) + U16(c) + U32(ttl) + U16(|data|) + data
  }

  /** From `at` to `end` stands this record, its owner spelled in any way, received at `now`. */
  ghost predicate RecordLies(data: seq<byte>, at: nat, rr: Record, end: nat, now: Time, rdata: RdataDecoder) {
    && |rr.data| < 0x1_0000
    && rr.name != [] && ValidType(rr.rtype) && ValidClass(rr.rclass) && !(rr.text == [] && rr.data == [])
    && rr.expiresAt == Some(now + rr.ttl * 1_000_000_000) && rdata(rr.rtype, rr.data) == Text(rr.text)
    && exists e ::
         && Spells(data, at, e) && rr.name == Canonical(TextOf(e)) && end == EndOf(e, at) + 10 + |rr.data|
         && Has(data, EndOf(e, at), RecordFields(rr.rtype, rr.rclass, rr.ttl, rr.data))
  }

  /** One behind the other, beginning at these places. */
  ghost predicate RecordsLie(data: seq<byte>, starts: seq<nat>, rrs: seq<Record>, now: Time, rdata: RdataDecoder) {
    && |starts| == |rrs| + 1
    && forall i | 0 <= i < |rrs| :: RecordLies(data, starts[i], rrs[i], starts[i + 1], now, rdata)
  }

  lemma FieldsLie(data: seq<byte>, at: nat, t: RRType, c: RRClass, ttl: uint32, rd: seq<byte>)
    requires |rd| < 0x1_0000
    ensures Has(data, at, RecordFields(t, c, ttl, rd)) <==>
            && at + 10 + |rd| <= |data|
            && GetU16(data, at) == t && GetU16(data, at + 2) == c && GetU32(data, at + 4) == ttl
            && GetU16(data, at + 8) == |rd| && data[at + 10..at + 10 + |rd|] == rd
  {
    HasSplit(data, at, U16(t) + U16(c) + U32(ttl) + U16(|rd|), rd);
    HasSplit(data, at, U16(t) + U16(c) + U32(ttl), U16(|rd|));
    HasSplit(data, at, U16(t) + U16(c), U32(ttl));
    HasSplit(data, at, U16(t), U16(c));
    if at + 10 <= |data| {
      HasU16(data, at, t);
      HasU16(data, at + 2, c);
      HasU32(data, at + 4, ttl);
      HasU16(data, at + 8, |rd|);
    }
  }

  /** A record is decoded exactly where one lies. */
  lemma RecordDecodesExactly(data: seq<byte>, at: nat, rr: Record, end: nat, now: Time, rdata: RdataDecoder)
    ensures RecordAt(data, at, now, rdata) == Value((rr, end)) <==> RecordLies(data, at, rr, end, now, rdata)
  {
    hide Spells, NameWithin, U16, U32, GetU16, GetU32, Canonical, EndOf, TextOf;
    DecodesExactlySpelled(data, at);
    if RecordAt(data, at, now, rdata) == Value((rr, end)) {
      var e :| Spells(data, at, e);
      FieldsLie(data, EndOf(e, at), rr.rtype, rr.rclass, rr.ttl, rr.data);
    }
    if RecordLies(data, at, rr, end, now, rdata) {
      var e :|
        && Spells(data, at, e) && rr.name == Canonical(TextOf(e)) && end == EndOf(e, at) + 10 + |rr.data|
        && Has(data, EndOf(e, at), RecordFields(rr.rtype, rr.rclass, rr.ttl, rr.data));
      EndIsLater(e, at);
      FieldsLie(data, EndOf(e, at), rr.rtype, rr.rclass, rr.ttl, rr.data);
      Assemble(data, at, rr, EndOf(e, at), TextOf(e), now, rdata);
    }
  }

  lemma {:induction false} EndIsLater(e: Encoded, at: nat)
    ensures at < EndOf(e, at)
  {
    match e
    case Label(text, rest) => EndIsLater(rest, at + 1 + |text|);
    case _ =>
  }

  lemma Assemble(data: seq<byte>, at: nat, rr: Record, mid: nat, name: Str, now: Time, rdata: RdataDecoder)
    requires at <= mid && NameAt(data, at) == Decoded(name, mid) && mid + 10 + |rr.data| <= |data|
    requires GetU16(data, mid) == rr.rtype && GetU16(data, mid + 2) == rr.rclass && GetU32(data, mid + 4) == rr.ttl
    requires GetU16(data, mid + 8) == |rr.data| && data[mid + 10..mid + 10 + |rr.data|] == rr.data
    requires rr.name == Canonical(name) && rr.Valid() && rdata(rr.rtype, rr.data) == Text(rr.text)
    requires rr.expiresAt == Some(now + rr.ttl * 1_000_000_000)
    ensures RecordAt(data, at, now, rdata) == Value((rr, mid + 10 + |rr.data|))
  {
  }

  lemma {:induction false} RecordsAreDecoded(data: seq<byte>, starts: seq<nat>, rrs: seq<Record>, now: Time,
                                             rdata: RdataDecoder)
    requires RecordsLie(data, starts, rrs, now, rdata)
    ensures SectionAt(data, starts[0], |rrs|, now, rdata) == Value((rrs, starts[|rrs|]))
    decreases |rrs|
  {
    hide RecordLies, RecordAt;
    if rrs != [] {
      RecordDecodesExactly(data, starts[0], rrs[0], starts[1], now, rdata);
      RecordsAreDecoded(data, starts[1..], rrs[1..], now, rdata);
      assert [rrs[0]] + rrs[1..] == rrs;
    }
  }

  lemma {:induction false} DecodedRecords(data: seq<byte>, at: nat, count: nat, now: Time, rdata: RdataDecoder)
    returns (starts: seq<nat>)
    requires SectionAt(data, at, count, now, rdata).Value?
    ensures var (rrs, end) := SectionAt(data, at, count, now, rdata).value;
            && |rrs| == count && RecordsLie(data, starts, rrs, now, rdata)
            && starts[0] == at && starts[count] == end
    decreases count
  {
    hide RecordLies, RecordAt;
    starts := [at];
    if count > 0 {
      var (rr, next) := RecordAt(data, at, now, rdata).value;
      RecordDecodesExactly(data, at, rr, next, now, rdata);
      var rest := DecodedRecords(data, next, count - 1, now, rdata);
      starts := [at] + rest;
    }
  }

  // ---------- Responses ----------

  /**
    The message is this response: its ID, the low four bits of its flags for a code, its counts, and behind the header
    its questions, of which nothing is kept, and the records of the three sections.
   */
  ghost predicate IsResponse(data: seq<byte>, r: Response, names: seq<seq<Str>>, starts: seq<nat>, now: Time,
                             rdata: RdataDecoder)
  {
    && |data| >= 12 && r.id == GetU16(data, 0) && r.rcode == data[3] as int % 16 && r.question == NO_QUESTION
    && |names| == GetU16(data, 4)
    && |r.answers| == GetU16(data, 6) && |r.authority| == GetU16(data, 8) && |r.additional| == GetU16(data, 10)
    && RecordsLie(data, starts, r.answers + r.authority + r.additional, now, rdata)
    && QuestionsLie(data, 12, names, starts[0])
  }

  lemma SplitRecords(data: seq<byte>, starts: seq<nat>, a: seq<Record>, b: seq<Record>, now: Time,
                     rdata: RdataDecoder)
    requires RecordsLie(data, starts, a + b, now, rdata)
    ensures RecordsLie(data, starts[..|a| + 1], a, now, rdata) && RecordsLie(data, starts[|a|..], b, now, rdata)
  {
    hide RecordLies;
    var left, right := starts[..|a| + 1], starts[|a|..];
    forall i | 0 <= i < |a| ensures RecordLies(data, left[i], a[i], left[i + 1], now, rdata) {
      assert RecordLies(data, starts[i], (a + b)[i], starts[i + 1], now, rdata);
    }
    forall i | 0 <= i < |b| ensures RecordLies(data, right[i], b[i], right[i + 1], now, rdata) {
      assert RecordLies(data, starts[|a| + i], (a + b)[|a| + i], starts[|a| + i + 1], now, rdata);
    }
  }

  lemma JoinRecords(data: seq<byte>, left: seq<nat>, a: seq<Record>, right: seq<nat>, b: seq<Record>, now: Time,
                    rdata: RdataDecoder)
    requires RecordsLie(data, left, a, now, rdata) && RecordsLie(data, right, b, now, rdata)
    requires left[|a|] == right[0]
    ensures RecordsLie(data, left + right[1..], a + b, now, rdata)
  {
    hide RecordLies;
    var starts, rrs := left + right[1..], a + b;
    forall i | 0 <= i < |rrs| ensures RecordLies(data, starts[i], rrs[i], starts[i + 1], now, rdata) {
      if i < |a| {
        assert RecordLies(data, left[i], a[i], left[i + 1], now, rdata);
      } else {
        assert starts[i] == right[i - |a|] && starts[i + 1] == right[i - |a| + 1];
        assert RecordLies(data, right[i - |a|], b[i - |a|], right[i - |a| + 1], now, rdata);
      }
    }
  }

  lemma ResponseIsDecoded(data: seq<byte>, r: Response, names: seq<seq<Str>>, starts: seq<nat>, now: Time,
                          rdata: RdataDecoder)
    requires IsResponse(data, r, names, starts, now, rdata)
    ensures ResponseOf(data, r.id, now, rdata) == Value(r)
  {
    hide SectionAt, SkipQuestions, QuestionsLie, RecordsLie;
    var a, b, c := r.answers, r.authority, r.additional;
    Starts(data, starts, a + b + c, now, rdata);
    QuestionsAreSkipped(data, 12, names, starts[0]);
    SplitRecords(data, starts, a + b, c, now, rdata);
    var left := starts[..|a + b| + 1];
    SplitRecords(data, left, a, b, now, rdata);
    RecordsAreDecoded(data, left[..|a| + 1], a, now, rdata);
    RecordsAreDecoded(data, left[|a|..], b, now, rdata);
    RecordsAreDecoded(data, starts[|a + b|..], c, now, rdata);
    LowBits(data);
  }

  lemma Starts(data: seq<byte>, starts: seq<nat>, rrs: seq<Record>, now: Time, rdata: RdataDecoder)
    requires RecordsLie(data, starts, rrs, now, rdata)
    ensures |starts| == |rrs| + 1
  {
  }

  lemma LowBits(data: seq<byte>)
    requires |data| >= 4
    ensures GetU16(data, 2) % 16 == data[3] as int % 16
  {
    var high: int, low: int := data[2] as int, data[3] as int;
    assert (high * 256 + low) % 16 == low % 16;
  }

  lemma DecodedIsResponse(data: seq<byte>, id: uint16, now: Time, rdata: RdataDecoder)
    returns (names: seq<seq<Str>>, starts: seq<nat>)
    requires ResponseOf(data, id, now, rdata).Value?
    ensures IsResponse(data, ResponseOf(data, id, now, rdata).value, names, starts, now, rdata)
    ensures ResponseOf(data, id, now, rdata).value.id == id
  {
    hide SectionAt, SkipQuestions, QuestionsLie, RecordsLie;
    var at := SkipQuestions(data, HEADER_SIZE, GetU16(data, 4)).value;
    names := SkippedQuestions(data, HEADER_SIZE, GetU16(data, 4));
    var (a, next) := SectionAt(data, at, GetU16(data, 6), now, rdata).value;
    var (b, last) := SectionAt(data, next, GetU16(data, 8), now, rdata).value;
    var (c, end) := SectionAt(data, last, GetU16(data, 10), now, rdata).value;
    var first := DecodedRecords(data, at, GetU16(data, 6), now, rdata);
    var second := DecodedRecords(data, next, GetU16(data, 8), now, rdata);
    var third := DecodedRecords(data, last, GetU16(data, 10), now, rdata);
    Starts(data, first, a, now, rdata);
    Starts(data, second, b, now, rdata);
    Starts(data, third, c, now, rdata);
    JoinRecords(data, first, a, second, b, now, rdata);
    JoinRecords(data, first + second[1..], a + b, third, c, now, rdata);
    starts := first + second[1..] + third[1..];
    LowBits(data);
  }

  /** A response is decoded, to just this value, exactly if it has the expected ID and is laid out so. */
  lemma ResponseDecodesExactly(data: seq<byte>, id: uint16, r: Response, now: Time, rdata: RdataDecoder)
    ensures ResponseOf(data, id, now, rdata) == Value(r) <==>
            r.id == id && exists names, starts :: IsResponse(data, r, names, starts, now, rdata)
  {
    hide ResponseOf, IsResponse;
    if ResponseOf(data, id, now, rdata) == Value(r) {
      var names, starts := DecodedIsResponse(data, id, now, rdata);
      assert IsResponse(data, r, names, starts, now, rdata);
    }
    if r.id == id && exists names, starts :: IsResponse(data, r, names, starts, now, rdata) {
      var names, starts :| IsResponse(data, r, names, starts, now, rdata);
      ResponseIsDecoded(data, r, names, starts, now, rdata);
    }
  }

  // ---------- Failures ----------

  /** Behind a name that ends here, the fixed fields and the data they count do not fit, or do. */
  predicate DataFits(data: seq<byte>, at: nat) {
    at + 10 <= |data| && at + 10 + GetU16(data, at + 8) <= |data|
  }

  function DataThere(data: seq<byte>, at: nat): seq<byte>
    requires DataFits(data, at)
  {
    data[at + 10..at + 10 + GetU16(data, at + 8)]
  }

  /** Why a record is not decoded, if its name does not exhaust the stack: each failure, and exactly where it comes. */
  lemma RecordFailsExactly(data: seq<byte>, at: nat, now: Time, rdata: RdataDecoder)
    ensures RecordAt(data, at, now, rdata) == Error(BadName) <==>
            at + 10 <= |data| && !Revisits(data, at) && forall e :: !Spells(data, at, e)
    ensures RecordAt(data, at, now, rdata) == Error(TruncatedRecord) <==>
            at + 10 > |data| || exists e :: Spells(data, at, e) && EndOf(e, at) + 10 > |data|
    ensures forall e | Spells(data, at, e) && EndOf(e, at) + 10 <= |data| ::
              var end := EndOf(e, at);
              && (RecordAt(data, at, now, rdata) == Error(TruncatedRdata) <==> !DataFits(data, end))
              && (DataFits(data, end) ==>
                  var t, c := GetU16(data, end), GetU16(data, end + 2);
                  var text := rdata(t, DataThere(data, end));
                  && (RecordAt(data, at, now, rdata) == Crashes <==> text.Panics?)
                  && (RecordAt(data, at, now, rdata) == Error(BadRdata) <==> text.Invalid?)
                  && (RecordAt(data, at, now, rdata) == Error(BadRecord) <==>
                      && text.Text?
                      && (Canonical(TextOf(e)) == [] || !ValidType(t) || !ValidClass(c) ||
                          (text.text == [] && DataThere(data, end) == []))))
  {
    hide Spells, NameWithin, GetU16, GetU32, Canonical, EndOf, TextOf;
    EndlessExactly(data, at);
    DecodesExactlySpelled(data, at);
    forall e | Spells(data, at, e) ensures at < EndOf(e, at) {
      EndIsLater(e, at);
    }
  }
}
