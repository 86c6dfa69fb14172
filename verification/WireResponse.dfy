/** Response messages (`EncodeResponse`, `DecodeResponse`, `parseResourceRecord`; section 4.1 of RFC 1035). */
module WireResponse {
  import opened Wrappers
  import opened Strings
  import opened Numbers
  import opened Names
  import opened Labels
  import opened WireNames
  import opened Domain
  import opened WireQuery

  datatype Response = Response(
    id: uint16, rcode: nat, question: Question,
    answers: seq<Record>, authority: seq<Record>, additional: seq<Record>)

  const NO_QUESTION := Question(0, [], 0, 0)

  /** `rrdata.Decode`. */
  type RdataDecoder = (RRType, seq<byte>) -> Decoding

  // ---------- Encoding ----------

  /** The labels `encodeDomainName` of the wire codec writes: it keeps empty ones. */
  function OwnerLabels(name: Str): seq<Str> {
    if name == [] then [] else Split(name, DOTS)
  }

  function OwnerBytes(name: Str): Result<seq<byte>, WireError> {
    if Short(OwnerLabels(name)) then Ok(WireName(OwnerLabels(name))) else Err(LabelTooLong)
  }

  method EncodeOwner(name: Str) returns (r: Result<seq<byte>, WireError>)
    ensures r == OwnerBytes(name)
  {
    if name == [] {
      assert WireName([]) == [0];
      return Ok([0]);
    }
    var buf: seq<byte> := [];
    var labels := Split(name, DOTS);
    for i := 0 to |labels|
      invariant Short(labels[..i]) && buf == LabelBytes(labels[..i])
    {
      if |labels[i]| > MAX_LABEL {
        return Err(LabelTooLong);
      }
      LabelBytesSnoc(labels[..i], labels[i]);
      assert labels[..i] + [labels[i]] == labels[..i + 1];
      buf := buf + [|labels[i]|];
      buf := buf + labels[i];
    }
    assert labels[..|labels|] == labels;
    r := Ok(buf + [0]);
  }

  /** A pointer to the question's name, just after the header. */
  const QNAME_POINTER: seq<byte> := [0xC0, HEADER_SIZE]

  function OwnerField(name: Str, first: Str): Result<seq<byte>, WireError> {
    if name == first then Ok(QNAME_POINTER) else OwnerBytes(name)
  }

  /** The size of a record's fields between owner and data. */
  const FIXED_SIZE := 10

  /** Type, class, TTL, data length and data. */
  function RecordTail(t: uint16, c: uint16, ttl: uint32, data: seq<byte>): (r: seq<byte>)
    requires |data| <= 65535
    ensures |r| == FIXED_SIZE + |data|
  {
    U16(t) + U16(c) + U32(ttl) + U16(|data|) + data
  }

  function RecordBytes(rr: Record, first: Str, now: Time): Result<seq<byte>, WireError> {
    match OwnerField(rr.name, first)
    case Err(e) => Err(e)
    case Ok(owner) =>
      if |rr.data| > 65535 then Err(RdataTooLarge)
      else Ok(owner + RecordTail(rr.rtype, rr.rclass, rr.WireTTL(now), rr.data))
  }

  function AnswerBytes(answers: seq<Record>, first: Str, now: Time): Result<seq<byte>, WireError> {
    if answers == [] then Ok([])
    else match RecordBytes(answers[0], first, now)
      case Err(e) => Err(e)
      case Ok(head) =>
        match AnswerBytes(answers[1..], first, now)
        case Err(e) => Err(e)
        case Ok(tail) => Ok(head + tail)
  }

  /** The owner name of the first answer, which the encoder takes to be the question's. */
  function FirstOwner(answers: seq<Record>): Str {
    if answers == [] then [] else answers[0].name
  }

  function ResponseBytes(r: Response, now: Time): Result<seq<byte>, WireError> {
    if |r.answers| > 65535 then Err(TooManyAnswers)
    else match OwnerBytes(r.question.name)
      case Err(e) => Err(e)
      case Ok(qname) =>
        match AnswerBytes(r.answers, FirstOwner(r.answers), now)
        case Err(e) => Err(e)
        case Ok(answers) =>
          Ok(Header(r.id, 0x8180, 1, |r.answers|) + (qname + U16(r.question.qtype) + U16(r.question.qclass)) + answers)
  }

  function After(written: seq<byte>, rest: Result<seq<byte>, WireError>): Result<seq<byte>, WireError> {
    match rest
    case Err(e) => Err(e)
    case Ok(more) => Ok(written + more)
  }

  lemma AfterAfter(a: seq<byte>, b: seq<byte>, rest: Result<seq<byte>, WireError>)
    ensures After(a, After(b, rest)) == After(a + b, rest)
    ensures After([], rest) == rest
  {
    if rest.Ok? {
      assert a + (b + rest.value) == a + b + rest.value;
      assert [] + rest.value == rest.value;
    }
  }

  method EncodeResponse(r: Response, now: Time) returns (out: Result<seq<byte>, WireError>)
    ensures out == ResponseBytes(r, now)
  {
    var buf := U16(r.id);
    buf := buf + U16(0x8180);
    buf := buf + U16(1);
    var answerCount := |r.answers|;
    if answerCount > 65535 {
      return Err(TooManyAnswers);
    }
    buf := buf + U16(answerCount);
    buf := buf + U16(0);
    buf := buf + U16(0);
    var qname := EncodeOwner(r.question.name);
    if qname.Err? {
      return Err(qname.error);
    }
    ghost var header := buf;
    buf := buf + qname.value;
    buf := buf + U16(r.question.qtype);
    buf := buf + U16(r.question.qclass);
    ghost var question := qname.value + U16(r.question.qtype) + U16(r.question.qclass);
    assert buf == header + question;

    var answers := EncodeAnswers(r.answers, now);
    if answers.Err? {
      return Err(answers.error);
    }
    out := Ok(buf + answers.value);
  }

  /** The answer loop. */
  method EncodeAnswers(answers: seq<Record>, now: Time) returns (out: Result<seq<byte>, WireError>)
    ensures out == AnswerBytes(answers, FirstOwner(answers), now)
  {
    hide RecordBytes;
    var buf: seq<byte> := [];
    ghost var first := FirstOwner(answers);
    AfterAfter([], [], AnswerBytes(answers, first, now));
    for i := 0 to |answers|
      invariant AnswerBytes(answers, first, now) == After(buf, AnswerBytes(answers[i..], first, now))
    {
      assert answers[i..][0] == answers[i] && answers[i..][1..] == answers[i + 1..];
      var record := EncodeRecord(answers[i], answers[0].name, now);
      if record.Err? {
        return Err(record.error);
      }
      AfterAfter(buf, record.value, AnswerBytes(answers[i + 1..], first, now));
      buf := buf + record.value;
    }
    assert buf + [] == buf;
    out := Ok(buf);
  }

  /** The body of the answer loop. */
  method EncodeRecord(rr: Record, first: Str, now: Time) returns (r: Result<seq<byte>, WireError>)
    ensures r == RecordBytes(rr, first, now)
  {
    var owner: seq<byte>;
    if rr.name == first {
      owner := [0xC0, HEADER_SIZE];
    } else {
      var name := EncodeOwner(rr.name);
      if name.Err? {
        return Err(name.error);
      }
      owner := name.value;
    }
    if |rr.data| > 65535 {
      return Err(RdataTooLarge);
    }
    var tail := EncodeTail(rr, now);
    r := Ok(owner + tail);
  }

  method EncodeTail(rr: Record, now: Time) returns (tail: seq<byte>)
    requires |rr.data| <= 65535
    ensures tail == RecordTail(rr.rtype, rr.rclass, rr.WireTTL(now), rr.data)
  {
    tail := U16(rr.rtype);
    tail := tail + U16(rr.rclass);
    tail := tail + U32(rr.WireTTL(now));
    tail := tail + U16(|rr.data|);
    tail := tail + rr.data;
  }

  // ---------- Decoding ----------

  /** The end of a question's name, skipped without following pointers. */
  function SkipName(data: seq<byte>, offset: nat): Option<nat>
    decreases |data| - offset
  {
    if offset >= |data| then None
    else if data[offset] == 0 then Some(offset + 1)
    else SkipName(data, offset + 1 + data[offset])
  }

  function SkipQuestions(data: seq<byte>, offset: nat, count: nat): Option<nat>
    decreases count
  {
    if count == 0 then Some(offset)
    else match SkipName(data, offset)
      case None => None
      case Some(end) => SkipQuestions(data, end + 4, count - 1)
  }

  function RecordAt(data: seq<byte>, offset: nat, now: Time, rdata: RdataDecoder): Outcome<(Record, nat)> {
    if offset + FIXED_SIZE > |data| then Error(TruncatedRecord)
    else match NameAt(data, offset)
      case Endless => Overflows
      case Malformed => Error(BadName)
      case Decoded(name, at) =>
        if at + FIXED_SIZE > |data| then Error(TruncatedRecord)
        else
          var t, c, ttl := GetU16(data, at), GetU16(data, at + 2), GetU32(data, at + 4);
          var start := at + FIXED_SIZE;
          var end := start + GetU16(data, at + 8);
          if end > |data| then Error(TruncatedRdata)
          else match rdata(t, data[start..end])
            case Panics => Crashes
            case Invalid => Error(BadRdata)
            case Text(text) =>
              match NewCachedRecord(name, t, c, ttl, data[start..end], text, now)
              case None => Error(BadRecord)
              case Some(rr) => Value((rr, end))
  }

  method ParseResourceRecord(data: seq<byte>, start: nat, now: Time, rdata: RdataDecoder)
    returns (r: Outcome<(Record, nat)>)
    requires !RecordAt(data, start, now, rdata).Overflows?
    ensures r == RecordAt(data, start, now, rdata)
  {
    hide NameWithin, NewCachedRecord, GetU16, GetU32;
    if start + 10 > |data| {
      return Error(TruncatedRecord);
    }
    var name := DecodeName(data, start);
    if name.Malformed? {
      return Error(BadName);
    }
    var offset := name.end;
    if offset + 10 > |data| {
      return Error(TruncatedRecord);
    }
    var typ := GetU16(data, offset);
    offset := offset + 2;
    var rrClass := GetU16(data, offset);
    offset := offset + 2;
    var ttl := GetU32(data, offset);
    offset := offset + 4;
    var rdLen := GetU16(data, offset);
    offset := offset + 2;
    if offset + rdLen > |data| {
      return Error(TruncatedRdata);
    }
    var bytes := data[offset..offset + rdLen];
    offset := offset + rdLen;
    var text := rdata(typ, bytes);
    if text.Panics? {
      return Crashes;
    }
    if text.Invalid? {
      return Error(BadRdata);
    }
    var rr := NewCachedRecord(name.text, typ, rrClass, ttl, bytes, text.text, now);
    if rr.None? {
      return Error(BadRecord);
    }
    r := Value((rr.value, offset));
  }

  function SectionAt(data: seq<byte>, offset: nat, count: nat, now: Time, rdata: RdataDecoder):
    Outcome<(seq<Record>, nat)>
    decreases count
  {
    if count == 0 then Value(([], offset))
    else match RecordAt(data, offset, now, rdata)
      case Overflows => Overflows
      case Crashes => Crashes
      case Error(e) => Error(e)
      case Value((rr, next)) => Following([rr], SectionAt(data, next, count - 1, now, rdata))
  }

  function Following(records: seq<Record>, rest: Outcome<(seq<Record>, nat)>): Outcome<(seq<Record>, nat)> {
    match rest
    case Value((more, end)) => Value((records + more, end))
    case failure => failure
  }

  lemma FollowingMore(a: seq<Record>, b: seq<Record>, rest: Outcome<(seq<Record>, nat)>)
    ensures Following(a, Following(b, rest)) == Following(a + b, rest)
    ensures Following([], rest) == rest
  {
    if rest.Value? {
      assert a + (b + rest.value.0) == a + b + rest.value.0;
      assert [] + rest.value.0 == rest.value.0;
    }
  }

  /** One of the decoder's three record loops. */
  method ParseSection(data: seq<byte>, start: nat, count: nat, now: Time, rdata: RdataDecoder)
    returns (r: Outcome<(seq<Record>, nat)>)
    requires !SectionAt(data, start, count, now, rdata).Overflows?
    ensures r == SectionAt(data, start, count, now, rdata)
  {
    var records: seq<Record> := [];
    var offset := start;
    FollowingMore([], [], SectionAt(data, start, count, now, rdata));
    for i := 0 to count
      invariant SectionAt(data, start, count, now, rdata) ==
                Following(records, SectionAt(data, offset, count - i, now, rdata))
    {
      var rr := ParseResourceRecord(data, offset, now, rdata);
      if rr.Error? {
        return Error(rr.error);
      }
      if rr.Crashes? {
        return Crashes;
      }
      FollowingMore(records, [rr.value.0], SectionAt(data, rr.value.1, count - i - 1, now, rdata));
      records := records + [rr.value.0];
      offset := rr.value.1;
    }
    assert records + [] == records;
    r := Value((records, offset));
  }

  function SectionsAt(data: seq<byte>, offset: nat, now: Time, rdata: RdataDecoder):
    Outcome<(seq<Record>, seq<Record>, seq<Record>)>
    requires |data| >= HEADER_SIZE
  {
    match SectionAt(data, offset, GetU16(data, 6), now, rdata)
    case Overflows => Overflows
    case Crashes => Crashes
    case Error(e) => Error(e)
    case Value((answers, next)) =>
      match SectionAt(data, next, GetU16(data, 8), now, rdata)
      case Overflows => Overflows
      case Crashes => Crashes
      case Error(e) => Error(e)
      case Value((authority, last)) =>
        match SectionAt(data, last, GetU16(data, 10), now, rdata)
        case Overflows => Overflows
        case Crashes => Crashes
        case Error(e) => Error(e)
        case Value((additional, _)) => Value((answers, authority, additional))
  }

  function ResponseOf(data: seq<byte>, expectedID: uint16, now: Time, rdata: RdataDecoder): Outcome<Response> {
    if |data| < HEADER_SIZE then Error(TooShort)
    else if GetU16(data, 0) != expectedID then Error(IdMismatch)
    else match SkipQuestions(data, HEADER_SIZE, GetU16(data, 4))
      case None => Error(TruncatedQuestion)
      case Some(offset) =>
        match SectionsAt(data, offset, now, rdata)
        case Overflows => Overflows
        case Crashes => Crashes
        case Error(e) => Error(e)
        case Value((answers, authority, additional)) =>
          Value(Response(GetU16(data, 0), GetU16(data, 2) % 16, NO_QUESTION, answers, authority, additional))
  }

  method DecodeResponse(data: seq<byte>, expectedID: uint16, now: Time, rdata: RdataDecoder)
    returns (r: Outcome<Response>)
    requires !ResponseOf(data, expectedID, now, rdata).Overflows?
    ensures r == ResponseOf(data, expectedID, now, rdata)
  {
    if |data| < HEADER_SIZE {
      return Error(TooShort);
    }
    var id := GetU16(data, 0);
    if id != expectedID {
      return Error(IdMismatch);
    }
    var flags := GetU16(data, 2);
    var rcode := flags % 16;
    var qdCount, anCount, nsCount, arCount := GetU16(data, 4), GetU16(data, 6), GetU16(data, 8), GetU16(data, 10);

    var offset := HEADER_SIZE;
    for i := 0 to qdCount
      invariant 0 <= offset
      invariant SkipQuestions(data, HEADER_SIZE, qdCount) == SkipQuestions(data, offset, qdCount - i)
    {
      ghost var start := offset;
      while true
        invariant 0 <= offset
        invariant SkipName(data, start) == SkipName(data, offset)
        decreases |data| - offset
      {
        if offset >= |data| {
          return Error(TruncatedQuestion);
        }
        var l := data[offset];
        offset := offset + 1;
        if l == 0 {
          break;
        }
        offset := offset + l;
      }
      offset := offset + 4;
    }

    var answers := ParseSection(data, offset, anCount, now, rdata);
    if answers.Error? {
      return Error(answers.error);
    }
    if answers.Crashes? {
      return Crashes;
    }
    var authority := ParseSection(data, answers.value.1, nsCount, now, rdata);
    if authority.Error? {
      return Error(authority.error);
    }
    if authority.Crashes? {
      return Crashes;
    }
    var additional := ParseSection(data, authority.value.1, arCount, now, rdata);
    if additional.Error? {
      return Error(additional.error);
    }
    if additional.Crashes? {
      return Crashes;
    }
    r := Value(Response(id, rcode, NO_QUESTION, answers.value.0, authority.value.0, additional.value.0));
  }

  /** Where the record after the next `k` ones begins, if the loops get that far. */
  function RecordStart(data: seq<byte>, offset: nat, k: nat, now: Time, rdata: RdataDecoder): Option<nat>
    decreases k
  {
    if k == 0 then Some(offset)
    else match RecordAt(data, offset, now, rdata)
      case Value((_, next)) => RecordStart(data, next, k - 1, now, rdata)
      case _ => None
  }

  // ---------- When the decoder fails ----------

  /** The same failure, whatever the values would have been. */
  predicate FailsAs<S, T>(a: Outcome<S>, b: Outcome<T>) {
    match a
    case Value(_) => false
    case Error(e) => b.Error? && b.error == e
    case Overflows => b.Overflows?
    case Crashes => b.Crashes?
  }

  /** One of this many records from here on, the first that is no record, fails so. */
  ghost predicate FailsWithin(data: seq<byte>, offset: nat, count: nat, f: Outcome<()>, now: Time,
                              rdata: RdataDecoder)
  {
    exists k: nat :: k < count && RecordStart(data, offset, k, now, rdata).Some? &&
                     FailsAs(RecordAt(data, RecordStart(data, offset, k, now, rdata).value, now, rdata), f)
  }

  lemma {:induction false} RecordStartSplit(data: seq<byte>, offset: nat, a: nat, b: nat, now: Time,
                                            rdata: RdataDecoder)
    ensures RecordStart(data, offset, a + b, now, rdata) ==
            match RecordStart(data, offset, a, now, rdata)
            case None => None
            case Some(there) => RecordStart(data, there, b, now, rdata)
    decreases a
  {
    hide RecordAt;
    if a > 0 {
      match RecordAt(data, offset, now, rdata)
      case Value((_, next)) => RecordStartSplit(data, next, a - 1, b, now, rdata);
      case _ =>
    }
  }

  /** Some record of a section fails so exactly if one of its first part or, if that is passed, of its rest does. */
  lemma FailsSplit(data: seq<byte>, offset: nat, a: nat, b: nat, f: Outcome<()>, now: Time, rdata: RdataDecoder)
    ensures FailsWithin(data, offset, a + b, f, now, rdata) <==>
            || FailsWithin(data, offset, a, f, now, rdata)
            || (RecordStart(data, offset, a, now, rdata).Some? &&
                FailsWithin(data, RecordStart(data, offset, a, now, rdata).value, b, f, now, rdata))
  {
    hide RecordStart, RecordAt, FailsAs;
    if FailsWithin(data, offset, a + b, f, now, rdata) {
      var k: nat :| k < a + b && RecordStart(data, offset, k, now, rdata).Some? &&
                    FailsAs(RecordAt(data, RecordStart(data, offset, k, now, rdata).value, now, rdata), f);
      if k >= a {
        RecordStartSplit(data, offset, a, k - a, now, rdata);
      }
    }
    if RecordStart(data, offset, a, now, rdata).Some? {
      var there := RecordStart(data, offset, a, now, rdata).value;
      if j: nat :| j < b && RecordStart(data, there, j, now, rdata).Some? &&
                   FailsAs(RecordAt(data, RecordStart(data, there, j, now, rdata).value, now, rdata), f) {
        RecordStartSplit(data, offset, a, j, now, rdata);
        assert a + j < a + b;
      }
    }
  }

  lemma FailsFirst(data: seq<byte>, offset: nat, f: Outcome<()>, now: Time, rdata: RdataDecoder)
    ensures FailsWithin(data, offset, 1, f, now, rdata) <==> FailsAs(RecordAt(data, offset, now, rdata), f)
    ensures RecordStart(data, offset, 1, now, rdata) ==
            match RecordAt(data, offset, now, rdata) case Value((_, next)) => Some(next) case _ => None
  {
    hide RecordAt, FailsAs;
    assert RecordStart(data, offset, 0, now, rdata) == Some(offset);
    match RecordAt(data, offset, now, rdata)
    case Value((_, next)) => assert RecordStart(data, next, 0, now, rdata) == Some(next);
    case _ =>
  }

  lemma {:induction false} SectionFailsExactly(data: seq<byte>, offset: nat, count: nat, f: Outcome<()>, now: Time,
                                               rdata: RdataDecoder)
    ensures FailsAs(SectionAt(data, offset, count, now, rdata), f) <==>
            FailsWithin(data, offset, count, f, now, rdata)
    ensures RecordStart(data, offset, count, now, rdata) ==
            match SectionAt(data, offset, count, now, rdata) case Value((_, end)) => Some(end) case _ => None
    decreases count
  {
    hide RecordAt, FailsWithin;
    if count == 0 {
      NoneFails(data, offset, f, now, rdata);
    } else {
      FailsFirst(data, offset, f, now, rdata);
      FailsSplit(data, offset, 1, count - 1, f, now, rdata);
      match RecordAt(data, offset, now, rdata)
      case Value((_, next)) => SectionFailsExactly(data, next, count - 1, f, now, rdata);
      case _ =>
    }
  }

  lemma NoneFails(data: seq<byte>, offset: nat, f: Outcome<()>, now: Time, rdata: RdataDecoder)
    ensures !FailsWithin(data, offset, 0, f, now, rdata)
  {
  }

  lemma SectionsFailExactly(data: seq<byte>, offset: nat, f: Outcome<()>, now: Time, rdata: RdataDecoder)
    requires |data| >= HEADER_SIZE
    ensures FailsAs(SectionsAt(data, offset, now, rdata), f) <==>
            FailsWithin(data, offset, GetU16(data, 6) + GetU16(data, 8) + GetU16(data, 10), f, now, rdata)
  {
    hide SectionAt, FailsWithin, RecordStart;
    var an: nat, ns: nat, ar: nat := GetU16(data, 6), GetU16(data, 8), GetU16(data, 10);
    var answers := SectionAt(data, offset, an, now, rdata);
    SectionFailsExactly(data, offset, an, f, now, rdata);
    FailsSplit(data, offset, an, ns + ar, f, now, rdata);
    if answers.Value? {
      var next := answers.value.1;
      var authority := SectionAt(data, next, ns, now, rdata);
      SectionFailsExactly(data, next, ns, f, now, rdata);
      FailsSplit(data, next, ns, ar, f, now, rdata);
      if authority.Value? {
        SectionFailsExactly(data, authority.value.1, ar, f, now, rdata);
      }
    }
    assert an + (ns + ar) == an + ns + ar;
  }

  /** Why decoding a response fails: the first of its checks that fails, or the first record of the three sections. */
  lemma ResponseFailsExactly(data: seq<byte>, expectedID: uint16, f: Outcome<()>, now: Time, rdata: RdataDecoder)
    ensures FailsAs(ResponseOf(data, expectedID, now, rdata), f) <==>
            if |data| < 12 then f == Error(TooShort)
            else if GetU16(data, 0) != expectedID then f == Error(IdMismatch)
            else
              var start := SkipQuestions(data, HEADER_SIZE, GetU16(data, 4));
              if start.None? then f == Error(TruncatedQuestion)
              else FailsWithin(data, start.value, GetU16(data, 6) + GetU16(data, 8) + GetU16(data, 10), f, now, rdata)
  {
    hide SectionsAt, SkipQuestions, FailsWithin;
    if |data| >= HEADER_SIZE && SkipQuestions(data, HEADER_SIZE, GetU16(data, 4)).Some? {
      SectionsFailExactly(data, SkipQuestions(data, HEADER_SIZE, GetU16(data, 4)).value, f, now, rdata);
    }
  }

  // ---------- When the decoder returns ----------

  /** A record is read from here whose name leads into a label run twice. */
  ghost predicate Circles(data: seq<byte>, offset: nat) {
    offset + FIXED_SIZE <= |data| && Revisits(data, offset)
  }

  /** One of this many records from here on, as far as the loops get, does so. */
  ghost predicate CirclesWithin(data: seq<byte>, offset: nat, count: nat, now: Time, rdata: RdataDecoder) {
    exists k: nat :: k < count && RecordStart(data, offset, k, now, rdata).Some? &&
                     Circles(data, RecordStart(data, offset, k, now, rdata).value)
  }

  lemma RecordOverflowsExactly(data: seq<byte>, offset: nat, now: Time, rdata: RdataDecoder)
    ensures FailsAs(RecordAt(data, offset, now, rdata), Outcome<()>.Overflows) <==> Circles(data, offset)
  {
    EndlessExactly(data, offset);
  }

  lemma OverflowIsCircle(data: seq<byte>, offset: nat, count: nat, now: Time, rdata: RdataDecoder)
    ensures FailsWithin(data, offset, count, Overflows, now, rdata) <==> CirclesWithin(data, offset, count, now, rdata)
  {
    hide RecordStart, RecordAt, Circles, FailsAs;
    forall o: nat ensures FailsAs(RecordAt(data, o, now, rdata), Outcome<()>.Overflows) <==> Circles(data, o) {
      RecordOverflowsExactly(data, o, now, rdata);
    }
  }

  /**
    A response makes the decoder exhaust the stack exactly if it gets past header and questions and the loops, over all
    three sections, come to a record whose name leads into a label run twice.
   */
  lemma ResponseOverflowsExactly(data: seq<byte>, expectedID: uint16, now: Time, rdata: RdataDecoder)
    ensures ResponseOf(data, expectedID, now, rdata).Overflows? <==>
            && |data| >= HEADER_SIZE && GetU16(data, 0) == expectedID
            && var start := SkipQuestions(data, HEADER_SIZE, GetU16(data, 4));
               start.Some? &&
               CirclesWithin(data, start.value, GetU16(data, 6) + GetU16(data, 8) + GetU16(data, 10), now, rdata)
  {
    hide ResponseOf, SkipQuestions, CirclesWithin, FailsWithin;
    ResponseFailsExactly(data, expectedID, Overflows, now, rdata);
    if |data| >= HEADER_SIZE && SkipQuestions(data, HEADER_SIZE, GetU16(data, 4)).Some? {
      var start := SkipQuestions(data, HEADER_SIZE, GetU16(data, 4)).value;
      OverflowIsCircle(data, start, GetU16(data, 6) + GetU16(data, 8) + GetU16(data, 10), now, rdata);
    }
  }

  /** Every record the loops get to has a name whose pointers target offsets below the start of their label run. */
  ghost predicate NamesPointBack(data: seq<byte>, now: Time, rdata: RdataDecoder)
    requires |data| >= HEADER_SIZE
  {
    var start := SkipQuestions(data, HEADER_SIZE, GetU16(data, 4));
    start.Some? ==>
      forall k: nat | RecordStart(data, start.value, k, now, rdata).Some? ::
        PointsBack(data, RecordStart(data, start.value, k, now, rdata).value)
  }

  /** So messages whose names point back, as far as they are read, are decoded in the end. */
  lemma PointingBackReturns(data: seq<byte>, expectedID: uint16, now: Time, rdata: RdataDecoder)
    requires |data| >= HEADER_SIZE
    ensures NamesPointBack(data, now, rdata) ==> !ResponseOf(data, expectedID, now, rdata).Overflows?
    ensures PointsBack(data, HEADER_SIZE) ==> !QueryOf(data).Overflows?
  {
    hide PointsBack, Revisits, ResponseOf, QueryOf, RecordStart;
    ResponseOverflowsExactly(data, expectedID, now, rdata);
    QueryOverflowsExactly(data);
    forall o: nat | PointsBack(data, o) ensures !Revisits(data, o) {
      PointsBackReturns(data, o);
      EndlessExactly(data, o);
    }
  }
}
