/**
  What comes back when a response is encoded and decoded: the decoder's view of every part of an encoded message,
  and when it is the view the sender had.
 */
module WireRoundTrip {
  import opened Wrappers
  import opened Strings
  import opened Numbers
  import opened Names
  import opened Labels
  import opened WireNames
  import opened Domain
  import opened WireQuery
  import opened WireResponse

  /** A name the wire form keeps: no empty label (a trailing dot makes one). */
  predicate Writable(name: Str) {
    NoneEmpty(OwnerLabels(name))
  }

  lemma JoinOwnerLabels(name: Str)
    ensures Join(OwnerLabels(name), [DOT]) == name
  {
    JoinOfSplit(name, DOT, DOTS);
  }

  /** The owner a receiver reads: the question's name wherever the encoder wrote the pointer to it. */
  function OwnerRead(rr: Record, first: Str, qname: Str): Str {
    if rr.name == first then qname else rr.name
  }

  /** What a receiver makes, on `arrival`, of a record sent at `now`. */
  function ReadBack(rr: Record, owner: Str, now: Time, arrival: Time, rdata: RdataDecoder): Outcome<Record> {
    match rdata(rr.rtype, rr.data)
    case Panics => Crashes
    case Invalid => Error(BadRdata)
    case Text(text) =>
      match NewCachedRecord(owner, rr.rtype, rr.rclass, rr.WireTTL(now), rr.data, text, arrival)
      case None => Error(BadRecord)
      case Some(got) => Value(got)
  }

  function ReadBackAll(answers: seq<Record>, first: Str, qname: Str, now: Time, arrival: Time, rdata: RdataDecoder):
    Outcome<seq<Record>>
  {
    if answers == [] then Value([])
    else Prepended(ReadBack(answers[0], OwnerRead(answers[0], first, qname), now, arrival, rdata),
                   ReadBackAll(answers[1..], first, qname, now, arrival, rdata))
  }

  /** The first failure wins. */
  function Prepended(head: Outcome<Record>, tail: Outcome<seq<Record>>): Outcome<seq<Record>> {
    match head
    case Error(e) => Error(e)
    case Overflows => Overflows
    case Crashes => Crashes
    case Value(got) =>
      match tail
      case Value(rest) => Value([got] + rest)
      case failure => failure
  }

  /** A result together with the offset after it. */
  function Placed<T>(r: Outcome<T>, end: nat): Outcome<(T, nat)> {
    match r
    case Value(v) => Value((v, end))
    case Error(e) => Error(e)
    case Overflows => Overflows
    case Crashes => Crashes
  }

  lemma {:induction false} ReadBackReturns(answers: seq<Record>, first: Str, qname: Str, now: Time, arrival: Time,
                                           rdata: RdataDecoder)
    ensures !ReadBackAll(answers, first, qname, now, arrival, rdata).Overflows?
  {
    if answers != [] {
      ReadBackReturns(answers[1..], first, qname, now, arrival, rdata);
    }
  }

  lemma TailReadsBack(data: seq<byte>, at: nat, t: uint16, c: uint16, ttl: uint32, rd: seq<byte>)
    requires |rd| <= 65535 && Has(data, at, RecordTail(t, c, ttl, rd))
    ensures at + FIXED_SIZE + |rd| <= |data|
    ensures GetU16(data, at) == t && GetU16(data, at + 2) == c && GetU32(data, at + 4) == ttl
    ensures GetU16(data, at + 8) == |rd| && data[at + FIXED_SIZE..at + FIXED_SIZE + |rd|] == rd
  {
    var fixed := U16(t) + U16(c) + U32(ttl) + U16(|rd|);
    HasSplit(data, at, fixed, rd);
    HasSplit(data, at, U16(t) + U16(c) + U32(ttl), U16(|rd|));
    HasSplit(data, at, U16(t) + U16(c), U32(ttl));
    HasSplit(data, at, U16(t), U16(c));
    GetOfU16(data, at, t);
    GetOfU16(data, at + 2, c);
    GetOfU32(data, at + 4, ttl);
    GetOfU16(data, at + 8, |rd|);
  }

  /** The question's labels stand right after the header, for pointers to find. */
  ghost predicate HasQname(data: seq<byte>, qname: Str) {
    Spells(data, HEADER_SIZE, Plain(OwnerLabels(qname)))
  }

  lemma OwnerReadsBack(data: seq<byte>, at: nat, rr: Record, first: Str, qname: Str)
    requires OwnerField(rr.name, first).Ok? && Has(data, at, OwnerField(rr.name, first).value)
    requires rr.name == first ==> Writable(qname) && Short(OwnerLabels(qname)) && HasQname(data, qname)
    requires rr.name != first ==> Writable(rr.name)
    ensures NameAt(data, at) == Decoded(OwnerRead(rr, first, qname), at + |OwnerField(rr.name, first).value|)
  {
    if rr.name == first {
      assert data[at] == data[at..at + 2][0] && data[at + 1] == data[at..at + 2][1];
      var e := Pointer(HEADER_SIZE, Plain(OwnerLabels(qname)));
      assert Spells(data, at, e);
      DecodesExactlySpelled(data, at);
      PlainText(OwnerLabels(qname));
      JoinOwnerLabels(qname);
    } else {
      NameReadsBack(data, at, OwnerLabels(rr.name));
      JoinOwnerLabels(rr.name);
    }
  }

  lemma RecordReadsBack(data: seq<byte>, at: nat, rr: Record, first: Str, qname: Str, now: Time, arrival: Time,
                        rdata: RdataDecoder)
    requires RecordBytes(rr, first, now).Ok? && Has(data, at, RecordBytes(rr, first, now).value)
    requires rr.name == first ==> Writable(qname) && Short(OwnerLabels(qname)) && HasQname(data, qname)
    requires rr.name != first ==> Writable(rr.name)
    ensures RecordAt(data, at, arrival, rdata) ==
            Placed(ReadBack(rr, OwnerRead(rr, first, qname), now, arrival, rdata),
                   at + |RecordBytes(rr, first, now).value|)
  {
    hide *;
    RecordParts(rr, first, now);
    var owner := OwnerField(rr.name, first).value;
    var tail := RecordTail(rr.rtype, rr.rclass, rr.WireTTL(now), rr.data);
    HasSplit(data, at, owner, tail);
    OwnerReadsBack(data, at, rr, first, qname);
    TailReadsBack(data, at + |owner|, rr.rtype, rr.rclass, rr.WireTTL(now), rr.data);
    RecordFromFields(data, at, at + |owner|, rr, OwnerRead(rr, first, qname), now, arrival, rdata);
  }

  lemma RecordParts(rr: Record, first: Str, now: Time)
    requires RecordBytes(rr, first, now).Ok?
    ensures OwnerField(rr.name, first).Ok? && |rr.data| <= 65535
    ensures var tail := RecordTail(rr.rtype, rr.rclass, rr.WireTTL(now), rr.data);
            RecordBytes(rr, first, now).value == OwnerField(rr.name, first).value + tail
  {
  }

  /** A record is read from its owner and its fixed fields. */
  lemma RecordFromFields(data: seq<byte>, at: nat, mid: nat, rr: Record, owner: Str, now: Time, arrival: Time,
                         rdata: RdataDecoder)
    requires at <= mid && mid + FIXED_SIZE + |rr.data| <= |data|
    requires NameAt(data, at) == Decoded(owner, mid)
    requires GetU16(data, mid) == rr.rtype && GetU16(data, mid + 2) == rr.rclass
    requires GetU32(data, mid + 4) == rr.WireTTL(now)
    requires GetU16(data, mid + 8) == |rr.data| && data[mid + FIXED_SIZE..mid + FIXED_SIZE + |rr.data|] == rr.data
    ensures RecordAt(data, at, arrival, rdata) ==
            Placed(ReadBack(rr, owner, now, arrival, rdata), mid + FIXED_SIZE + |rr.data|)
  {
  }

  /** Every owner is written as a pointer or keeps its labels. */
  predicate AllWritable(answers: seq<Record>, first: Str) {
    answers == [] || ((answers[0].name == first || Writable(answers[0].name)) && AllWritable(answers[1..], first))
  }

  lemma {:induction false} AnswersReadBack(data: seq<byte>, at: nat, answers: seq<Record>, first: Str, qname: Str,
                                           now: Time, arrival: Time, rdata: RdataDecoder)
    requires AnswerBytes(answers, first, now).Ok? && Has(data, at, AnswerBytes(answers, first, now).value)
    requires Writable(qname) && Short(OwnerLabels(qname)) && HasQname(data, qname)
    requires AllWritable(answers, first)
    ensures SectionAt(data, at, |answers|, arrival, rdata) ==
            Placed(ReadBackAll(answers, first, qname, now, arrival, rdata),
                   at + |AnswerBytes(answers, first, now).value|)
    decreases |answers|
  {
    hide *;
    if answers == [] {
      NoAnswers(data, at, first, qname, now, arrival, rdata);
    } else {
      var head := RecordBytes(answers[0], first, now);
      var tail := AnswerBytes(answers[1..], first, now);
      var one := ReadBack(answers[0], OwnerRead(answers[0], first, qname), now, arrival, rdata);
      var rest := ReadBackAll(answers[1..], first, qname, now, arrival, rdata);
      AnswersCons(answers, first, qname, now, arrival, rdata);
      HasSplit(data, at, head.value, tail.value);
      RecordReadsBack(data, at, answers[0], first, qname, now, arrival, rdata);
      AnswersReadBack(data, at + |head.value|, answers[1..], first, qname, now, arrival, rdata);
      SectionCons(data, at, |answers|, arrival, rdata, one, at + |head.value|, rest, at + |head.value + tail.value|);
    }
  }

  lemma NoAnswers(data: seq<byte>, at: nat, first: Str, qname: Str, now: Time, arrival: Time, rdata: RdataDecoder)
    ensures SectionAt(data, at, 0, arrival, rdata) ==
            Placed(ReadBackAll([], first, qname, now, arrival, rdata), at + |AnswerBytes([], first, now).value|)
    ensures AnswerBytes([], first, now).Ok?
  {
  }

  lemma AnswersCons(answers: seq<Record>, first: Str, qname: Str, now: Time, arrival: Time, rdata: RdataDecoder)
    requires answers != [] && AnswerBytes(answers, first, now).Ok? && AllWritable(answers, first)
    ensures var head := RecordBytes(answers[0], first, now);
            var tail := AnswerBytes(answers[1..], first, now);
            head.Ok? && tail.Ok? && AnswerBytes(answers, first, now) == Ok(head.value + tail.value)
    ensures (answers[0].name == first || Writable(answers[0].name)) && AllWritable(answers[1..], first)
    ensures ReadBackAll(answers, first, qname, now, arrival, rdata) ==
            Prepended(ReadBack(answers[0], OwnerRead(answers[0], first, qname), now, arrival, rdata),
                      ReadBackAll(answers[1..], first, qname, now, arrival, rdata))
  {
  }

  lemma SectionCons(data: seq<byte>, at: nat, count: nat, arrival: Time, rdata: RdataDecoder,
                    head: Outcome<Record>, next: nat, tail: Outcome<seq<Record>>, end: nat)
    requires count > 0
    requires RecordAt(data, at, arrival, rdata) == Placed(head, next)
    requires SectionAt(data, next, count - 1, arrival, rdata) == Placed(tail, end)
    ensures SectionAt(data, at, count, arrival, rdata) == Placed(Prepended(head, tail), end)
  {
  }

  /** The labels before the first empty one, whose length byte ends the name for a reader. */
  function BeforeEmpty(labels: seq<Str>): (r: seq<Str>)
    ensures NoneEmpty(r)
    ensures Short(labels) ==> Short(r)
  {
    if labels == [] || labels[0] == [] then [] else [labels[0]] + BeforeEmpty(labels[1..])
  }

  lemma {:induction false} BeforeEmptyWire(labels: seq<Str>)
    requires Short(labels)
    ensures WireName(BeforeEmpty(labels)) <= WireName(labels)
    ensures |WireName(BeforeEmpty(labels))| == |WireName(labels)| <==> NoneEmpty(labels)
  {
    if labels != [] && labels[0] != [] {
      hide LabelBytes, WireName;
      var rest := labels[1..];
      BeforeEmptyWire(rest);
      assert labels == [labels[0]] + rest;
      WireNameCons(labels[0], rest);
      WireNameCons(labels[0], BeforeEmpty(rest));
    } else if labels != [] {
      assert labels == [[]] + labels[1..];
      WireNameCons([], labels[1..]);
      assert LabelWire([]) == [0] && WireName([]) == [0];
    }
  }

  /**
    A name written with its empty labels is read up to the first of them, so the reader ends where the writer
    did exactly when there is none.
   */
  lemma OwnerReadExactly(data: seq<byte>, at: nat, name: Str)
    requires Short(OwnerLabels(name)) && Has(data, at, WireName(OwnerLabels(name)))
    ensures var labels := OwnerLabels(name);
            && NameAt(data, at) == Decoded(Join(BeforeEmpty(labels), [DOT]), at + |WireName(BeforeEmpty(labels))|)
            && SkipName(data, at) == Some(at + |WireName(BeforeEmpty(labels))|)
            && (|WireName(BeforeEmpty(labels))| == |WireName(labels)| <==> Writable(name))
  {
    var labels := OwnerLabels(name);
    BeforeEmptyWire(labels);
    HasPrefix(data, at, WireName(BeforeEmpty(labels)), WireName(labels));
    NameReadsBack(data, at, BeforeEmpty(labels));
    SkipsWireName(data, at, BeforeEmpty(labels));
  }

  lemma HasPrefix(data: seq<byte>, at: nat, a: seq<byte>, b: seq<byte>)
    requires a <= b && Has(data, at, b)
    ensures Has(data, at, a)
  {
    HasSplit(data, at, a, b[|a|..]);
    assert b == a + b[|a|..];
  }

  lemma {:induction false} SkipsWireName(data: seq<byte>, at: nat, labels: seq<Str>)
    requires Short(labels) && NoneEmpty(labels) && Has(data, at, WireName(labels))
    ensures SkipName(data, at) == Some(at + |WireName(labels)|)
    decreases |labels|
  {
    if labels == [] {
      assert data[at] == data[at..at + 1][0];
    } else {
      var head := LabelWire(labels[0]);
      assert WireName(labels) == head + WireName(labels[1..]);
      HasSplit(data, at, head, WireName(labels[1..]));
      assert data[at] == data[at..at + |head|][0];
      assert labels[0] != [];
      SkipsWireName(data, at + |head|, labels[1..]);
    }
  }

  /** Names survive being written: no owner has an empty label, nor has the question's name if there are answers. */
  predicate NamesWritable(r: Response) {
    (r.answers != [] ==> Writable(r.question.name)) && AllWritable(r.answers, FirstOwner(r.answers))
  }

  /**
    What comes back from a response whose names have no empty labels: with answers in order, each one read
    as above, and nothing in the other sections; one unreadable answer spoils the message.  The response code
    is always read as NOERROR, because the encoder writes fixed flags.
   */
  lemma ResponseReadsBack(r: Response, now: Time, arrival: Time, rdata: RdataDecoder)
    requires Encodable(r) && NamesWritable(r)
    ensures ResponseBytes(r, now).Ok?
    ensures ResponseOf(ResponseBytes(r, now).value, r.id, arrival, rdata) ==
            Received(r.id, ReadBackAll(r.answers, FirstOwner(r.answers), r.question.name, now, arrival, rdata))
    ensures !ReadBackAll(r.answers, FirstOwner(r.answers), r.question.name, now, arrival, rdata).Overflows?
  {
    hide *;
    EncodesExactly(r, now);
    ReadBackReturns(r.answers, FirstOwner(r.answers), r.question.name, now, arrival, rdata);
    var data := ResponseBytes(r, now).value;
    var start := ResponseLayout(r, now);
    if r.answers == [] {
      NoAnswers(data, start, FirstOwner([]), r.question.name, now, arrival, rdata);
    } else {
      WritableParts(r);
      AnswersReadBack(data, start, r.answers, FirstOwner(r.answers), r.question.name, now, arrival, rdata);
    }
    ResponseFromFields(data, r.id, |r.answers|, arrival, rdata, start,
                       ReadBackAll(r.answers, FirstOwner(r.answers), r.question.name, now, arrival, rdata),
                       start + |AnswerBytes(r.answers, FirstOwner(r.answers), now).value|);
  }

  lemma WritableParts(r: Response)
    requires NamesWritable(r) && r.answers != []
    ensures Writable(r.question.name) && AllWritable(r.answers, FirstOwner(r.answers))
  {
  }

  lemma ResponseFromFields(data: seq<byte>, id: uint16, count: nat, arrival: Time, rdata: RdataDecoder, start: nat,
                           answers: Outcome<seq<Record>>, end: nat)
    requires |data| >= HEADER_SIZE && GetU16(data, 0) == id && GetU16(data, 2) == 0x8180
    requires GetU16(data, 4) == 1 && GetU16(data, 6) == count && GetU16(data, 8) == 0 && GetU16(data, 10) == 0
    requires SkipQuestions(data, HEADER_SIZE, 1) == Some(start)
    requires SectionAt(data, start, count, arrival, rdata) == Placed(answers, end)
    ensures ResponseOf(data, id, arrival, rdata) == Received(id, answers)
  {
    NoRecords(data, end, arrival, rdata);
    hide SectionAt, SkipQuestions, GetU16;
  }

  lemma NoRecords(data: seq<byte>, at: nat, arrival: Time, rdata: RdataDecoder)
    ensures SectionAt(data, at, 0, arrival, rdata) == Value(([], at))
  {
  }

  /** A response with these answers and nothing else. */
  function Received(id: uint16, answers: Outcome<seq<Record>>): Outcome<Response> {
    match answers
    case Value(got) => Value(Response(id, 0, NO_QUESTION, got, [], []))
    case Error(e) => Error(e)
    case Overflows => Overflows
    case Crashes => Crashes
  }

  /** What the encoder asks of a response: the sizes of counts, labels and data, and no label of a pointer's owner. */
  predicate Encodable(r: Response) {
    var first := FirstOwner(r.answers);
    && |r.answers| <= 65535 && Short(OwnerLabels(r.question.name))
    && forall i | 0 <= i < |r.answers| ::
         (r.answers[i].name == first || Short(OwnerLabels(r.answers[i].name))) && |r.answers[i].data| <= 65535
  }

  /** It fails on all others. */
  lemma EncodesExactly(r: Response, now: Time)
    ensures ResponseBytes(r, now).Ok? <==> Encodable(r)
  {
    AnswersEncode(r.answers, FirstOwner(r.answers), now);
  }

  lemma {:induction false} AnswersEncode(answers: seq<Record>, first: Str, now: Time)
    ensures AnswerBytes(answers, first, now).Ok? <==>
            forall i | 0 <= i < |answers| ::
              (answers[i].name == first || Short(OwnerLabels(answers[i].name))) && |answers[i].data| <= 65535
  {
    hide OwnerLabels, Short, RecordTail;
    if answers != [] {
      AnswersEncode(answers[1..], first, now);
      assert answers == [answers[0]] + answers[1..];
    }
  }

  /** An answer's owner is sent as a pointer or has no label that is too long. */
  predicate OwnerFits(rr: Record, first: Str) {
    rr.name == first || Short(OwnerLabels(rr.name))
  }

  predicate AnswersFit(answers: seq<Record>, first: Str) {
    forall i | 0 <= i < |answers| :: OwnerFits(answers[i], first) && |answers[i].data| <= 65535
  }

  /** Answer `i` is the first that does not fit, for its owner. */
  predicate OwnerFails(answers: seq<Record>, first: Str, i: nat) {
    i < |answers| && AnswersFit(answers[..i], first) && !OwnerFits(answers[i], first)
  }

  /** Answer `i` is the first that does not fit, for its data. */
  predicate DataFails(answers: seq<Record>, first: Str, i: nat) {
    && i < |answers| && AnswersFit(answers[..i], first)
    && OwnerFits(answers[i], first) && |answers[i].data| > 65535
  }

  lemma FailsLater(answers: seq<Record>, first: Str, i: nat)
    requires 0 < i < |answers|
    ensures var fits := OwnerFits(answers[0], first) && |answers[0].data| <= 65535;
            && (OwnerFails(answers, first, i) <==> fits && OwnerFails(answers[1..], first, i - 1))
            && (DataFails(answers, first, i) <==> fits && DataFails(answers[1..], first, i - 1))
  {
    hide OwnerFits;
    var rest := answers[1..];
    assert answers[..i] == [answers[0]] + rest[..i - 1] && answers[i] == rest[i - 1];
    assert AnswersFit(answers[..i], first) ==> OwnerFits(answers[..i][0], first);
  }

  /** The first answer that does not fit decides the error. */
  lemma {:induction false} AnswersFail(answers: seq<Record>, first: Str, now: Time)
    ensures AnswerBytes(answers, first, now) == Err(LabelTooLong) <==> exists i: nat :: OwnerFails(answers, first, i)
    ensures AnswerBytes(answers, first, now) == Err(RdataTooLarge) <==> exists i: nat :: DataFails(answers, first, i)
  {
    if answers != [] {
      FirstFails(answers, first, now);
      FailsAtOnce(answers, first);
      hide RecordBytes, OwnerFits, OwnerFails, DataFails;
      AnswersFail(answers[1..], first, now);
      forall i: nat | 0 < i < |answers|
        ensures var fits := OwnerFits(answers[0], first) && |answers[0].data| <= 65535;
                && (OwnerFails(answers, first, i) <==> fits && OwnerFails(answers[1..], first, i - 1))
                && (DataFails(answers, first, i) <==> fits && DataFails(answers[1..], first, i - 1))
      {
        FailsLater(answers, first, i);
      }
      if i: nat :| OwnerFails(answers[1..], first, i) {
        FailsLater(answers, first, i + 1);
      }
      if i: nat :| DataFails(answers[1..], first, i) {
        FailsLater(answers, first, i + 1);
      }
    }
  }

  lemma FailsAtOnce(answers: seq<Record>, first: Str)
    requires answers != []
    ensures OwnerFails(answers, first, 0) <==> !OwnerFits(answers[0], first)
    ensures DataFails(answers, first, 0) <==> OwnerFits(answers[0], first) && |answers[0].data| > 65535
    ensures forall i: nat | OwnerFails(answers, first, i) || DataFails(answers, first, i) :: i < |answers|
    ensures forall i: nat | OwnerFails(answers[1..], first, i) || DataFails(answers[1..], first, i) :: i < |answers| - 1
  {
    hide OwnerFits;
  }

  lemma FirstFails(answers: seq<Record>, first: Str, now: Time)
    requires answers != []
    ensures RecordBytes(answers[0], first, now) ==
            if !OwnerFits(answers[0], first) then Err(LabelTooLong)
            else if |answers[0].data| > 65535 then Err(RdataTooLarge)
            else RecordBytes(answers[0], first, now)
    ensures RecordBytes(answers[0], first, now).Ok? ==> OwnerFits(answers[0], first) && |answers[0].data| <= 65535
    ensures RecordBytes(answers[0], first, now).Err? ==> !(OwnerFits(answers[0], first) && |answers[0].data| <= 65535)
  {
    hide RecordTail, Split;
  }

  /** Why a response is not encoded: too many answers, a long label in the question's name, or the first misfit. */
  lemma EncodeFailsExactly(r: Response, now: Time)
    ensures var first := FirstOwner(r.answers);
            var question := |r.answers| <= 65535 && Short(OwnerLabels(r.question.name));
            && (ResponseBytes(r, now) == Err(TooManyAnswers) <==> |r.answers| > 65535)
            && (ResponseBytes(r, now) == Err(LabelTooLong) <==>
                |r.answers| <= 65535 && (!question || exists i: nat :: OwnerFails(r.answers, first, i)))
            && (ResponseBytes(r, now) == Err(RdataTooLarge) <==>
                question && exists i: nat :: DataFails(r.answers, first, i))
  {
    AnswersFail(r.answers, FirstOwner(r.answers), now);
    AnswerErrors(r.answers, FirstOwner(r.answers), now);
    hide Short, OwnerLabels, AnswerBytes, OwnerFails, DataFails;
  }

  lemma {:induction false} AnswerErrors(answers: seq<Record>, first: Str, now: Time)
    ensures AnswerBytes(answers, first, now).Err? ==>
              AnswerBytes(answers, first, now).error == LabelTooLong ||
              AnswerBytes(answers, first, now).error == RdataTooLarge
  {
    hide RecordTail, Short, OwnerLabels;
    if answers != [] {
      AnswerErrors(answers[1..], first, now);
    }
  }

  /** Where the parts of an encoded response stand. */
  lemma ResponseLayout(r: Response, now: Time) returns (start: nat)
    requires ResponseBytes(r, now).Ok?
    ensures var data := ResponseBytes(r, now).value;
            && |data| >= HEADER_SIZE
            && GetU16(data, 0) == r.id && GetU16(data, 2) == 0x8180
            && GetU16(data, 4) == 1 && GetU16(data, 6) == |r.answers|
            && GetU16(data, 8) == 0 && GetU16(data, 10) == 0
            && SkipQuestions(data, HEADER_SIZE, 1) == Some(start)
            && Short(OwnerLabels(r.question.name))
            && AnswerBytes(r.answers, FirstOwner(r.answers), now).Ok?
            && (Writable(r.question.name) ==>
                && HasQname(data, r.question.name)
                && Has(data, start, AnswerBytes(r.answers, FirstOwner(r.answers), now).value))
  {
    var data := ResponseBytes(r, now).value;
    var labels := OwnerLabels(r.question.name);
    var header := Header(r.id, 0x8180, 1, |r.answers|);
    var question := QuestionBytes(labels, r.question.qtype, r.question.qclass);
    var answers := AnswerBytes(r.answers, FirstOwner(r.answers), now).value;
    start := HEADER_SIZE + |WireName(BeforeEmpty(labels))| + 4;
    assert data[0..|data|] == header + question + answers;
    HasSplit(data, 0, header + question, answers);
    HasSplit(data, 0, header, question);
    HeaderFields(data, r.id, 0x8180, 1, |r.answers|);
    SkipsQuestion(data, r.question.name, r.question.qtype, r.question.qclass);
    if Writable(r.question.name) {
      QuestionReadsBack(data, HEADER_SIZE, labels, r.question.qtype, r.question.qclass);
      assert start == |header + question|;
    }
  }

  lemma SkipsQuestion(data: seq<byte>, name: Str, t: uint16, c: uint16)
    requires Short(OwnerLabels(name)) && Has(data, HEADER_SIZE, QuestionBytes(OwnerLabels(name), t, c))
    ensures var read := |WireName(BeforeEmpty(OwnerLabels(name)))|;
            && SkipQuestions(data, HEADER_SIZE, 1) == Some(HEADER_SIZE + read + 4)
            && read <= |WireName(OwnerLabels(name))|
            && (read == |WireName(OwnerLabels(name))| <==> Writable(name))
  {
    var w := WireName(OwnerLabels(name));
    assert QuestionBytes(OwnerLabels(name), t, c) == w + (U16(t) + U16(c));
    HasSplit(data, HEADER_SIZE, w, U16(t) + U16(c));
    OwnerReadExactly(data, HEADER_SIZE, name);
    BeforeEmptyWire(OwnerLabels(name));
    var end := HEADER_SIZE + |WireName(BeforeEmpty(OwnerLabels(name)))|;
    assert SkipQuestions(data, end + 4, 0) == Some(end + 4);
  }

  /**
    The receiver starts reading answers where they start exactly when no label of the question's name is empty;
    after a name with a trailing dot, say, it starts too early.
   */
  lemma AnswersFoundExactly(r: Response, now: Time)
    requires ResponseBytes(r, now).Ok?
    ensures var data := ResponseBytes(r, now).value;
            var start := |data| - |AnswerBytes(r.answers, FirstOwner(r.answers), now).value|;
            var found := SkipQuestions(data, HEADER_SIZE, GetU16(data, 4));
            && found.Some? && found.value <= start
            && (found.value == start <==> Writable(r.question.name))
  {
    var data := ResponseBytes(r, now).value;
    var labels := OwnerLabels(r.question.name);
    var header := Header(r.id, 0x8180, 1, |r.answers|);
    var question := QuestionBytes(labels, r.question.qtype, r.question.qclass);
    var answers := AnswerBytes(r.answers, FirstOwner(r.answers), now).value;
    assert data[0..|data|] == header + question + answers;
    HasSplit(data, 0, header + question, answers);
    HasSplit(data, 0, header, question);
    HeaderFields(data, r.id, 0x8180, 1, |r.answers|);
    SkipsQuestion(data, r.question.name, r.question.qtype, r.question.qclass);
  }

  /**
    The question section repeats the question: read as a query, a response gives it back, with the response's ID,
    exactly if no label of its name is empty.
   */
  lemma QuestionIsEchoed(r: Response, now: Time)
    requires Encodable(r)
    ensures ResponseBytes(r, now).Ok?
    ensures QueryOf(ResponseBytes(r, now).value) == Value(r.question.(id := r.id)) <==> Writable(r.question.name)
  {
    EncodesExactly(r, now);
    hide Encodable, Writable, NameWithin, Spells, WireName, Join;
    var data := ResponseBytes(r, now).value;
    var labels := OwnerLabels(r.question.name);
    var header := Header(r.id, 0x8180, 1, |r.answers|);
    var question := QuestionBytes(labels, r.question.qtype, r.question.qclass);
    var answers := AnswerBytes(r.answers, FirstOwner(r.answers), now).value;
    assert data[0..|data|] == header + question + answers;
    HasSplit(data, 0, header + question, answers);
    HasSplit(data, 0, header, question);
    HeaderFields(data, r.id, 0x8180, 1, |r.answers|);
    if Writable(r.question.name) {
      NoneAreEmpty(r.question.name);
      QuestionReadsBack(data, HEADER_SIZE, labels, r.question.qtype, r.question.qclass);
      JoinOwnerLabels(r.question.name);
    } else {
      HasPrefix(data, HEADER_SIZE, WireName(labels), question);
      OwnerReadExactly(data, HEADER_SIZE, r.question.name);
      LosesLabels(r.question.name);
    }
  }

  lemma NoneAreEmpty(name: Str)
    requires Writable(name)
    ensures NoneEmpty(OwnerLabels(name))
  {
  }

  /** Up to its first empty label a name is shorter. */
  lemma LosesLabels(name: Str)
    requires Short(OwnerLabels(name)) && !Writable(name)
    ensures Join(BeforeEmpty(OwnerLabels(name)), [DOT]) != name
  {
    hide LabelBytes, WireName, Join;
    var labels := OwnerLabels(name);
    BeforeEmptyWire(labels);
    WireNameSize(labels);
    WireNameSize(BeforeEmpty(labels));
    JoinOwnerLabels(name);
    if BeforeEmpty(labels) == [] {
      EmptyName(name);
    }
  }

  lemma EmptyName(name: Str)
    requires !Writable(name)
    ensures name != [] && Join([], [DOT]) == []
  {
  }

  // ---------- From a decoded query to its response ----------

  /** The pieces between dots in all of these labels: a label on the wire may have dots in it. */
  function Pieces(labels: seq<Str>): seq<Str> {
    if labels == [] then [] else Split(labels[0], DOTS) + Pieces(labels[1..])
  }

  lemma {:induction false} SplitOfAnyJoin(labels: seq<Str>)
    requires labels != []
    ensures Split(Join(labels, [DOT]), DOTS) == Pieces(labels)
  {
    if |labels| > 1 {
      SplitOfAnyJoin(labels[1..]);
      SplitAtSeparator(labels[0], DOT, Join(labels[1..], [DOT]), DOTS);
    } else {
      assert Pieces(labels[1..]) == [];
    }
  }

  lemma {:induction false} DanglingHasLabels(e: Encoded)
    ensures Dangling(e) ==> LabelsOf(e) != []
  {
    if LabelsOf(e) == [] {
      NoLabelsNoDangling(e);
    }
  }

  /** For a name that was read, the encoder writes its labels, split at their dots, and an empty one for a last dot. */
  lemma LabelsWritten(data: seq<byte>, offset: nat, e: Encoded)
    requires Spells(data, offset, e)
    ensures OwnerLabels(TextOf(e)) == Pieces(LabelsOf(e)) + if Dangling(e) then [[]] else []
  {
    hide Spells, Split, Dangling;
    var labels := LabelsOf(e);
    DanglingHasLabels(e);
    if labels != [] {
      SpelledLabels(data, offset, e);
      var text := Join(labels, [DOT]);
      JoinEnds(labels, [DOT]);
      SplitOfAnyJoin(labels);
      if Dangling(e) {
        SplitAtSeparator(text, DOT, [], DOTS);
        SplitWithoutSeparator([], DOTS);
        assert text + [DOT] + [] == text + [DOT];
      } else {
        assert text + [] == text;
      }
    }
  }

  lemma {:induction false} SpelledLabels(data: seq<byte>, offset: nat, e: Encoded)
    requires Spells(data, offset, e)
    ensures NoneEmpty(LabelsOf(e))
    decreases e
  {
    match e
    case Root =>
    case Label(text, rest) => SpelledLabels(data, offset + 1 + |text|, rest);
    case Pointer(target, rest) => SpelledLabels(data, target, rest);
  }

  lemma {:induction false} PiecesOfFree(labels: seq<Str>)
    requires AllFree(labels, DOTS)
    ensures Pieces(labels) == labels
  {
    if labels != [] {
      assert Free(labels[0], DOTS);
      SplitWithoutSeparator(labels[0], DOTS);
      PiecesOfFree(labels[1..]);
    }
  }

  /**
    The server's own path.  A name that was read can be written again exactly if its labels have at most 63 bytes,
    though the decoder takes up to 191, and a pointer to the root behind labels costs it the answers.
   */
  lemma ReadNameWritten(data: seq<byte>, offset: nat, e: Encoded)
    requires Spells(data, offset, e) && AllFree(LabelsOf(e), DOTS)
    ensures OwnerBytes(TextOf(e)).Ok? <==> Short(LabelsOf(e))
    ensures Writable(TextOf(e)) <==> !Dangling(e)
  {
    hide Spells, Dangling, Split, TextOf;
    LabelsWritten(data, offset, e);
    PiecesOfFree(LabelsOf(e));
    SpelledLabels(data, offset, e);
    var labels := LabelsOf(e);
    if Dangling(e) {
      assert (labels + [[]])[|labels|] == [];
      if Short(labels + [[]]) {
        assert forall i | 0 <= i < |labels| :: (labels + [[]])[i] == labels[i];
      }
    } else {
      assert labels + [] == labels;
    }
  }

  /**
    Answering a query: the response to a decoded question is encoded only if no label of the name has more than 63
    bytes, and its receiver looks for the answers where they start exactly if the query's name does not end in a
    pointer to the root behind labels.
   */
  lemma QueryIsAnswered(query: seq<byte>, e: Encoded, r: Response, now: Time)
    requires QueryOf(query) == Value(r.question)
    requires Spells(query, HEADER_SIZE, e) && AllFree(LabelsOf(e), DOTS)
    ensures ResponseBytes(r, now).Ok? ==> Short(LabelsOf(e))
    ensures r.answers == [] ==> (ResponseBytes(r, now).Ok? <==> Short(LabelsOf(e)))
    ensures ResponseBytes(r, now).Ok? ==>
              var data := ResponseBytes(r, now).value;
              var start := |data| - |AnswerBytes(r.answers, FirstOwner(r.answers), now).value|;
              SkipQuestions(data, HEADER_SIZE, GetU16(data, 4)) == Some(start) <==> !Dangling(e)
  {
    hide QueryOf, Spells, LabelsOf, TextOf, Dangling, Writable, OwnerBytes, Encodable;
    hide ResponseBytes, AnswerBytes, SkipQuestions;
    AskedName(query, r.question, e);
    ReadNameWritten(query, HEADER_SIZE, e);
    EncodesExactly(r, now);
    EncodableName(r);
    if ResponseBytes(r, now).Ok? {
      AnswersFoundExactly(r, now);
    }
  }

  lemma AskedName(query: seq<byte>, q: Question, e: Encoded)
    requires QueryOf(query) == Value(q) && Spells(query, HEADER_SIZE, e)
    ensures q.name == TextOf(e)
  {
    hide Spells, TextOf;
    DecodesExactlySpelled(query, HEADER_SIZE);
  }

  lemma EncodableName(r: Response)
    ensures Encodable(r) ==> OwnerBytes(r.question.name).Ok?
    ensures r.answers == [] && OwnerBytes(r.question.name).Ok? ==> Encodable(r)
  {
  }

  // ---------- When the answers survive ----------

  /** Apart from its name, the receiver will accept the record. */
  predicate Carried(rr: Record, rdata: RdataDecoder) {
    && ValidType(rr.rtype) && ValidClass(rr.rclass)
    && rdata(rr.rtype, rr.data).Text? && !(rdata(rr.rtype, rr.data).text == [] && rr.data == [])
  }

  predicate AllCarried(answers: seq<Record>, rdata: RdataDecoder) {
    answers == [] || (Carried(answers[0], rdata) && AllCarried(answers[1..], rdata))
  }

  /** The same record, with the whole seconds it had left, counted from its arrival. */
  predicate SameRecord(sent: Record, got: Record, now: Time, arrival: Time, rdata: RdataDecoder) {
    && got.name == sent.name && got.rtype == sent.rtype && got.rclass == sent.rclass
    && got.data == sent.data && rdata(sent.rtype, sent.data) == Text(got.text)
    && got.ttl == sent.WireTTL(now) && got.expiresAt == Some(arrival + got.ttl * 1_000_000_000)
  }

  predicate SameAnswers(sent: seq<Record>, got: seq<Record>, now: Time, arrival: Time, rdata: RdataDecoder) {
    |sent| == |got| && forall i | 0 <= i < |sent| :: SameRecord(sent[i], got[i], now, arrival, rdata)
  }

  /** The receiver reads this owner, canonicalized, as it was. */
  predicate NameSurvives(rr: Record, first: Str, qname: Str) {
    rr.name != [] && rr.name == Canonical(OwnerRead(rr, first, qname))
  }

  predicate NamesSurvive(answers: seq<Record>, first: Str, qname: Str) {
    forall i | 0 <= i < |answers| :: NameSurvives(answers[i], first, qname)
  }

  lemma OneSurvives(rr: Record, first: Str, qname: Str, now: Time, arrival: Time, rdata: RdataDecoder)
    ensures var back := ReadBack(rr, OwnerRead(rr, first, qname), now, arrival, rdata);
            back.Value? && SameRecord(rr, back.value, now, arrival, rdata) <==>
            Carried(rr, rdata) && NameSurvives(rr, first, qname)
  {
  }

  lemma {:induction false} AllSurvive(answers: seq<Record>, first: Str, qname: Str, now: Time, arrival: Time,
                                      rdata: RdataDecoder)
    ensures var back := ReadBackAll(answers, first, qname, now, arrival, rdata);
            back.Value? && SameAnswers(answers, back.value, now, arrival, rdata) <==>
            AllCarried(answers, rdata) && NamesSurvive(answers, first, qname)
  {
    hide ReadBack, SameRecord, SameAnswers, NamesSurvive, NameSurvives, Carried;
    if answers == [] {
      NothingToSurvive(first, qname, now, arrival, rdata);
    } else {
      var one := ReadBack(answers[0], OwnerRead(answers[0], first, qname), now, arrival, rdata);
      var rest := ReadBackAll(answers[1..], first, qname, now, arrival, rdata);
      OneSurvives(answers[0], first, qname, now, arrival, rdata);
      AllSurvive(answers[1..], first, qname, now, arrival, rdata);
      assert ReadBackAll(answers, first, qname, now, arrival, rdata) == Prepended(one, rest);
      SurviveCons(answers, first, qname);
      if one.Value? && rest.Value? {
        SameCons(answers, one.value, rest.value, now, arrival, rdata);
      }
    }
  }

  lemma NothingToSurvive(first: Str, qname: Str, now: Time, arrival: Time, rdata: RdataDecoder)
    ensures SameAnswers([], [], now, arrival, rdata) && NamesSurvive([], first, qname)
  {
  }

  lemma SurviveCons(answers: seq<Record>, first: Str, qname: Str)
    requires answers != []
    ensures NamesSurvive(answers, first, qname) <==>
            NameSurvives(answers[0], first, qname) && NamesSurvive(answers[1..], first, qname)
  {
    assert answers == [answers[0]] + answers[1..];
  }

  lemma SameCons(sent: seq<Record>, head: Record, tail: seq<Record>, now: Time, arrival: Time, rdata: RdataDecoder)
    requires sent != []
    ensures SameAnswers(sent, [head] + tail, now, arrival, rdata) <==>
            SameRecord(sent[0], head, now, arrival, rdata) && SameAnswers(sent[1..], tail, now, arrival, rdata)
  {
    var got := [head] + tail;
    assert got[1..] == tail && sent == [sent[0]] + sent[1..];
    assert forall i | 0 <= i < |tail| :: got[i + 1] == tail[i];
  }

  /**
    The round trip.  For a response whose names have no empty labels, or one without answers, the answers come back
    the same and in order exactly when the receiver accepts each record and every owner comes back: the first owner,
    which is sent as a pointer to the question, is the question's canonical name, and the others are canonical.  A
    message that decodes has the same ID, reads as NOERROR and has nothing in the other sections.
   */
  lemma ResponseRoundTrip(r: Response, now: Time, arrival: Time, rdata: RdataDecoder)
    requires Encodable(r) && NamesWritable(r)
    ensures ResponseBytes(r, now).Ok?
    ensures var out := ResponseOf(ResponseBytes(r, now).value, r.id, arrival, rdata);
            && (out.Value? && SameAnswers(r.answers, out.value.answers, now, arrival, rdata) <==>
                AllCarried(r.answers, rdata) && NamesSurvive(r.answers, FirstOwner(r.answers), r.question.name))
            && (out.Value? ==> out.value == Response(r.id, 0, NO_QUESTION, out.value.answers, [], []))
            && !out.Overflows?
  {
    hide Encodable, ResponseBytes, ResponseOf, ReadBackAll, NamesWritable, AllCarried;
    ResponseReadsBack(r, now, arrival, rdata);
    AllSurvive(r.answers, FirstOwner(r.answers), r.question.name, now, arrival, rdata);
  }

  lemma NamesSurviveMeans(answers: seq<Record>, qname: Str)
    ensures NamesSurvive(answers, FirstOwner(answers), qname) <==>
            && (answers != [] ==> Canonical(qname) == answers[0].name && answers[0].name != [])
            && forall i | 0 <= i < |answers| :: answers[i].name != [] &&
                 (answers[i].name == answers[0].name || Canonical(answers[i].name) == answers[i].name)
  {
    if NamesSurvive(answers, FirstOwner(answers), qname) && answers != [] {
      assert NameSurvives(answers[0], FirstOwner(answers), qname);
    }
  }
}
