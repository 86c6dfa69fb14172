/** Query messages (`EncodeQuery`, `DecodeQuery`, `decodeQuestion`; section 4.1 of RFC 1035). */
module WireQuery {
  import opened Wrappers
  import opened Strings
  import opened Numbers
  import opened Labels
  import opened WireNames
  import opened Domain

  datatype WireError =
    | TooShort | QuestionCount | BadName | TruncatedQuestion
    | IdMismatch | TruncatedRecord | TruncatedRdata | BadRdata | BadRecord
    | LabelTooLong | TooManyAnswers | RdataTooLarge

  /**
    A decoder's result; `Overflows` is an endless chain of pointers, which exhausts the stack and so ends the process,
    `Crashes` a panic in an RDATA decoder it calls.
   */
  datatype Outcome<+T> = Value(value: T) | Error(error: WireError) | Overflows | Crashes

  const HEADER_SIZE := 12

  function Header(id: uint16, flags: uint16, questions: uint16, answers: uint16): (r: seq<byte>)
    ensures |r| == HEADER_SIZE
  {
    U16(id) + U16(flags) + U16(questions) + U16(answers) + U16(0) + U16(0)
  }

  lemma HeaderFields(data: seq<byte>, id: uint16, flags: uint16, questions: uint16, answers: uint16)
    requires Has(data, 0, Header(id, flags, questions, answers))
    ensures GetU16(data, 0) == id && GetU16(data, 2) == flags
    ensures GetU16(data, 4) == questions && GetU16(data, 6) == answers
    ensures GetU16(data, 8) == 0 && GetU16(data, 10) == 0
  {
    var h := data[0..12];
    assert h[0] == data[0] && h[1] == data[1] && h[2] == data[2] && h[3] == data[3];
    assert h[4] == data[4] && h[5] == data[5] && h[6] == data[6] && h[7] == data[7];
    assert h[8] == data[8] && h[9] == data[9] && h[10] == data[10] && h[11] == data[11];
  }

  // ---------- Encoding ----------

  /** `strings.TrimSuffix(name, ".")`. */
  function TrimDot(name: Str): Str {
    if name != [] && name[|name| - 1] == DOT then name[..|name| - 1] else name
  }

  /** The labels a query's name stands for. */
  function QueryLabels(name: Str): seq<Str> {
    NonEmpty(Split(TrimDot(name), DOTS))
  }

  function QuestionBytes(labels: seq<Str>, t: uint16, c: uint16): seq<byte>
    requires Short(labels)
  {
    WireName(labels) + U16(t) + U16(c)
  }

  function QueryBytes(q: Question): Result<seq<byte>, WireError> {
    var labels := QueryLabels(q.name);
    if Short(labels) then Ok(Header(q.id, 0x0100, 1, 0) + QuestionBytes(labels, q.qtype, q.qclass))
    else Err(LabelTooLong)
  }

  method EncodeQuery(q: Question) returns (r: Result<seq<byte>, WireError>)
    ensures r == QueryBytes(q)
  {
    var buf := U16(q.id);
    buf := buf + U16(0x0100);
    buf := buf + U16(1);
    buf := buf + U16(0);
    buf := buf + U16(0);
    buf := buf + U16(0);
    var labels := Split(TrimDot(q.name), DOTS);
    ghost var header := buf;
    assert header == Header(q.id, 0x0100, 1, 0);
    hide U16, Header, TrimDot;
    ghost var done: seq<Str> := [];
    for i := 0 to |labels|
      invariant Short(done) && buf == header + LabelBytes(done)
      invariant QueryLabels(q.name) == done + NonEmpty(labels[i..])
    {
      var piece := labels[i];
      assert labels[i..][0] == piece && labels[i..][1..] == labels[i + 1..];
      if |piece| > MAX_LABEL {
        assert QueryLabels(q.name)[|done|] == piece;
        return Err(LabelTooLong);
      }
      if |piece| > 0 {
        LabelBytesSnoc(done, piece);
        assert header + LabelBytes(done + [piece]) == header + LabelBytes(done) + [|piece|] + piece;
        buf := buf + [|piece|];
        buf := buf + piece;
        done := done + [piece];
      }
    }
    assert QueryLabels(q.name) == done;
    Assembled(header, done, q.qtype, q.qclass);
    buf := buf + [0];
    buf := buf + U16(q.qtype);
    buf := buf + U16(q.qclass);
    r := Ok(buf);
  }

  lemma Assembled(header: seq<byte>, labels: seq<Str>, t: uint16, c: uint16)
    requires Short(labels)
    ensures header + LabelBytes(labels) + [0] + U16(t) + U16(c) == header + QuestionBytes(labels, t, c)
  {
    var w := WireName(labels);
    assert header + LabelBytes(labels) + [0] == header + w;
    assert header + w + U16(t) + U16(c) == header + (w + U16(t) + U16(c));
  }

  // ---------- Decoding ----------

  /** Name, type, class and the offset after them. */
  function QuestionAt(data: seq<byte>, offset: nat): Outcome<(Str, uint16, uint16, nat)> {
    match NameAt(data, offset)
    case Endless => Overflows
    case Malformed => Error(BadName)
    case Decoded(name, end) =>
      if end + 4 > |data| then Error(TruncatedQuestion)
      else Value((name, GetU16(data, end), GetU16(data, end + 2), end + 4))
  }

  method DecodeQuestion(data: seq<byte>, offset: nat) returns (r: Outcome<(Str, uint16, uint16, nat)>)
    requires !QuestionAt(data, offset).Overflows?
    ensures r == QuestionAt(data, offset)
  {
    var name := DecodeName(data, offset);
    if name.Malformed? {
      return Error(BadName);
    }
    if name.end + 4 > |data| {
      return Error(TruncatedQuestion);
    }
    r := Value((name.text, GetU16(data, name.end), GetU16(data, name.end + 2), name.end + 4));
  }

  function QueryOf(data: seq<byte>): Outcome<Question> {
    if |data| < HEADER_SIZE then Error(TooShort)
    else if GetU16(data, 4) != 1 then Error(QuestionCount)
    else match QuestionAt(data, HEADER_SIZE)
      case Value((name, t, c, _)) => Value(Question(GetU16(data, 0), name, t, c))
      case Error(e) => Error(e)
      case Overflows => Overflows
      case Crashes => Crashes
  }

  method DecodeQuery(data: seq<byte>) returns (r: Outcome<Question>)
    requires !QueryOf(data).Overflows?
    ensures r == QueryOf(data)
  {
    if |data| < HEADER_SIZE {
      return Error(TooShort);
    }
    var id := GetU16(data, 0);
    var qdCount := GetU16(data, 4);
    if qdCount != 1 {
      return Error(QuestionCount);
    }
    var question := DecodeQuestion(data, HEADER_SIZE);
    match question
    case Error(e) => r := Error(e);
    case Value((name, t, c, _)) => r := Value(Question(id, name, t, c));
  }

  /** It exhausts the stack exactly if it reads the question and its pointers lead into a label run twice. */
  lemma QueryOverflowsExactly(data: seq<byte>)
    ensures QueryOf(data).Overflows? <==>
            |data| >= HEADER_SIZE && GetU16(data, 4) == 1 && Revisits(data, HEADER_SIZE)
  {
    EndlessExactly(data, HEADER_SIZE);
  }

  /** It gives a question exactly if the message has one, spelled after the header, with type and class behind it. */
  lemma QueryDecodesExactly(data: seq<byte>, q: Question)
    ensures QueryOf(data) == Value(q) <==>
            && |data| >= HEADER_SIZE && GetU16(data, 4) == 1 && q.id == GetU16(data, 0)
            && exists e :: Spells(data, HEADER_SIZE, e) && TextOf(e) == q.name &&
                 Has(data, EndOf(e, HEADER_SIZE), U16(q.qtype) + U16(q.qclass))
  {
    DecodesExactlySpelled(data, HEADER_SIZE);
    if |data| >= HEADER_SIZE && NameAt(data, HEADER_SIZE).Decoded? {
      var e :| Spells(data, HEADER_SIZE, e);
      FieldsThere(data, EndOf(e, HEADER_SIZE), q.qtype, q.qclass);
    }
  }

  /** Its errors: too short for a header, not one question, no name and no overflow, nothing behind the name. */
  lemma QueryFailsExactly(data: seq<byte>)
    ensures QueryOf(data) == Error(TooShort) <==> |data| < 12
    ensures QueryOf(data) == Error(QuestionCount) <==> |data| >= 12 && GetU16(data, 4) != 1
    ensures QueryOf(data) == Error(BadName) <==>
            && |data| >= 12 && GetU16(data, 4) == 1
            && !Revisits(data, 12) && forall e :: !Spells(data, 12, e)
    ensures QueryOf(data) == Error(TruncatedQuestion) <==>
            && |data| >= 12 && GetU16(data, 4) == 1
            && exists e :: Spells(data, 12, e) && EndOf(e, 12) + 4 > |data|
  {
    EndlessExactly(data, HEADER_SIZE);
    DecodesExactlySpelled(data, HEADER_SIZE);
  }

  lemma FieldsThere(data: seq<byte>, at: nat, a: uint16, b: uint16)
    ensures Has(data, at, U16(a) + U16(b)) <==>
            at + 4 <= |data| && GetU16(data, at) == a && GetU16(data, at + 2) == b
  {
    if Has(data, at, U16(a) + U16(b)) {
      TwoFields(data, at, a, b);
    }
  }

  /**
    That pointers target an offset below their own is not enough: a query of sixteen bytes, its name the label `a`
    and a pointer back to that label, exhausts the stack.
   */
  lemma BelowPointerIsNotEnough(id: uint16)
    ensures var data := Header(id, 0x0100, 1, 0) + [1, 97, 0xC0, HEADER_SIZE];
            && |data| == 16 && PointerTarget(data, 14) == HEADER_SIZE < 14
            && RunAt(data, HEADER_SIZE) == Run([[97]], Jump(HEADER_SIZE), 16)
            && QueryOf(data).Overflows?
  {
    var header := Header(id, 0x0100, 1, 0);
    var data := header + [1, 97, 0xC0, HEADER_SIZE];
    assert Has(data, 0, header);
    HeaderFields(data, id, 0x0100, 1, 0);
    assert PointerTarget(data, 14) == 12;
    assert RunAt(data, 14) == Run([], Jump(12), 16);
    assert data[12] == 1 && data[13..14] == [97];
    assert Visit(data, 12, 0) == Some(12);
    assert Visit(data, 12, 1) == Visit(data, 12, 0);
    QueryOverflowsExactly(data);
  }

  // ---------- Round trip ----------

  /** A written question reads back as its labels, type and class, wherever it stands. */
  lemma QuestionReadsBack(data: seq<byte>, at: nat, labels: seq<Str>, t: uint16, c: uint16)
    requires Short(labels) && NoneEmpty(labels) && Has(data, at, QuestionBytes(labels, t, c))
    ensures Spells(data, at, Plain(labels))
    ensures QuestionAt(data, at) == Value((Join(labels, [DOT]), t, c, at + |QuestionBytes(labels, t, c)|))
  {
    hide WireName, U16, GetU16, Spells, NameWithin, Join;
    var w := WireName(labels);
    assert QuestionBytes(labels, t, c) == w + (U16(t) + U16(c));
    HasSplit(data, at, w, U16(t) + U16(c));
    NameReadsBack(data, at, labels);
    TwoFields(data, at + |w|, t, c);
  }

  lemma TwoFields(data: seq<byte>, at: nat, a: uint16, b: uint16)
    requires Has(data, at, U16(a) + U16(b))
    ensures at + 4 <= |data| && GetU16(data, at) == a && GetU16(data, at + 2) == b
  {
    HasSplit(data, at, U16(a), U16(b));
    GetOfU16(data, at, a);
    GetOfU16(data, at + 2, b);
  }

  lemma QueryLabelsSpec(name: Str)
    ensures var labels := QueryLabels(name); NoneEmpty(labels) && AllFree(labels, DOTS)
  {
    SplitPieces(TrimDot(name), DOTS, {});
    NonEmptyFree(Split(TrimDot(name), DOTS), DOTS);
  }

  lemma QueryLabelsOfJoin(labels: seq<Str>)
    requires NoneEmpty(labels) && AllFree(labels, DOTS)
    ensures QueryLabels(Join(labels, [DOT])) == labels
  {
    if labels == [] {
      assert NonEmpty([[]][1..]) == [];
    } else {
      JoinEnds(labels, [DOT]);
      assert Last(labels[|labels| - 1]) !in DOTS;
      SplitOfJoin(labels, DOT, DOTS);
      NonEmptyId(labels);
    }
  }

  /** The dot that is trimmed first makes no difference: they are the pieces between dots that are not empty. */
  lemma QueryLabelsMean(name: Str)
    ensures QueryLabels(name) == NonEmpty(Split(name, DOTS))
  {
    if name != [] && name[|name| - 1] == DOT {
      var t := name[..|name| - 1];
      assert name == t + [DOT] + [];
      SplitAtSeparator(t, DOT, [], DOTS);
      NonEmptyAppend(Split(t, DOTS), [[]]);
      SplitWithoutSeparator([], DOTS);
      NoneLeft();
    }
  }

  lemma NoneLeft()
    ensures NonEmpty([[]]) == []
  {
    var one: seq<Str> := [[]];
    assert one[1..] == [];
  }

  /** The name with empty labels left out. */
  function Squeezed(name: Str): Str {
    Join(QueryLabels(name), [DOT])
  }

  /**
    Encoding a question fails exactly when a label is longer than 63 bytes.  Otherwise the message decodes to
    the same ID, type and class and the name without its empty labels.
   */
  lemma QueryRoundTrip(q: Question)
    ensures QueryBytes(q).Err? <==> exists i :: 0 <= i < |QueryLabels(q.name)| && |QueryLabels(q.name)[i]| > 63
    ensures QueryBytes(q).Ok? ==>
              var data := QueryBytes(q).value;
              && QueryOf(data) == Value(q.(name := Squeezed(q.name)))
              && |data| >= HEADER_SIZE && GetU16(data, 2) == 0x0100 && GetU16(data, 6) == 0
  {
    if QueryBytes(q).Ok? {
      var labels := QueryLabels(q.name);
      var data := QueryBytes(q).value;
      var header := Header(q.id, 0x0100, 1, 0);
      var question := QuestionBytes(labels, q.qtype, q.qclass);
      assert data[0..|data|] == header + question;
      HasSplit(data, 0, header, question);
      HeaderFields(data, q.id, 0x0100, 1, 0);
      QueryLabelsSpec(q.name);
      QuestionReadsBack(data, HEADER_SIZE, labels, q.qtype, q.qclass);
    }
  }

  /** A second round trip changes nothing more: the decoded question encodes to the same bytes and decodes to itself. */
  lemma SecondRoundTrip(q: Question)
    requires QueryBytes(q).Ok?
    ensures var q' := q.(name := Squeezed(q.name));
            && QueryOf(QueryBytes(q).value) == Value(q')
            && QueryBytes(q') == QueryBytes(q)
            && QueryOf(QueryBytes(q').value) == Value(q')
  {
    QueryRoundTrip(q);
    QueryLabelsSpec(q.name);
    QueryLabelsOfJoin(QueryLabels(q.name));
  }
}
