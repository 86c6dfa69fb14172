/** The RDATA of TXT and CAA records (`rrdata/016txt.go`, `257caa.go`): text to bytes and back. */
module RdataText {
  import opened Wrappers
  import opened Strings
  import opened Numbers
  import opened Labels
  import opened RdataFields

  // ---------- TXT: character strings, separated by semicolons in text ----------

  const MAX_SEGMENT := 255

  predicate SegmentsFit(segments: seq<Str>) {
    forall i | 0 <= i < |segments| :: |segments[i]| <= MAX_SEGMENT
  }

  function TrimAll(parts: seq<Str>): seq<Str> {
    if parts == [] then [] else [Trim(parts[0], SPACES)] + TrimAll(parts[1..])
  }

  /** The non-empty pieces between semicolons, without the spaces around them. */
  function Segments(data: Str): seq<Str> {
    NonEmpty(TrimAll(Split(data, SEMICOLONS)))
  }

  /** A length byte and the segment, one after the other. */
  function SegmentBytes(segments: seq<Str>): seq<byte>
    requires SegmentsFit(segments)
  {
    if segments == [] then [] else [|segments[0]|] + segments[0] + SegmentBytes(segments[1..])
  }

  function TxtBytes(data: Str): Option<seq<byte>> {
    var segments := Segments(data);
    if segments != [] && SegmentsFit(segments) then Some(SegmentBytes(segments)) else None
  }

  lemma {:induction false} SegmentBytesSnoc(done: seq<Str>, piece: Str)
    requires SegmentsFit(done) && |piece| <= MAX_SEGMENT
    ensures SegmentsFit(done + [piece])
    ensures SegmentBytes(done + [piece]) == SegmentBytes(done) + [|piece|] + piece
  {
    var more := done + [piece];
    if done == [] {
      assert more[1..] == [];
    } else {
      assert more[1..] == done[1..] + [piece];
      SegmentBytesSnoc(done[1..], piece);
    }
  }

  method EncodeTXTData(data: Str) returns (r: Option<seq<byte>>)
    ensures r == TxtBytes(data)
  {
    var segments := Split(data, SEMICOLONS);
    var encoded: seq<byte> := [];
    ghost var done: seq<Str> := [];
    for i := 0 to |segments|
      invariant SegmentsFit(done) && encoded == SegmentBytes(done) && (encoded == [] <==> done == [])
      invariant Segments(data) == done + NonEmpty(TrimAll(segments[i..]))
    {
      var segment := Trim(segments[i], SPACES);
      assert segments[i..][0] == segments[i] && segments[i..][1..] == segments[i + 1..];
      assert TrimAll(segments[i..])[1..] == TrimAll(segments[i + 1..]);
      if segment == [] {
        continue;
      }
      assert Segments(data)[|done|] == segment;
      if |segment| > MAX_SEGMENT {
        return None;
      }
      SegmentBytesSnoc(done, segment);
      encoded := encoded + [|segment|] + segment;
      done := done + [segment];
    }
    assert Segments(data) == done;
    if |encoded| == 0 {
      return None;
    }
    r := Some(encoded);
  }

  const SEMICOLON_SPACE: Str := [SEMICOLON, SPACE]

  /** The segments read as length-prefixed strings are; a zero length or the end of the data ends them. */
  function TxtText(b: seq<byte>): Decoding {
    match ReadLabels(b, 0)
    case None => Invalid
    case Some(segments) => Text(Join(segments, SEMICOLON_SPACE))
  }

  method DecodeTXTData(b: seq<byte>) returns (r: Decoding)
    ensures r == TxtText(b)
  {
    var segments: seq<Str> := [];
    var i := 0;
    assert ReadLabels(b, 0).Some? ==> [] + ReadLabels(b, 0).value == ReadLabels(b, 0).value;
    while i < |b|
      invariant 0 <= i <= |b|
      invariant ReadLabels(b, 0) == Prepend(segments, ReadLabels(b, i))
    {
      var length := b[i];
      i := i + 1;
      if length == 0 {
        break;
      }
      if i + length > |b| {
        return Invalid;
      }
      ghost var rest := ReadLabels(b, i + length);
      assert rest.Some? ==> segments + [b[i..i + length]] + rest.value == segments + ([b[i..i + length]] + rest.value);
      segments := segments + [b[i..i + length]];
      i := i + length;
    }
    assert segments + [] == segments;
    r := Text(Join(segments, SEMICOLON_SPACE));
  }

  lemma {:induction false} ReadOfSegments(b: seq<byte>, at: nat, segments: seq<Str>)
    requires SegmentsFit(segments) && NoneEmpty(segments)
    requires Has(b, at, SegmentBytes(segments)) && at + |SegmentBytes(segments)| == |b|
    ensures ReadLabels(b, at) == Some(segments)
    decreases |segments|
  {
    if segments != [] {
      var head := [|segments[0]|] + segments[0];
      var next := at + |head|;
      HasSplit(b, at, head, SegmentBytes(segments[1..]));
      assert b[at] == b[at..next][0] == |segments[0]|;
      assert b[at + 1..next] == b[at..next][1..] == segments[0];
      ReadOfSegments(b, next, segments[1..]);
      assert segments[0] != [] && [segments[0]] + segments[1..] == segments;
    }
  }

  predicate AllTrimmed(parts: seq<Str>) {
    forall i | 0 <= i < |parts| :: Trimmed(parts[i], SPACES)
  }

  lemma {:induction false} TrimAllSpec(parts: seq<Str>, x: set<byte>)
    requires AllFree(parts, x)
    ensures AllTrimmed(TrimAll(parts)) && AllFree(TrimAll(parts), x)
  {
    if parts != [] {
      TrimSpec(parts[0], SPACES);
      TrimFree(parts[0], SPACES, x);
      TrimAllSpec(parts[1..], x);
    }
  }

  lemma {:induction false} NonEmptyTrimmed(parts: seq<Str>)
    requires AllTrimmed(parts)
    ensures AllTrimmed(NonEmpty(parts))
  {
    if parts != [] {
      NonEmptyTrimmed(parts[1..]);
    }
  }

  lemma SegmentsSpec(data: Str)
    ensures var s := Segments(data); NoneEmpty(s) && AllTrimmed(s) && AllFree(s, SEMICOLONS)
  {
    var parts := Split(data, SEMICOLONS);
    SplitPieces(data, SEMICOLONS, {});
    TrimAllSpec(parts, SEMICOLONS);
    NonEmptyTrimmed(TrimAll(parts));
    NonEmptyFree(TrimAll(parts), SEMICOLONS);
  }

  lemma TrimAfterSpace(s: Str)
    requires Trimmed(s, SPACES)
    ensures Trim([SPACE] + s, SPACES) == s
  {
    assert ([SPACE] + s)[1..] == s;
    TrimSpec(s, SPACES);
  }

  /** Between the separators of the joined text stand the segments, all but the first after a space. */
  lemma {:induction false} SegmentsOfJoin(front: Str, segments: seq<Str>)
    requires front == [] || front == [SPACE]
    requires segments != [] && NoneEmpty(segments) && AllTrimmed(segments) && AllFree(segments, SEMICOLONS)
    ensures Segments(front + Join(segments, SEMICOLON_SPACE)) == segments
    decreases |segments|
  {
    hide Segments, Trim, Join;
    var head, rest := front + segments[0], segments[1..];
    assert Free(segments[0], SEMICOLONS) && Trimmed(segments[0], SPACES) && segments[0] != [];
    assert Free(head, SEMICOLONS) && segments == [segments[0]] + rest;
    assert Trim(head, SPACES) == segments[0] by {
      TrimAfterSpace(segments[0]);
      TrimSpec(segments[0], SPACES);
      assert [] + segments[0] == segments[0];
    }
    JoinCons(segments[0], rest, SEMICOLON_SPACE);
    if rest == [] {
      SegmentsOfOne(head);
    } else {
      var tail := [SPACE] + Join(rest, SEMICOLON_SPACE);
      SegmentsOfJoin([SPACE], rest);
      SegmentsCons(head, tail);
      assert front + Join(segments, SEMICOLON_SPACE) == head + [SEMICOLON] + tail;
    }
  }

  lemma SegmentsOfOne(head: Str)
    requires Free(head, SEMICOLONS) && Trim(head, SPACES) != []
    ensures Segments(head) == [Trim(head, SPACES)]
  {
    hide Trim;
    var piece := Trim(head, SPACES);
    SplitWithoutSeparator(head, SEMICOLONS);
    assert TrimAll([head][1..]) == [];
    assert TrimAll([head]) == [piece];
    assert NonEmpty([piece][1..]) == [];
  }

  lemma SegmentsCons(head: Str, tail: Str)
    requires Free(head, SEMICOLONS) && Trim(head, SPACES) != []
    ensures Segments(head + [SEMICOLON] + tail) == [Trim(head, SPACES)] + Segments(tail)
  {
    hide Trim, Split;
    var piece, pieces := Trim(head, SPACES), Split(tail, SEMICOLONS);
    SplitWithoutSeparator(head, SEMICOLONS);
    SplitAtSeparator(head, SEMICOLON, tail, SEMICOLONS);
    assert ([head] + pieces)[1..] == pieces;
    var trimmed := [piece] + TrimAll(pieces);
    assert TrimAll([head] + pieces) == trimmed;
    assert trimmed[1..] == TrimAll(pieces);
  }

  /** An accepted TXT text decodes to its segments, joined in one way, and that text encodes to the same bytes. */
  lemma TxtRoundTrip(data: Str)
    requires TxtBytes(data).Some?
    ensures var w := TxtBytes(data).value;
            && TxtText(w) == Text(Join(Segments(data), SEMICOLON_SPACE))
            && TxtBytes(TxtText(w).text) == Some(w)
  {
    var segments := Segments(data);
    var w := SegmentBytes(segments);
    SegmentsSpec(data);
    assert w[0..|w|] == w;
    ReadOfSegments(w, 0, segments);
    SegmentsOfJoin([], segments);
    assert [] + Join(segments, SEMICOLON_SPACE) == Join(segments, SEMICOLON_SPACE);
  }

  /** The segments of a text given by its pieces between semicolons, and every text has some. */
  lemma SegmentsMean(parts: seq<Str>)
    requires parts != [] && AllFree(parts, SEMICOLONS)
    ensures Segments(Join(parts, [SEMICOLON])) == NonEmpty(TrimAll(parts))
  {
    SplitOfJoin(parts, SEMICOLON, SEMICOLONS);
  }

  /**
    Which texts are TXT data, and for which bytes: those with a segment, and none above 255 bytes; each has its length
    before it, and nothing follows.
   */
  lemma TxtExactly(data: Str, w: seq<byte>)
    ensures var s := Segments(data);
            TxtBytes(data) == Some(w) <==> s != [] && LabelsLie(w, 0, s) && |w| == Total(s) + |s|
  {
    var s := Segments(data);
    hide Segments;
    SegmentsSpec(data);
    if SegmentsFit(s) {
      SegmentsLie([], s);
      assert [] + SegmentBytes(s) == SegmentBytes(s);
    }
    if LabelsLie(w, 0, s) && |w| == Total(s) + |s| {
      LyingSegments(w, 0, s);
      assert w[0..] == w;
    }
  }

  lemma {:induction false} SegmentsLie(before: seq<byte>, segments: seq<Str>)
    requires SegmentsFit(segments) && NoneEmpty(segments)
    ensures LabelsLie(before + SegmentBytes(segments), |before|, segments)
    ensures |SegmentBytes(segments)| == Total(segments) + |segments|
    decreases |segments|
  {
    if segments != [] {
      var head := [|segments[0]|] + segments[0];
      var rest := SegmentBytes(segments[1..]);
      assert segments[0] != [];
      SegmentsLie(before + head, segments[1..]);
      var w := before + SegmentBytes(segments);
      assert w == before + head + rest;
      assert w[|before|..|before| + |head|] == head;
    }
  }

  lemma {:induction false} LyingSegments(w: seq<byte>, at: nat, segments: seq<Str>)
    requires LabelsLie(w, at, segments) && |w| == at + Total(segments) + |segments|
    ensures SegmentsFit(segments) && w[at..] == SegmentBytes(segments)
    decreases |segments|
  {
    if segments != [] {
      var next := at + 1 + |segments[0]|;
      LyingSegments(w, next, segments[1..]);
      assert w[at..] == w[at..next] + w[next..];
      forall i | 0 <= i < |segments| ensures |segments[i]| <= MAX_SEGMENT {
        assert i > 0 ==> segments[i] == segments[1..][i - 1];
      }
    }
  }

  /** Which bytes decode as TXT data: segments with their lengths, up to a zero byte or the end. */
  lemma TxtTextExactly(b: seq<byte>, text: Str)
    ensures TxtText(b) == Text(text) <==> exists s :: LabelsLie(b, 0, s) && text == Join(s, [SEMICOLON, SPACE])
  {
    hide ReadLabels, LabelsLie, Join;
    forall s ensures ReadLabels(b, 0) == Some(s) <==> LabelsLie(b, 0, s) {
      ReadsExactly(b, 0, s);
    }
    if TxtText(b) == Text(text) {
      assert LabelsLie(b, 0, ReadLabels(b, 0).value);
    }
  }

  // ---------- CAA: a flag byte, a tag, a value in quotes ----------

  function CaaValue(parts: seq<Str>): Str
    requires |parts| >= 3
  {
    Trim(Join(parts[2..], [SPACE]), QUOTES)
  }

  function CaaWire(flag: byte, tag: Str, value: Str): seq<byte>
    requires |tag| <= 255
  {
    [flag, |tag|] + tag + value
  }

  function CaaBytes(data: Str): Option<seq<byte>> {
    var parts := Fields(data);
    if |parts| < 3 then None
    else match ParseUint(parts[0], 255)
      case None => None
      case Some(flag) =>
        if |parts[1]| > 255 || |CaaValue(parts)| > 255 then None
        else Some(CaaWire(flag, parts[1], CaaValue(parts)))
  }

  method EncodeCAAData(data: Str) returns (r: Option<seq<byte>>)
    ensures r == CaaBytes(data)
  {
    var parts := Fields(data);
    if |parts| < 3 {
      return None;
    }
    var flag := ParseUint(parts[0], 255);
    if flag.None? {
      return None;
    }
    var tag := parts[1];
    if |tag| > 255 {
      return None;
    }
    var rawValue := Join(parts[2..], [SPACE]);
    var value := Trim(rawValue, QUOTES);
    if |value| > 255 {
      return None;
    }
    var encoded := [flag.value, |tag|];
    encoded := encoded + tag;
    encoded := encoded + value;
    r := Some(encoded);
  }

  function Quoted(value: Str): Str {
    [QUOTE] + value + [QUOTE]
  }

  function CaaNormal(flag: byte, tag: Str, value: Str): Str {
    FormatDec(flag) + [SPACE] + tag + [SPACE] + Quoted(value)
  }

  /** The offset of the value is a byte, so it wraps around for the two longest tags. */
  function CaaText(data: seq<byte>): Decoding {
    if |data| < 2 then Invalid
    else
      var end := (2 + data[1] as int) % 256;
      if |data| < end then Invalid
      else if end < 2 then Panics
      else Text(CaaNormal(data[0], data[2..end], data[end..]))
  }

  method DecodeCAAData(data: seq<byte>) returns (r: Decoding)
    ensures r == CaaText(data)
  {
    if |data| < 2 {
      return Invalid;
    }
    var flag := data[0];
    var tagLen := data[1];
    var end := (2 + tagLen as int) % 256;
    if |data| < end {
      return Invalid;
    }
    if end < 2 {
      return Panics;
    }
    var tag := data[2..end];
    var value := data[end..];
    r := Text(FormatDec(flag) + [SPACE] + tag + [SPACE] + ([QUOTE] + value + [QUOTE]));
  }

  /** Only the two longest tags make the decoder panic. */
  lemma CaaPanicsExactly(data: seq<byte>)
    ensures CaaText(data) == Panics <==> |data| >= 2 && data[1] >= 254
  {
    hide CaaNormal;
  }

  /**
    Which texts are CAA data, and for which bytes: a numeral of a byte, a tag, and more fields, the value once
    joined by spaces and stripped of quotes, of at most 255 bytes like the tag.
   */
  lemma CaaExactly(data: Str, w: seq<byte>)
    ensures CaaBytes(data) == Some(w) <==>
            var parts := Fields(data);
            && |parts| >= 3 && |w| >= 2 && Numeral(parts[0], w[0]) && |parts[1]| == w[1] as int
            && |w| >= 2 + |parts[1]| && w[2..2 + |parts[1]|] == parts[1]
            && w[2 + |parts[1]|..] == Trim(Join(parts[2..], [SPACE]), {34}) && |w| - 2 - |parts[1]| <= 255
  {
    hide Fields, Trim, Join, Numeral, ParseUint;
    var parts := Fields(data);
    if |parts| >= 3 {
      if |w| >= 2 {
        ParseUintExactly(parts[0], 255, w[0]);
      }
      if CaaBytes(data) == Some(w) {
        var tag, value := parts[1], CaaValue(parts);
        assert w[2..2 + |tag|] == tag && w[2 + |tag|..] == value;
      }
      if |w| >= 2 + |parts[1]| {
        assert w == [w[0], w[1]] + w[2..2 + |parts[1]|] + w[2 + |parts[1]|..];
      }
    }
  }

  /** A flag, a tag with its length, and a value. */
  predicate CaaLies(b: seq<byte>, tag: Str, value: Str) {
    |tag| <= 253 && |b| == 2 + |tag| + |value| && b[1] == |tag| && b[2..2 + |tag|] == tag && b[2 + |tag|..] == value
  }

  /** Which bytes decode as CAA data: a flag, the tag with its length, of at most 253 bytes, and the value. */
  lemma CaaTextExactly(b: seq<byte>, text: Str)
    ensures CaaText(b) == Text(text) <==>
            exists tag, value :: CaaLies(b, tag, value) &&
              text == FormatDec(b[0]) + [SPACE] + tag + [SPACE] + ([QUOTE] + value + [QUOTE])
  {
    hide CaaNormal, FormatDec;
    if CaaText(b).Text? {
      var end := 2 + b[1];
      assert CaaLies(b, b[2..end], b[end..]);
      NormalMeans(b[0], b[2..end], b[end..]);
    }
    if exists tag, value :: CaaLies(b, tag, value) {
      var tag, value :| CaaLies(b, tag, value);
      assert CaaText(b) == Text(CaaNormal(b[0], tag, value));
      NormalMeans(b[0], tag, value);
    }
  }

  lemma NormalMeans(flag: byte, tag: Str, value: Str)
    ensures CaaNormal(flag, tag, value) ==
            FormatDec(flag) + [SPACE] + tag + [SPACE] + ([QUOTE] + value + [QUOTE])
  {
  }

  /** Words with single spaces between them. */
  predicate Spaced(s: Str) {
    Fields(s) != [] && Join(Fields(s), [SPACE]) == s
  }

  lemma SpacedWords(words: seq<Str>)
    requires words != [] && AllFree(words, SPACES) && NoneEmpty(words)
    ensures Spaced(Join(words, [SPACE]))
  {
    FieldsOfJoin(words);
  }

  lemma {:induction false} TrimLeftFirstWord(w: Str, rest: Str)
    ensures TrimLeft(w + [SPACE] + rest, QUOTES) == TrimLeft(w, QUOTES) + [SPACE] + rest
  {
    var s := w + [SPACE] + rest;
    if w != [] && w[0] in QUOTES {
      assert s[0] == w[0] && s[1..] == w[1..] + [SPACE] + rest;
      TrimLeftFirstWord(w[1..], rest);
    } else {
      assert s[0] !in QUOTES;
    }
  }

  lemma {:induction false} TrimRightLastWord(front: Str, w: Str)
    ensures TrimRight(front + [SPACE] + w, QUOTES) == front + [SPACE] + TrimRight(w, QUOTES)
    decreases |w|
  {
    var s := front + [SPACE] + w;
    if w != [] && w[|w| - 1] in QUOTES {
      assert s[|s| - 1] == w[|w| - 1] && s[..|s| - 1] == front + [SPACE] + w[..|w| - 1];
      TrimRightLastWord(front, w[..|w| - 1]);
    } else if w == [] {
      assert s[|s| - 1] == SPACE;
    } else {
      assert s[|s| - 1] == w[|w| - 1];
    }
  }

  /** Trimming quotes off a spaced text and putting one back at each end leaves it spaced. */
  lemma RequotedIsSpaced(words: seq<Str>)
    requires words != [] && AllFree(words, SPACES) && NoneEmpty(words)
    ensures Spaced(Quoted(Trim(Join(words, [SPACE]), QUOTES)))
  {
    var n := |words|;
    if n == 1 {
      var v := Trim(words[0], QUOTES);
      assert Free(words[0], SPACES);
      TrimFree(words[0], QUOTES, SPACES);
      FieldsOfWord(Quoted(v));
    } else {
      var first, last := TrimLeft(words[0], QUOTES), TrimRight(words[n - 1], QUOTES);
      var middle := words[1..n - 1];
      var requoted := [[QUOTE] + first] + middle + [last + [QUOTE]];
      RequotedWords(words, first, middle, last);
      TrimWords(words, first, middle, last);
      SpacedWords(requoted);
    }
  }

  lemma RequotedWords(words: seq<Str>, first: Str, middle: seq<Str>, last: Str)
    requires |words| >= 2 && AllFree(words, SPACES) && NoneEmpty(words)
    requires first == TrimLeft(words[0], QUOTES) && last == TrimRight(words[|words| - 1], QUOTES)
    requires middle == words[1..|words| - 1]
    ensures var requoted := [[QUOTE] + first] + middle + [last + [QUOTE]];
            AllFree(requoted, SPACES) && NoneEmpty(requoted)
  {
    hide TrimLeft, TrimRight;
    assert Free(first, SPACES) by {
      TrimLeftIsSuffix(words[0], QUOTES);
      assert Free(words[0], SPACES);
    }
    assert Free(last, SPACES) by {
      TrimRightIsPrefix(words[|words| - 1], QUOTES);
      assert Free(words[|words| - 1], SPACES);
    }
    assert Free([QUOTE] + first, SPACES) && Free(last + [QUOTE], SPACES);
    var requoted := [[QUOTE] + first] + middle + [last + [QUOTE]];
    forall i | 0 <= i < |requoted| ensures Free(requoted[i], SPACES) && requoted[i] != [] {
      if 0 < i < |requoted| - 1 {
        assert requoted[i] == words[i];
      }
    }
  }

  lemma TrimWords(words: seq<Str>, first: Str, middle: seq<Str>, last: Str)
    requires |words| >= 2
    requires first == TrimLeft(words[0], QUOTES) && last == TrimRight(words[|words| - 1], QUOTES)
    requires middle == words[1..|words| - 1]
    ensures Quoted(Trim(Join(words, [SPACE]), QUOTES)) == Join([[QUOTE] + first] + middle + [last + [QUOTE]], [SPACE])
  {
    hide Join, TrimLeft, TrimRight;
    var sep: Str := [SPACE];
    var w := words[|words| - 1];
    assert words == [words[0]] + (middle + [w]);
    TrimFirst(words[0], middle + [w]);
    assert [first] + (middle + [w]) == ([first] + middle) + [w];
    TrimLast([first] + middle, w);
    QuoteLast([first] + middle, last);
    assert ([first] + middle) + [last + [QUOTE]] == [first] + (middle + [last + [QUOTE]]);
    QuoteFirst(first, middle + [last + [QUOTE]]);
    assert [[QUOTE] + first] + (middle + [last + [QUOTE]]) == [[QUOTE] + first] + middle + [last + [QUOTE]];
    var v := Join(([first] + middle) + [last], sep);
    assert [QUOTE] + v + [QUOTE] == [QUOTE] + (v + [QUOTE]);
  }

  lemma TrimFirst(w: Str, rest: seq<Str>)
    requires rest != []
    ensures TrimLeft(Join([w] + rest, [SPACE]), QUOTES) == Join([TrimLeft(w, QUOTES)] + rest, [SPACE])
  {
    JoinCons(w, rest, [SPACE]);
    JoinCons(TrimLeft(w, QUOTES), rest, [SPACE]);
    TrimLeftFirstWord(w, Join(rest, [SPACE]));
  }

  lemma TrimLast(front: seq<Str>, w: Str)
    requires front != []
    ensures TrimRight(Join(front + [w], [SPACE]), QUOTES) == Join(front + [TrimRight(w, QUOTES)], [SPACE])
  {
    JoinSnoc(front, w, [SPACE]);
    JoinSnoc(front, TrimRight(w, QUOTES), [SPACE]);
    TrimRightLastWord(Join(front, [SPACE]), w);
  }

  lemma QuoteFirst(w: Str, rest: seq<Str>)
    requires rest != []
    ensures [QUOTE] + Join([w] + rest, [SPACE]) == Join([[QUOTE] + w] + rest, [SPACE])
  {
    JoinCons(w, rest, [SPACE]);
    JoinCons([QUOTE] + w, rest, [SPACE]);
  }

  lemma QuoteLast(front: seq<Str>, w: Str)
    requires front != []
    ensures Join(front + [w], [SPACE]) + [QUOTE] == Join(front + [w + [QUOTE]], [SPACE])
  {
    JoinSnoc(front, w, [SPACE]);
    JoinSnoc(front, w + [QUOTE], [SPACE]);
  }

  lemma TrimQuoted(v: Str)
    requires Trimmed(v, QUOTES)
    ensures Trim(Quoted(v), QUOTES) == v
  {
    OpenQuote(v + [QUOTE]);
    assert Quoted(v) == [QUOTE] + (v + [QUOTE]);
    if v == [] {
      OpenQuote([]);
      assert v + [QUOTE] == [QUOTE] + [];
    } else {
      assert (v + [QUOTE])[0] == v[0];
      CloseQuote(v);
    }
  }

  lemma OpenQuote(s: Str)
    ensures TrimLeft([QUOTE] + s, QUOTES) == TrimLeft(s, QUOTES)
  {
    assert ([QUOTE] + s)[1..] == s;
  }

  lemma CloseQuote(s: Str)
    ensures TrimRight(s + [QUOTE], QUOTES) == TrimRight(s, QUOTES)
  {
    assert (s + [QUOTE])[..|s|] == s;
  }

  /** A quoted text in normal form encodes to the bytes it came from. */
  lemma CaaReencodes(flag: byte, tag: Str, v: Str)
    requires |tag| <= 255 && tag != [] && Free(tag, SPACES)
    requires |v| <= 255 && Trimmed(v, QUOTES) && Spaced(Quoted(v))
    ensures CaaBytes(CaaNormal(flag, tag, v)) == Some(CaaWire(flag, tag, v))
  {
    hide Fields;
    var f, q := FormatDec(flag), Quoted(v);
    ParseOfFormat(flag);
    FieldsAtSpace(f + [SPACE] + tag, q);
    FieldsAtSpace(f, tag);
    FieldsOfWord(f);
    FieldsOfWord(tag);
    var parts := Fields(CaaNormal(flag, tag, v));
    assert parts == [f, tag] + Fields(q);
    assert parts[2..] == Fields(q);
    TrimQuoted(v);
  }

  /**
    An accepted CAA text with a tag of at most 253 bytes decodes to its normal form, which encodes to the same
    bytes.  With the two longer tags that are accepted the decoder slices out of bounds.
   */
  lemma CaaRoundTrip(data: Str)
    requires CaaBytes(data).Some?
    ensures var w, parts := CaaBytes(data).value, Fields(data);
            && (|parts[1]| <= 253 ==>
                && CaaText(w) == Text(CaaNormal(ParseUint(parts[0], 255).value, parts[1], CaaValue(parts)))
                && CaaBytes(CaaText(w).text) == Some(w))
            && (|parts[1]| > 253 ==> CaaText(w) == Panics)
  {
    hide Fields, Spaced, Trim, Join;
    var parts := Fields(data);
    var flag, tag, v := ParseUint(parts[0], 255).value, parts[1], CaaValue(parts);
    var w := CaaWire(flag, tag, v);
    assert w[2..] == tag + v;
    if |tag| <= 253 {
      assert w[2..2 + |tag|] == tag && w[2 + |tag|..] == v;
      FieldsAreWords(data);
      assert tag != [] && Free(tag, SPACES);
      RequotedIsSpaced(parts[2..]);
      TrimSpec(Join(parts[2..], [SPACE]), QUOTES);
      CaaReencodes(flag, tag, v);
    }
  }
}
