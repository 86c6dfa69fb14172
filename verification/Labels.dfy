/** Length-prefixed labels, the form of names on the wire (section 3.1 of RFC 1035), and the RDATA name codec. */
module Labels {
  import opened Wrappers
  import opened Strings
  import opened Numbers
  import opened Names

  const MAX_LABEL := 63

  predicate Short(labels: seq<Str>) {
    forall i | 0 <= i < |labels| :: |labels[i]| <= MAX_LABEL
  }

  /** A length byte and the label. */
  function LabelWire(piece: Str): seq<byte>
    requires |piece| <= MAX_LABEL
  {
    [|piece|] + piece
  }

  function LabelBytes(labels: seq<Str>): seq<byte>
    requires Short(labels)
  {
    if labels == [] then [] else LabelWire(labels[0]) + LabelBytes(labels[1..])
  }

  /** The labels in wire form, closed by the zero byte. */
  function WireName(labels: seq<Str>): seq<byte>
    requires Short(labels)
  {
    LabelBytes(labels) + [0]
  }

  lemma WireNameCons(piece: Str, rest: seq<Str>)
    requires |piece| <= MAX_LABEL && Short(rest)
    ensures Short([piece] + rest) && WireName([piece] + rest) == LabelWire(piece) + WireName(rest)
  {
    assert ([piece] + rest)[1..] == rest;
  }

  lemma {:induction false} LabelBytesAppend(a: seq<Str>, b: seq<Str>)
    requires Short(a) && Short(b)
    ensures Short(a + b) && LabelBytes(a + b) == LabelBytes(a) + LabelBytes(b)
  {
    if a == [] {
      assert a + b == b;
    } else {
      LabelBytesAppend(a[1..], b);
      assert (a + b)[1..] == a[1..] + b;
      var head := LabelWire(a[0]);
      assert head + (LabelBytes(a[1..]) + LabelBytes(b)) == head + LabelBytes(a[1..]) + LabelBytes(b);
    }
  }

  lemma LabelBytesSnoc(done: seq<Str>, piece: Str)
    requires Short(done) && |piece| <= MAX_LABEL
    ensures Short(done + [piece]) && LabelBytes(done + [piece]) == LabelBytes(done) + [|piece|] + piece
  {
    LabelBytesAppend(done, [piece]);
    assert LabelBytes([piece]) == LabelWire(piece) + LabelBytes([piece][1..]) == LabelWire(piece);
  }

  lemma {:induction false} LabelBytesSize(labels: seq<Str>)
    requires Short(labels)
    ensures |LabelBytes(labels)| == Total(labels) + |labels|
  {
    if labels != [] {
      LabelBytesSize(labels[1..]);
    }
  }

  /** An encoded non-root name is two bytes longer than its dotted text; the root is one byte. */
  lemma WireNameSize(labels: seq<Str>)
    requires Short(labels)
    ensures |WireName(labels)| == if labels == [] then 1 else |Join(labels, [DOT])| + 2
  {
    LabelBytesSize(labels);
    if labels != [] {
      JoinSize(labels, [DOT]);
    }
  }

  /** What an RDATA decoder makes of its data; `Panics` is a slice bound out of range. */
  datatype Decoding = Text(text: Str) | Invalid | Panics

  // ---------- rrdata.encodeDomainName and decodeDomainName ----------

  /** The labels a name's text stands for: the non-empty pieces of its canonical form. */
  function NameLabels(name: Str): seq<Str> {
    NonEmpty(Split(Canonical(name), DOTS))
  }

  /** `None` is the label-too-long error. */
  function NameBytes(name: Str): Option<seq<byte>> {
    if Short(NameLabels(name)) then Some(WireName(NameLabels(name))) else None
  }

  method EncodeDomainName(name: Str) returns (r: Option<seq<byte>>)
    ensures r == NameBytes(name)
  {
    var canonical := CanonicalDNSName(name);
    var labels := Split(canonical, DOTS);
    var encoded: seq<byte> := [];
    ghost var done: seq<Str> := [];
    for i := 0 to |labels|
      invariant Short(done) && encoded == LabelBytes(done)
      invariant NameLabels(name) == done + NonEmpty(labels[i..])
    {
      var piece := labels[i];
      if |piece| == 0 {
        continue;
      }
      assert labels[i..][0] == piece;
      assert NameLabels(name)[|done|] == piece;
      if |piece| > MAX_LABEL {
        return None;
      }
      LabelBytesSnoc(done, piece);
      encoded := encoded + [|piece|];
      encoded := encoded + piece;
      done := done + [piece];
    }
    assert NameLabels(name) == done;
    r := Some(encoded + [0]);
  }

  /** The labels read from `b` at `i`; the end of the data also ends the name. */
  function ReadLabels(b: seq<byte>, i: nat): Option<seq<Str>>
    decreases |b| - i
  {
    if i >= |b| || b[i] == 0 then Some([])
    else if i + 1 + b[i] > |b| then None
    else Prepend([b[i + 1..i + 1 + b[i]]], ReadLabels(b, i + 1 + b[i]))
  }

  function Prepend(labels: seq<Str>, rest: Option<seq<Str>>): Option<seq<Str>> {
    match rest
    case None => None
    case Some(more) => Some(labels + more)
  }

  /** `None` is the invalid-encoding error. */
  function NameText(b: seq<byte>): Option<Str> {
    match ReadLabels(b, 0)
    case None => None
    case Some(labels) => Some(Join(labels, [DOT]))
  }

  method DecodeDomainName(b: seq<byte>) returns (r: Option<Str>)
    ensures r == NameText(b)
  {
    var labels: seq<Str> := [];
    var i := 0;
    assert ReadLabels(b, 0).Some? ==> [] + ReadLabels(b, 0).value == ReadLabels(b, 0).value;
    while i < |b|
      invariant 0 <= i <= |b|
      invariant ReadLabels(b, 0) == Prepend(labels, ReadLabels(b, i))
    {
      var labelLen := b[i];
      if labelLen == 0 {
        break;
      }
      i := i + 1;
      if i + labelLen > |b| {
        return None;
      }
      ghost var rest := ReadLabels(b, i + labelLen);
      assert rest.Some? ==> labels + [b[i..i + labelLen]] + rest.value == labels + ([b[i..i + labelLen]] + rest.value);
      labels := labels + [b[i..i + labelLen]];
      i := i + labelLen;
    }
    assert labels + [] == labels;
    r := Some(Join(labels, [DOT]));
  }

  /** Wherever non-empty labels stand in wire form, reading from there gives exactly them. */
  lemma {:induction false} ReadOfWire(b: seq<byte>, at: nat, labels: seq<Str>)
    requires Short(labels) && NoneEmpty(labels) && Has(b, at, WireName(labels))
    ensures ReadLabels(b, at) == Some(labels)
    decreases |labels|
  {
    if labels == [] {
      assert b[at] == b[at..at + 1][0];
    } else {
      var head := LabelWire(labels[0]);
      var next := at + |head|;
      WireNameCons(labels[0], labels[1..]);
      assert [labels[0]] + labels[1..] == labels;
      hide WireName, LabelBytes;
      HasSplit(b, at, head, WireName(labels[1..]));
      assert b[at] == b[at..next][0] == |labels[0]|;
      assert b[at + 1..next] == b[at..next][1..] == labels[0];
      ReadOfWire(b, next, labels[1..]);
      assert labels[0] != [] && [labels[0]] + labels[1..] == labels;
    }
  }

  /** Labels with a length byte each stand here, up to a zero byte or the end of the data. */
  predicate LabelsLie(b: seq<byte>, at: nat, labels: seq<Str>)
    decreases |labels|
  {
    if labels == [] then at >= |b| || b[at] == 0
    else
      && 0 < |labels[0]| < 256 && Has(b, at, [|labels[0]|] + labels[0])
      && LabelsLie(b, at + 1 + |labels[0]|, labels[1..])
  }

  lemma {:induction false} LabelsAreRead(b: seq<byte>, at: nat, labels: seq<Str>)
    requires LabelsLie(b, at, labels)
    ensures ReadLabels(b, at) == Some(labels)
    decreases |labels|
  {
    if labels != [] {
      var next := at + 1 + |labels[0]|;
      assert b[at] == b[at..next][0] && b[at + 1..next] == b[at..next][1..];
      LabelsAreRead(b, next, labels[1..]);
      assert [labels[0]] + labels[1..] == labels;
    }
  }

  lemma {:induction false} ReadLabelsLie(b: seq<byte>, at: nat)
    requires ReadLabels(b, at).Some?
    ensures LabelsLie(b, at, ReadLabels(b, at).value)
    decreases |b| - at
  {
    if at < |b| && b[at] != 0 {
      var next := at + 1 + b[at];
      ReadLabelsLie(b, next);
      assert b[at..next] == [b[at]] + b[at + 1..next];
      assert ReadLabels(b, at).value[1..] == ReadLabels(b, next).value;
    }
  }

  /** Reading labels succeeds exactly where some stand, and gives these. */
  lemma ReadsExactly(b: seq<byte>, at: nat, labels: seq<Str>)
    ensures ReadLabels(b, at) == Some(labels) <==> LabelsLie(b, at, labels)
  {
    hide ReadLabels, LabelsLie;
    if ReadLabels(b, at) == Some(labels) {
      ReadLabelsLie(b, at);
    }
    if LabelsLie(b, at, labels) {
      LabelsAreRead(b, at, labels);
    }
  }

  /** The RDATA name decoder succeeds exactly where labels stand, and joins them. */
  lemma NameTextExactly(b: seq<byte>, text: Str)
    ensures NameText(b) == Some(text) <==> exists labels :: LabelsLie(b, 0, labels) && text == Join(labels, [DOT])
  {
    hide ReadLabels, LabelsLie;
    forall labels ensures ReadLabels(b, 0) == Some(labels) <==> LabelsLie(b, 0, labels) {
      ReadsExactly(b, 0, labels);
    }
    if NameText(b) == Some(text) {
      assert LabelsLie(b, 0, ReadLabels(b, 0).value);
    }
  }

  /** The RDATA name encoder takes labels of at most 63 bytes. */
  lemma NameBytesExactly(name: Str)
    ensures NameLabels(name) == NonEmpty(Split(Canonical(name), DOTS))
    ensures NameBytes(name).Some? <==> forall i | 0 <= i < |NameLabels(name)| :: |NameLabels(name)[i]| <= 63
  {
  }

  lemma NameLabelsSpec(name: Str)
    ensures var labels := NameLabels(name); NoneEmpty(labels) && AllFree(labels, DOTS) && AllFree(labels, UPPER)
  {
    CanonicalSpec(name);
    SplitPieces(Canonical(name), DOTS, UPPER);
    NonEmptyFree(Split(Canonical(name), DOTS), DOTS);
    NonEmptyFree(Split(Canonical(name), DOTS), UPPER);
  }

  /** Dotted text of non-empty, dot-free, lower-case labels stands for them, unless a space is at one of its ends. */
  lemma NameLabelsOfJoin(labels: seq<Str>)
    requires NoneEmpty(labels) && AllFree(labels, DOTS) && AllFree(labels, UPPER)
    ensures var text := Join(labels, [DOT]);
            && (Trimmed(text, SPACES) ==> Canonical(text) == text && NameLabels(text) == labels)
            && (!Trimmed(text, SPACES) ==> NameLabels(text) != labels)
  {
    var text := Join(labels, [DOT]);
    if labels == [] {
      assert Canonical(text) == [] by { CanonicalFixed(text); }
      assert Split([], DOTS) == [[]] && NonEmpty([[]][1..]) == [];
      return;
    }
    JoinFree(labels, [DOT], UPPER);
    JoinEnds(labels, [DOT]);
    if Trimmed(text, SPACES) {
      assert Last(labels[|labels| - 1]) != DOT;
      CanonicalFixed(text);
      SplitOfJoin(labels, DOT, DOTS);
      NonEmptyId(labels);
    } else if NameLabels(text) == labels {
      CanonicalShorter(text);
      SplitSize(Canonical(text), DOTS);
      NonEmptySize(Split(Canonical(text), DOTS));
      JoinSize(labels, [DOT]);
      assert false;
    }
  }

  lemma CanonicalShorter(name: Str)
    requires !Trimmed(name, SPACES)
    ensures |Canonical(name)| < |name|
  {
    var t := Trim(name, SPACES);
    TrimSpec(name, SPACES);
    TrimRightIsPrefix(Lower(t), DOTS);
    assert name[0..|name|] == name;
  }

  /**
    An encoded name decodes to the dotted text of its labels, and encoding that text again gives the same
    bytes exactly when no space stands at either end of it.
   */
  lemma NameRoundTrip(name: Str)
    requires NameBytes(name).Some?
    ensures var text := Join(NameLabels(name), [DOT]);
            && NameText(NameBytes(name).value) == Some(text)
            && (NameBytes(text) == NameBytes(name) <==> Trimmed(text, SPACES))
  {
    var labels := NameLabels(name);
    var w := WireName(labels);
    var text := Join(labels, [DOT]);
    NameLabelsSpec(name);
    assert w[0..|w|] == w;
    ReadOfWire(w, 0, labels);
    NameLabelsOfJoin(labels);
    if NameBytes(text) == Some(w) {
      NameLabelsSpec(text);
      ReadOfWire(w, 0, NameLabels(text));
    }
  }

  /** A name without white space always survives the round trip. */
  lemma SpaceFreeName(name: Str)
    requires Free(name, SPACES) && NameBytes(name).Some?
    ensures var text := Join(NameLabels(name), [DOT]);
            && NameBytes(text) == NameBytes(name)
            && Free(text, SPACES) && Free(text, UPPER)
            && Canonical(text) == text
            && (text == [] <==> NameLabels(name) == [])
  {
    CanonicalFree(name, SPACES);
    SplitPieces(Canonical(name), DOTS, SPACES);
    NonEmptyFree(Split(Canonical(name), DOTS), SPACES);
    var labels := NameLabels(name);
    NameLabelsSpec(name);
    JoinFree(labels, [DOT], SPACES);
    JoinFree(labels, [DOT], UPPER);
    NameRoundTrip(name);
    NameLabelsOfJoin(labels);
    if labels != [] {
      JoinEnds(labels, [DOT]);
    }
  }
}
