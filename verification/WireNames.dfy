/**
  Reading names with compression pointers out of a message (`decodeName`; section 4.1.4 of RFC 1035).
  The decoder follows pointers by calling itself, without counting them, so on some messages it never returns: in Go
  it exhausts the stack, which ends the whole process.  The specification below has `Endless` as a third outcome and
  the lemmas say exactly when it arises.
 */
module WireNames {
  import opened Wrappers
  import opened Strings
  import opened Numbers
  import opened Labels
  import opened Pigeonhole

  datatype NameResult = Decoded(text: Str, end: nat) | Malformed | Endless

  // ---------- Label runs: what one activation of the decoder reads before it jumps ----------

  datatype Stop = Zero | Jump(target: nat) | Broken

  datatype Run = Run(labels: seq<Str>, stop: Stop, end: nat)

  /** The top two bits of the length byte mark a pointer; the low fourteen of the two bytes are its target. */
  predicate IsPointer(length: byte) {
    length >= 0xC0
  }

  function PointerTarget(data: seq<byte>, offset: nat): (t: nat)
    requires offset + 2 <= |data|
    ensures t < 0x4000
  {
    GetU16(data, offset) % 0x4000
  }

  function RunAt(data: seq<byte>, offset: nat): Run
    decreases |data| - offset
  {
    if offset >= |data| then Run([], Broken, offset)
    else if data[offset] == 0 then Run([], Zero, offset + 1)
    else if IsPointer(data[offset]) then
      if offset + 1 >= |data| then Run([], Broken, offset)
      else Run([], Jump(PointerTarget(data, offset)), offset + 2)
    else if offset + 1 + data[offset] > |data| then Run([], Broken, offset)
    else
      Front([data[offset + 1..offset + 1 + data[offset]]], RunAt(data, offset + 1 + data[offset]))
  }

  /** The run with `labels` read before it. */
  function Front(labels: seq<Str>, run: Run): Run {
    run.(labels := labels + run.labels)
  }

  lemma FrontNothing(run: Run)
    ensures Front([], run) == run
  {
    assert [] + run.labels == run.labels;
  }

  lemma FrontOfBare(labels: seq<Str>, stop: Stop, end: nat)
    ensures Front(labels, Run([], stop, end)) == Run(labels, stop, end)
  {
    assert labels + [] == labels;
  }

  lemma FinishPointer(labels: seq<Str>, target: nat, end: nat, data: seq<byte>, hops: nat)
    ensures var result := Finish(Run(labels, Jump(target), end), data, hops);
            if hops == 0 then result.Endless?
            else match NameWithin(data, target, hops - 1)
              case Decoded(suffix, _) => result == Decoded(Join(labels + [suffix], [DOT]), end)
              case failure => result == failure
  {
  }

  lemma FinishBare(data: seq<byte>, hops: nat)
    ensures forall labels, end :: Finish(Run(labels, Broken, end), data, hops) == Malformed
    ensures forall labels, end :: Finish(Run(labels, Zero, end), data, hops) == Decoded(Join(labels, [DOT]), end)
  {
    hide Join;
  }

  lemma FrontMore(labels: seq<Str>, piece: Str, run: Run)
    ensures Front(labels, Front([piece], run)) == Front(labels + [piece], run)
  {
    assert labels + ([piece] + run.labels) == labels + [piece] + run.labels;
  }

  /** The name at `offset`, following at most `hops` pointers. */
  function NameWithin(data: seq<byte>, offset: nat, hops: nat): NameResult {
    Finish(RunAt(data, offset), data, hops)
  }

  /** How a run, with the name its pointer leads to, becomes a result. */
  function Finish(run: Run, data: seq<byte>, hops: nat): NameResult
    decreases hops, 0
  {
    match run.stop
    case Broken => Malformed
    case Zero => Decoded(Join(run.labels, [DOT]), run.end)
    case Jump(target) =>
      if hops == 0 then Endless
      else match Finish(RunAt(data, target), data, hops - 1)
        case Decoded(suffix, _) => Decoded(Join(run.labels + [suffix], [DOT]), run.end)
        case failure => failure
  }

  /** The number of fourteen-bit targets: a chain of more pointers than this has come back to one of them. */
  const HOP_LIMIT := 0x4000

  function NameAt(data: seq<byte>, offset: nat): NameResult {
    NameWithin(data, offset, HOP_LIMIT)
  }

  /**
    The decoder itself.  It has no hop counter; `hops` is a bound that exists whenever it returns at all.
   */
  method DecodeName(data: seq<byte>, start: nat, ghost hops: nat := HOP_LIMIT) returns (r: NameResult)
    requires !NameWithin(data, start, hops).Endless?
    ensures r == NameWithin(data, start, hops)
    decreases hops
  {
    hide Join, PointerTarget, Finish;
    var labels: seq<Str> := [];
    var offset := start;
    ghost var run := RunAt(data, start);
    FrontNothing(run);
    FinishBare(data, hops);
    while true
      invariant run == Front(labels, RunAt(data, offset))
      decreases |data| - offset
    {
      if offset >= |data| {
        return Malformed;
      }
      var length := data[offset];
      if length == 0 {
        offset := offset + 1;
        break;
      }
      if IsPointer(length) {
        if offset + 1 >= |data| {
          return Malformed;
        }
        var ptr := PointerTarget(data, offset);
        FrontOfBare(labels, Jump(ptr), offset + 2);
        FinishPointer(labels, ptr, offset + 2, data, hops);
        var suffix := DecodeName(data, ptr, hops - 1);
        if !suffix.Decoded? {
          return suffix;
        }
        labels := labels + [suffix.text];
        offset := offset + 2;
        return Decoded(Join(labels, [DOT]), offset);
      }
      offset := offset + 1;
      if offset + length > |data| {
        return Malformed;
      }
      FrontMore(labels, data[offset..offset + length], RunAt(data, offset + length));
      labels := labels + [data[offset..offset + length]];
      offset := offset + length;
    }
    FrontOfBare(labels, Zero, offset);
    r := Decoded(Join(labels, [DOT]), offset);
  }

  // ---------- When the decoder returns ----------

  /** Where the decoder stands after following `k` pointers from `offset`, if there are that many. */
  function Visit(data: seq<byte>, offset: nat, k: nat): Option<nat>
    decreases k
  {
    if k == 0 then Some(offset)
    else match RunAt(data, offset).stop
      case Jump(target) => Visit(data, target, k - 1)
      case _ => None
  }

  /** Some label run is entered twice. */
  ghost predicate Revisits(data: seq<byte>, offset: nat) {
    exists i: nat, j: nat :: i < j && Visit(data, offset, i).Some? && Visit(data, offset, i) == Visit(data, offset, j)
  }

  lemma {:induction false} EndlessIsLongChain(data: seq<byte>, offset: nat, hops: nat)
    ensures NameWithin(data, offset, hops).Endless? <==> Visit(data, offset, hops + 1).Some?
    decreases hops
  {
    match RunAt(data, offset).stop
    case Jump(target) =>
      if hops > 0 {
        EndlessIsLongChain(data, target, hops - 1);
      } else {
        assert Visit(data, target, 0).Some?;
      }
    case _ =>
  }

  lemma {:induction false} VisitSplit(data: seq<byte>, offset: nat, a: nat, b: nat)
    ensures Visit(data, offset, a + b) ==
            match Visit(data, offset, a) case None => None case Some(there) => Visit(data, there, b)
    decreases a
  {
    if a > 0 {
      match RunAt(data, offset).stop
      case Jump(target) => VisitSplit(data, target, a - 1, b);
      case _ =>
    }
  }

  /** Once a run is entered twice the pointers lead on for ever. */
  lemma {:induction false} RevisitIsForever(data: seq<byte>, offset: nat, i: nat, j: nat, k: nat)
    requires i < j && Visit(data, offset, i).Some? && Visit(data, offset, i) == Visit(data, offset, j)
    ensures Visit(data, offset, k).Some?
    decreases k
  {
    if k <= j {
      VisitSplit(data, offset, k, j - k);
    } else {
      VisitSplit(data, offset, j, k - j);
      VisitSplit(data, offset, i, k - j);
      RevisitIsForever(data, offset, i, j, i + (k - j));
    }
  }

  lemma LongChainRevisits(data: seq<byte>, offset: nat)
    requires Visit(data, offset, HOP_LIMIT + 1).Some?
    ensures Revisits(data, offset)
  {
    var n: nat := HOP_LIMIT + 1;
    forall k: nat | k <= n ensures Visit(data, offset, k).Some? {
      VisitSplit(data, offset, k, n - k);
    }
    var starts: seq<nat> := seq(n, k requires 0 <= k < n => Visit(data, offset, k + 1).value);
    forall k | 0 <= k < n ensures starts[k] < HOP_LIMIT {
      VisitSplit(data, offset, k, 1);
      var there := Visit(data, offset, k).value;
      assert RunAt(data, there).stop.Jump? && Visit(data, RunAt(data, there).stop.target, 0).Some?;
      TargetIsSmall(data, there);
    }
    if Distinct(starts) {
      DistinctBelow(starts, HOP_LIMIT);
      assert false;
    }
    var i, j :| 0 <= i < j < n && starts[i] == starts[j];
    assert Visit(data, offset, i + 1) == Visit(data, offset, j + 1);
  }

  lemma {:induction false} TargetIsSmall(data: seq<byte>, offset: nat)
    requires RunAt(data, offset).stop.Jump?
    ensures RunAt(data, offset).stop.target < HOP_LIMIT
    decreases |data| - offset
  {
    if !IsPointer(data[offset]) {
      TargetIsSmall(data, offset + 1 + data[offset]);
    }
  }

  lemma {:induction false} MoreHops(run: Run, data: seq<byte>, hops: nat, more: nat)
    requires hops <= more && !Finish(run, data, hops).Endless?
    ensures Finish(run, data, more) == Finish(run, data, hops)
    decreases hops
  {
    match run.stop
    case Jump(target) => MoreHops(RunAt(data, target), data, hops - 1, more - 1);
    case _ =>
  }

  /**
    The decoder fails to return from `offset` exactly when the pointers lead it into some label run twice.
    No hop count gives a result then; otherwise every hop count past the limit gives the same one.
   */
  lemma EndlessExactly(data: seq<byte>, offset: nat)
    ensures NameAt(data, offset).Endless? <==> Revisits(data, offset)
    ensures NameAt(data, offset).Endless? ==> forall hops: nat :: NameWithin(data, offset, hops).Endless?
    ensures forall hops: nat ::
              !NameWithin(data, offset, hops).Endless? ==> NameWithin(data, offset, hops) == NameAt(data, offset)
  {
    EndlessIsLongChain(data, offset, HOP_LIMIT);
    if Visit(data, offset, HOP_LIMIT + 1).Some? {
      LongChainRevisits(data, offset);
    }
    if Revisits(data, offset) {
      var i: nat, j: nat :| i < j && Visit(data, offset, i).Some? && Visit(data, offset, i) == Visit(data, offset, j);
      forall hops: nat ensures NameWithin(data, offset, hops).Endless? {
        RevisitIsForever(data, offset, i, j, hops + 1);
        EndlessIsLongChain(data, offset, hops);
      }
    }
    forall hops: nat | !NameWithin(data, offset, hops).Endless?
      ensures NameWithin(data, offset, hops) == NameAt(data, offset)
    {
      var fewer, more := if hops <= HOP_LIMIT then hops else HOP_LIMIT, if hops <= HOP_LIMIT then HOP_LIMIT else hops;
      MoreHops(RunAt(data, offset), data, fewer, more);
    }
  }

  /** Every pointer met from `offset` on targets an offset below the start of the label run it ends. */
  predicate PointsBack(data: seq<byte>, offset: nat)
    decreases offset
  {
    match RunAt(data, offset).stop
    case Jump(target) => target < offset && PointsBack(data, target)
    case _ => true
  }

  /** Section 4.1.4 of RFC 1035 asks for pointers to prior occurrences; read this way, the decoder returns. */
  lemma PointsBackReturns(data: seq<byte>, offset: nat)
    requires PointsBack(data, offset)
    ensures !NameAt(data, offset).Endless?
  {
    PointsBackWithin(data, offset);
    EndlessExactly(data, offset);
  }

  lemma {:induction false} PointsBackWithin(data: seq<byte>, offset: nat)
    requires PointsBack(data, offset)
    ensures !NameWithin(data, offset, offset).Endless?
    decreases offset
  {
    match RunAt(data, offset).stop
    case Jump(target) =>
      PointsBackWithin(data, target);
      MoreHops(RunAt(data, target), data, target, offset - 1);
    case _ =>
  }

  // ---------- What a decoded name means ----------

  /** The shapes a name can have in a message: labels, then the root or a pointer to more. */
  datatype Encoded = Root | Label(text: Str, rest: Encoded) | Pointer(target: nat, rest: Encoded)

  /** The bytes of `data` at `offset` spell `e`, wherever its pointers lead. */
  predicate Spells(data: seq<byte>, offset: nat, e: Encoded)
    decreases e
  {
    match e
    case Root => offset < |data| && data[offset] == 0
    case Label(text, rest) =>
      && 0 < |text| < 0xC0
      && Has(data, offset, [|text|] + text)
      && Spells(data, offset + 1 + |text|, rest)
    case Pointer(target, rest) =>
      && offset + 2 <= |data| && data[offset] >= 0xC0
      && (data[offset] as int - 0xC0) * 256 + data[offset + 1] == target
      && Spells(data, target, rest)
  }

  function LabelsOf(e: Encoded): seq<Str> {
    match e
    case Root => []
    case Label(text, rest) => [text] + LabelsOf(rest)
    case Pointer(_, rest) => LabelsOf(rest)
  }

  /** Just after the first pointer or zero byte. */
  function EndOf(e: Encoded, offset: nat): nat {
    match e
    case Root => offset + 1
    case Label(text, rest) => EndOf(rest, offset + 1 + |text|)
    case Pointer(_, _) => offset + 2
  }

  /** The last label is followed by a pointer: the decoder joins one empty suffix too many and leaves a dot. */
  predicate Dangling(e: Encoded) {
    match e
    case Root => false
    case Label(_, rest) => if LabelsOf(rest) == [] then rest.Pointer? else Dangling(rest)
    case Pointer(_, rest) => Dangling(rest)
  }

  function TextOf(e: Encoded): Str {
    Join(LabelsOf(e), [DOT]) + if Dangling(e) then [DOT] else []
  }

  function Pointers(e: Encoded): nat {
    match e
    case Root => 0
    case Label(_, rest) => Pointers(rest)
    case Pointer(_, rest) => 1 + Pointers(rest)
  }

  lemma {:induction false} NoLabelsNoDangling(e: Encoded)
    requires LabelsOf(e) == []
    ensures !Dangling(e)
  {
    match e
    case Pointer(_, rest) => NoLabelsNoDangling(rest);
    case _ =>
  }

  lemma LabelAt(data: seq<byte>, offset: nat, text: Str)
    requires 0 < |text| < 0xC0 && Has(data, offset, [|text|] + text)
    ensures var next := offset + 1 + |text|;
            && next <= |data| && data[offset] == |text| && data[offset + 1..next] == text
            && RunAt(data, offset) == Front([text], RunAt(data, next))
  {
    var field := data[offset..offset + 1 + |text|];
    assert field[0] == data[offset];
    assert data[offset + 1..offset + 1 + |text|] == field[1..];
  }

  /** One more label in front of a run puts it, and a dot unless nothing follows, in front of the text. */
  lemma FinishCons(text: Str, run: Run, data: seq<byte>, hops: nat)
    ensures var tail := Finish(run, data, hops);
            var whole := Finish(Front([text], run), data, hops);
            match tail
            case Decoded(t, end) =>
              whole == Decoded(if run.labels == [] && run.stop.Zero? then text else text + [DOT] + t, end)
            case failure => whole == failure
  {
    JoinCons(text, run.labels, [DOT]);
    match run.stop
    case Jump(target) =>
      if hops > 0 {
        var suffix := Finish(RunAt(data, target), data, hops - 1);
        if suffix.Decoded? {
          JoinCons(text, run.labels + [suffix.text], [DOT]);
          assert [text] + run.labels + [suffix.text] == [text] + (run.labels + [suffix.text]);
        }
      }
    case _ =>
  }

  /** A pointer met before any label hands the name it leads to through. */
  lemma FinishJump(target: nat, end: nat, data: seq<byte>, hops: nat)
    requires hops > 0
    ensures Finish(Run([], Jump(target), end), data, hops) ==
            match NameWithin(data, target, hops - 1)
            case Decoded(text, _) => Decoded(text, end)
            case failure => failure
  {
    var inner := NameWithin(data, target, hops - 1);
    if inner.Decoded? {
      assert [] + [inner.text] == [inner.text];
    }
  }

  lemma SpelledRun(data: seq<byte>, offset: nat, e: Encoded)
    requires Spells(data, offset, e)
    ensures var run := RunAt(data, offset);
            match e
            case Root => run == Run([], Zero, offset + 1)
            case Pointer(target, _) => run == Run([], Jump(target), offset + 2)
            case Label(_, _) => run.labels != []
  {
    if e.Label? {
      LabelAt(data, offset, e.text);
    }
  }

  /** What spells a name decodes to it. */
  lemma {:induction false} SpellsDecodes(data: seq<byte>, offset: nat, e: Encoded, hops: nat)
    requires Spells(data, offset, e) && Pointers(e) <= hops
    ensures NameWithin(data, offset, hops) == Decoded(TextOf(e), EndOf(e, offset))
    decreases e
  {
    SpelledRun(data, offset, e);
    match e
    case Root =>
    case Pointer(target, rest) =>
      SpellsDecodes(data, target, rest, hops - 1);
      FinishJump(target, offset + 2, data, hops);
    case Label(text, rest) =>
      SpellsDecodes(data, offset + 1 + |text|, rest, hops);
      LabelDecodes(data, offset, text, rest, hops);
  }

  lemma LabelDecodes(data: seq<byte>, offset: nat, text: Str, rest: Encoded, hops: nat)
    requires Spells(data, offset, Label(text, rest))
    requires var next := offset + 1 + |text|; NameWithin(data, next, hops) == Decoded(TextOf(rest), EndOf(rest, next))
    ensures NameWithin(data, offset, hops) == Decoded(TextOf(Label(text, rest)), EndOf(Label(text, rest), offset))
  {
    hide Finish, RunAt, Join, LabelsOf, Dangling, Has, Front;
    var next := offset + 1 + |text|;
    SpelledRun(data, next, rest);
    LabelAt(data, offset, text);
    FinishCons(text, RunAt(data, next), data, hops);
    TextCons(text, rest);
  }

  lemma TextCons(text: Str, rest: Encoded)
    ensures TextOf(Label(text, rest)) == if rest.Root? then text else text + [DOT] + TextOf(rest)
  {
    JoinCons(text, LabelsOf(rest), [DOT]);
    if LabelsOf(rest) == [] {
      NoLabelsNoDangling(rest);
    }
  }

  /** What decodes is spelled in the message. */
  lemma {:induction false} DecodedIsSpelled(data: seq<byte>, offset: nat, hops: nat) returns (e: Encoded)
    requires NameWithin(data, offset, hops).Decoded?
    ensures Spells(data, offset, e) && Pointers(e) <= hops
    decreases hops, |data| - offset
  {
    if data[offset] == 0 {
      e := Root;
    } else if IsPointer(data[offset]) {
      var target := PointerTarget(data, offset);
      assert RunAt(data, offset) == Run([], Jump(target), offset + 2);
      var rest := DecodedIsSpelled(data, target, hops - 1);
      e := Pointer(target, rest);
    } else {
      var next := offset + 1 + data[offset];
      var text := data[offset + 1..next];
      assert data[offset..next] == [|text|] + text;
      assert RunAt(data, offset) == Front([text], RunAt(data, next));
      FinishCons(text, RunAt(data, next), data, hops);
      var rest := DecodedIsSpelled(data, next, hops);
      e := Label(text, rest);
    }
  }

  lemma {:induction false} SpellingIsUnique(data: seq<byte>, offset: nat, e: Encoded, e': Encoded)
    requires Spells(data, offset, e) && Spells(data, offset, e')
    ensures e == e'
    decreases e
  {
    match e
    case Root => assert !e'.Label?;
    case Label(text, rest) =>
      LabelAt(data, offset, text);
      assert e'.Label?;
      LabelAt(data, offset, e'.text);
      SpellingIsUnique(data, offset + 1 + |text|, rest, e'.rest);
    case Pointer(target, rest) =>
      SpellingIsUnique(data, target, rest, e'.rest);
  }

  /**
    The decoder is correct: it succeeds exactly where the message spells a name, the name is then unique,
    and text and end offset are that name's.
   */
  lemma DecodesExactlySpelled(data: seq<byte>, offset: nat)
    ensures NameAt(data, offset).Decoded? ==> exists e :: Spells(data, offset, e)
    ensures (exists e :: Spells(data, offset, e)) ==> NameAt(data, offset).Decoded?
    ensures forall e | Spells(data, offset, e) :: NameAt(data, offset) == Decoded(TextOf(e), EndOf(e, offset))
    ensures forall e, e' | Spells(data, offset, e) && Spells(data, offset, e') :: e == e'
  {
    if NameAt(data, offset).Decoded? {
      var e := DecodedIsSpelled(data, offset, HOP_LIMIT);
      assert Spells(data, offset, e);
    }
    forall e | Spells(data, offset, e)
      ensures NameAt(data, offset) == Decoded(TextOf(e), EndOf(e, offset))
    {
      SpellsDecodes(data, offset, e, Pointers(e));
      EndlessExactly(data, offset);
    }
    if e :| Spells(data, offset, e) {
      assert NameAt(data, offset) == Decoded(TextOf(e), EndOf(e, offset));
    }
    forall e, e' | Spells(data, offset, e) && Spells(data, offset, e') ensures e == e' {
      SpellingIsUnique(data, offset, e, e');
    }
  }

  /** The text of labels written without pointers. */
  function Plain(labels: seq<Str>): Encoded {
    if labels == [] then Root else Label(labels[0], Plain(labels[1..]))
  }

  /** A written name spells its labels, so it decodes to them with dots between, and ends after its zero byte. */
  lemma {:induction false} WireNameSpells(data: seq<byte>, offset: nat, labels: seq<Str>)
    requires Short(labels) && NoneEmpty(labels) && Has(data, offset, WireName(labels))
    ensures Spells(data, offset, Plain(labels))
    ensures EndOf(Plain(labels), offset) == offset + |WireName(labels)|
    decreases |labels|
  {
    if labels == [] {
      assert data[offset] == data[offset..offset + 1][0];
    } else {
      var head := LabelWire(labels[0]);
      WireNameCons(labels[0], labels[1..]);
      assert [labels[0]] + labels[1..] == labels;
      hide WireName, LabelBytes;
      HasSplit(data, offset, head, WireName(labels[1..]));
      WireNameSpells(data, offset + |head|, labels[1..]);
      assert labels[0] != [];
    }
  }

  lemma {:induction false} PlainText(labels: seq<Str>)
    ensures LabelsOf(Plain(labels)) == labels && !Dangling(Plain(labels))
    ensures TextOf(Plain(labels)) == Join(labels, [DOT])
  {
    if labels != [] {
      PlainText(labels[1..]);
      assert [labels[0]] + labels[1..] == labels;
    }
    assert Join(labels, [DOT]) + [] == Join(labels, [DOT]);
  }

  /** A written name reads back: its labels with dots between them, and the offset after its zero byte. */
  lemma NameReadsBack(data: seq<byte>, offset: nat, labels: seq<Str>)
    requires Short(labels) && NoneEmpty(labels) && Has(data, offset, WireName(labels))
    ensures Spells(data, offset, Plain(labels))
    ensures NameAt(data, offset) == Decoded(Join(labels, [DOT]), offset + |WireName(labels)|)
  {
    WireNameSpells(data, offset, labels);
    PlainText(labels);
    DecodesExactlySpelled(data, offset);
  }
}
