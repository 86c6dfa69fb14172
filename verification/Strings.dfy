/**
  Go strings are byte sequences, so a string here is a `seq<byte>`; the library functions of Go's
  `strings` package that the server uses are modelled for ASCII text.  A cut set or a separator
  is a set of bytes, which lets `strings.Split` and `strings.Fields` share one definition.
 */
module Strings {
  type byte = b: int | 0 <= b < 256

  type Str = seq<byte>

  const DOT: byte := 46
  const SPACE: byte := 32
  const SEMICOLON: byte := 59
  const PIPE: byte := 124
  const QUOTE: byte := 34
  const DOTS: set<byte> := {46}
  const SEMICOLONS: set<byte> := {59}
  const PIPES: set<byte> := {124}
  const QUOTES: set<byte> := {34}
  const SPACES: set<byte> := {9, 10, 11, 12, 13, 32}
  const UPPER: set<byte> := set b: byte | 65 <= b <= 90

  /** The bytes of an ASCII literal. */
  function Ascii(s: string): (r: Str)
    requires forall i | 0 <= i < |s| :: s[i] as int < 128
    ensures |r| == |s| && forall i | 0 <= i < |s| :: r[i] == s[i] as int
  {
    seq(|s|, i requires 0 <= i < |s| => s[i] as int)
  }

  /** No byte of `s` is in `x`. */
  predicate Free(s: Str, x: set<byte>) {
    forall i | 0 <= i < |s| :: s[i] !in x
  }

  predicate AllFree(parts: seq<Str>, x: set<byte>) {
    forall i | 0 <= i < |parts| :: Free(parts[i], x)
  }

  // ---------- strings.Split, strings.Join, strings.Fields ----------

  /** `strings.Split`: the maximal separator-free pieces, empty ones included. */
  function Split(s: Str, seps: set<byte>): (parts: seq<Str>)
    ensures |parts| > 0
  {
    if s == [] then [[]]
    else if s[0] in seps then [[]] + Split(s[1..], seps)
    else
      var rest := Split(s[1..], seps);
      [[s[0]] + rest[0]] + rest[1..]
  }

  function Join(parts: seq<Str>, sep: Str): Str {
    if |parts| == 0 then []
    else if |parts| == 1 then parts[0]
    else parts[0] + sep + Join(parts[1..], sep)
  }

  function NonEmpty(parts: seq<Str>): (r: seq<Str>)
    ensures NoneEmpty(r)
  {
    if parts == [] then []
    else if parts[0] == [] then NonEmpty(parts[1..])
    else [parts[0]] + NonEmpty(parts[1..])
  }

  /** `strings.Fields`: the non-empty pieces between runs of white space. */
  function Fields(s: Str): seq<Str> {
    NonEmpty(Split(s, SPACES))
  }

  predicate NoneEmpty(parts: seq<Str>) {
    forall i | 0 <= i < |parts| :: parts[i] != []
  }

  lemma {:induction false} SplitAtSeparator(a: Str, c: byte, b: Str, seps: set<byte>)
    requires c in seps
    ensures Split(a + [c] + b, seps) == Split(a, seps) + Split(b, seps)
  {
    var s := a + [c] + b;
    if a == [] {
      assert s[1..] == b;
    } else {
      var tail := a[1..] + [c] + b;
      assert s[0] == a[0] && s[1..] == tail;
      SplitAtSeparator(a[1..], c, b, seps);
      assert Split(tail, seps) == Split(a[1..], seps) + Split(b, seps);
      if a[0] !in seps {
        assert Split(tail, seps)[1..] == Split(a[1..], seps)[1..] + Split(b, seps);
      }
    }
  }

  lemma {:induction false} SplitWithoutSeparator(s: Str, seps: set<byte>)
    requires Free(s, seps)
    ensures Split(s, seps) == [s]
  {
    if s != [] {
      SplitWithoutSeparator(s[1..], seps);
      assert [s[0]] + s[1..] == s;
    }
  }

  /** Splitting undoes joining, for pieces free of the separators. */
  lemma {:induction false} SplitOfJoin(parts: seq<Str>, c: byte, seps: set<byte>)
    requires |parts| > 0 && c in seps && AllFree(parts, seps)
    ensures Split(Join(parts, [c]), seps) == parts
  {
    SplitWithoutSeparator(parts[0], seps);
    if |parts| > 1 {
      SplitOfJoin(parts[1..], c, seps);
      SplitAtSeparator(parts[0], c, Join(parts[1..], [c]), seps);
    }
  }

  /** Joining undoes splitting at a single byte. */
  lemma {:induction false} JoinOfSplit(s: Str, c: byte, seps: set<byte>)
    requires seps == {c}
    ensures Join(Split(s, seps), [c]) == s
  {
    if s != [] {
      JoinOfSplit(s[1..], c, seps);
      var rest := Split(s[1..], seps);
      if s[0] == c {
        JoinCons([], rest, [c]);
      } else {
        JoinCons([s[0]] + rest[0], rest[1..], [c]);
        JoinCons(rest[0], rest[1..], [c]);
        assert rest == [rest[0]] + rest[1..];
      }
    }
  }

  /** Pieces are free of the separators, and of every byte the whole text is free of. */
  lemma {:induction false} SplitPieces(s: Str, seps: set<byte>, x: set<byte>)
    requires Free(s, x)
    ensures AllFree(Split(s, seps), seps) && AllFree(Split(s, seps), x)
  {
    if s != [] {
      SplitPieces(s[1..], seps, x);
    }
  }

  /** A text is its pieces and one separator between each two. */
  lemma {:induction false} SplitSize(s: Str, seps: set<byte>)
    ensures Total(Split(s, seps)) + |Split(s, seps)| == |s| + 1
  {
    if s != [] {
      SplitSize(s[1..], seps);
      var rest := Split(s[1..], seps);
      if s[0] !in seps {
        assert Split(s, seps)[1..] == rest[1..];
      } else {
        assert Split(s, seps)[1..] == rest;
      }
    }
  }

  function Total(parts: seq<Str>): nat {
    if parts == [] then 0 else |parts[0]| + Total(parts[1..])
  }

  lemma {:induction false} NonEmptySize(parts: seq<Str>)
    ensures Total(NonEmpty(parts)) == Total(parts) && |NonEmpty(parts)| <= |parts|
  {
    if parts != [] {
      NonEmptySize(parts[1..]);
      if parts[0] != [] {
        assert NonEmpty(parts)[1..] == NonEmpty(parts[1..]);
      }
    }
  }

  /** At least one byte separates two fields. */
  lemma FieldsSize(s: Str)
    ensures Total(Fields(s)) + |Fields(s)| <= |s| + 1
  {
    SplitSize(s, SPACES);
    NonEmptySize(Split(s, SPACES));
  }

  lemma {:induction false} NonEmptyAppend(a: seq<Str>, b: seq<Str>)
    ensures NonEmpty(a + b) == NonEmpty(a) + NonEmpty(b)
  {
    if a == [] {
      assert a + b == b;
    } else {
      assert (a + b)[1..] == a[1..] + b;
      NonEmptyAppend(a[1..], b);
    }
  }

  lemma {:induction false} NonEmptyId(parts: seq<Str>)
    requires NoneEmpty(parts)
    ensures NonEmpty(parts) == parts
  {
    if parts != [] {
      NonEmptyId(parts[1..]);
    }
  }

  lemma FieldsAtSpace(a: Str, b: Str)
    ensures Fields(a + [SPACE] + b) == Fields(a) + Fields(b)
  {
    SplitAtSeparator(a, SPACE, b, SPACES);
    NonEmptyAppend(Split(a, SPACES), Split(b, SPACES));
  }

  lemma FieldsOfWord(w: Str)
    requires Free(w, SPACES)
    ensures Fields(w) == if w == [] then [] else [w]
  {
    SplitWithoutSeparator(w, SPACES);
    assert NonEmpty([w][1..]) == [];
  }

  /** `strings.Fields` undoes joining words with single spaces. */
  lemma FieldsOfJoin(words: seq<Str>)
    requires AllFree(words, SPACES) && NoneEmpty(words)
    ensures Fields(Join(words, [SPACE])) == words
  {
    if words != [] {
      SplitOfJoin(words, SPACE, SPACES);
      NonEmptyId(words);
    } else {
      FieldsOfWord([]);
    }
  }

  lemma {:induction false} NonEmptyFree(parts: seq<Str>, x: set<byte>)
    requires AllFree(parts, x)
    ensures AllFree(NonEmpty(parts), x)
  {
    if parts != [] {
      NonEmptyFree(parts[1..], x);
    }
  }

  lemma FieldsAreWords(s: Str)
    ensures AllFree(Fields(s), SPACES) && NoneEmpty(Fields(s))
  {
    SplitPieces(s, SPACES, {});
    NonEmptyFree(Split(s, SPACES), SPACES);
  }

  lemma {:induction false} JoinFree(parts: seq<Str>, sep: Str, x: set<byte>)
    requires AllFree(parts, x) && Free(sep, x)
    ensures Free(Join(parts, sep), x)
  {
    if |parts| == 1 {
    } else if |parts| > 1 {
      JoinFree(parts[1..], sep, x);
    }
  }

  lemma {:induction false} JoinSize(parts: seq<Str>, sep: Str)
    requires |sep| == 1 && |parts| > 0
    ensures |Join(parts, sep)| == Total(parts) + |parts| - 1
  {
    if |parts| > 1 {
      JoinSize(parts[1..], sep);
    }
  }

  function Last(s: Str): byte
    requires s != []
  {
    s[|s| - 1]
  }

  /** A join of non-empty pieces starts as the first piece starts and ends as the last one ends. */
  lemma {:induction false} JoinEnds(parts: seq<Str>, sep: Str)
    requires |parts| > 0 && NoneEmpty(parts)
    ensures Join(parts, sep) != []
    ensures Join(parts, sep)[0] == parts[0][0]
    ensures Last(Join(parts, sep)) == Last(parts[|parts| - 1])
  {
    if |parts| > 1 {
      var rest := parts[1..];
      JoinEnds(rest, sep);
      assert rest[|rest| - 1] == parts[|parts| - 1];
      assert Last(parts[0] + sep + Join(rest, sep)) == Last(Join(rest, sep));
    }
  }

  lemma {:induction false} JoinCons(p: Str, rest: seq<Str>, sep: Str)
    ensures Join([p] + rest, sep) == if rest == [] then p else p + sep + Join(rest, sep)
  {
    assert ([p] + rest)[1..] == rest;
  }

  lemma {:induction false} JoinSnoc(parts: seq<Str>, p: Str, sep: Str)
    requires parts != []
    ensures Join(parts + [p], sep) == Join(parts, sep) + sep + p
  {
    var more := parts + [p];
    if |parts| == 1 {
      assert more[1..] == [p];
    } else {
      assert more[1..] == parts[1..] + [p];
      JoinSnoc(parts[1..], p, sep);
    }
  }

  // ---------- strings.TrimLeft, TrimRight, Trim, TrimSpace, ToLower ----------

  function TrimLeft(s: Str, cut: set<byte>): Str {
    if s != [] && s[0] in cut then TrimLeft(s[1..], cut) else s
  }

  function TrimRight(s: Str, cut: set<byte>): Str {
    if s != [] && s[|s| - 1] in cut then TrimRight(s[..|s| - 1], cut) else s
  }

  function Trim(s: Str, cut: set<byte>): Str {
    TrimRight(TrimLeft(s, cut), cut)
  }

  predicate Trimmed(s: Str, cut: set<byte>) {
    s == [] || (s[0] !in cut && s[|s| - 1] !in cut)
  }

  lemma {:induction false} TrimLeftIsSuffix(s: Str, cut: set<byte>)
    ensures |TrimLeft(s, cut)| <= |s|
    ensures TrimLeft(s, cut) == s[|s| - |TrimLeft(s, cut)|..]
    ensures TrimLeft(s, cut) == [] || TrimLeft(s, cut)[0] !in cut
  {
    if s != [] && s[0] in cut {
      TrimLeftIsSuffix(s[1..], cut);
    }
  }

  lemma {:induction false} TrimRightIsPrefix(s: Str, cut: set<byte>)
    ensures TrimRight(s, cut) <= s
    ensures TrimRight(s, cut) == [] || TrimRight(s, cut)[|TrimRight(s, cut)| - 1] !in cut
    ensures forall i | |TrimRight(s, cut)| <= i < |s| :: s[i] in cut
  {
    if s != [] && s[|s| - 1] in cut {
      TrimRightIsPrefix(s[..|s| - 1], cut);
    }
  }

  /** What `strings.Trim` returns is trimmed, is a slice of its argument, and is the argument when that was trimmed. */
  lemma TrimSpec(s: Str, cut: set<byte>)
    ensures Trimmed(Trim(s, cut), cut)
    ensures var skip := |s| - |TrimLeft(s, cut)|;
            0 <= skip <= skip + |Trim(s, cut)| <= |s| && Trim(s, cut) == s[skip..skip + |Trim(s, cut)|]
    ensures Trimmed(s, cut) ==> Trim(s, cut) == s
  {
    TrimLeftIsSuffix(s, cut);
    TrimRightIsPrefix(TrimLeft(s, cut), cut);
  }

  predicate AllIn(s: Str, cut: set<byte>) {
    forall i | 0 <= i < |s| :: s[i] in cut
  }

  lemma {:induction false} TrimRightOff(s: Str, off: Str, cut: set<byte>)
    requires AllIn(off, cut) && (s == [] || Last(s) !in cut)
    ensures TrimRight(s + off, cut) == s
    decreases |off|
  {
    if off == [] {
      assert s + off == s;
    } else {
      var t := s + off;
      assert t[..|t| - 1] == s + off[..|off| - 1];
      TrimRightOff(s, off[..|off| - 1], cut);
    }
  }

  lemma {:induction false} TrimLeftOff(s: Str, cut: set<byte>)
    ensures var off := |s| - |TrimLeft(s, cut)|; 0 <= off && AllIn(s[..off], cut)
  {
    if s != [] && s[0] in cut {
      TrimLeftOff(s[1..], cut);
      TrimLeftIsSuffix(s[1..], cut);
      var off := |s| - |TrimLeft(s, cut)|;
      assert s[..off] == [s[0]] + s[1..][..off - 1];
    }
  }

  lemma {:induction false} TrimAround(left: Str, body: Str, right: Str, cut: set<byte>)
    requires AllIn(left, cut) && AllIn(right, cut) && Trimmed(body, cut)
    ensures Trim(left + body + right, cut) == body
    decreases |left|
  {
    var s := left + body + right;
    if left != [] {
      assert s[1..] == left[1..] + body + right;
      TrimAround(left[1..], body, right, cut);
    } else if body != [] {
      assert s == body + right && s[0] == body[0];
      TrimRightOff(body, right, cut);
    } else {
      assert s == right;
      TrimLeftAll(right, cut);
    }
  }

  lemma {:induction false} TrimLeftAll(s: Str, cut: set<byte>)
    requires AllIn(s, cut)
    ensures TrimLeft(s, cut) == []
  {
    if s != [] {
      TrimLeftAll(s[1..], cut);
    }
  }

  lemma TrimFree(s: Str, cut: set<byte>, x: set<byte>)
    requires Free(s, x)
    ensures Free(Trim(s, cut), x)
  {
    TrimSpec(s, cut);
  }

  function LowerByte(b: byte): byte {
    if 65 <= b <= 90 then b + 32 else b
  }

  function Lower(s: Str): (r: Str)
    ensures |r| == |s|
    ensures forall i | 0 <= i < |s| :: r[i] == LowerByte(s[i])
  {
    seq(|s|, i requires 0 <= i < |s| => LowerByte(s[i]))
  }

  lemma LowerSpec(s: Str)
    ensures Free(Lower(s), UPPER) && Lower(Lower(s)) == Lower(s)
    ensures Free(s, UPPER) ==> Lower(s) == s
  {
  }

  /** Lower-casing neither adds nor removes a byte of a set that has no letters. */
  lemma LowerFree(s: Str, x: set<byte>)
    requires Free(s, x) && forall b | b in x :: !(65 <= b <= 90) && !(97 <= b <= 122)
    ensures Free(Lower(s), x)
  {
  }
}
