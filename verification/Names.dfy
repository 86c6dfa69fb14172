/** Canonical domain names (`common/utils`). */
module Names {
  import opened Strings

  /** The canonical form: surrounding white space off, lower case, trailing dots off, in that order. */
  function Canonical(name: Str): Str {
    TrimRight(Lower(Trim(name, SPACES)), DOTS)
  }

  method CanonicalDNSName(name: Str) returns (r: Str)
    ensures r == Canonical(name)
  {
    r := Trim(name, SPACES);
    r := Lower(r);
    while r != [] && r[|r| - 1] == DOT
      invariant TrimRight(r, DOTS) == Canonical(name)
    {
      r := r[..|r| - 1];
    }
  }

  /** A canonical name is lower case and has neither a leading space nor a trailing dot. */
  lemma CanonicalSpec(name: Str)
    ensures var c := Canonical(name);
            Free(c, UPPER) && (c == [] || (c[0] !in SPACES && c[|c| - 1] != DOT))
  {
    var t := Trim(name, SPACES);
    TrimSpec(name, SPACES);
    LowerSpec(t);
    LowerSpaces(t);
    TrimRightIsPrefix(Lower(t), DOTS);
  }

  lemma LowerSpaces(s: Str)
    ensures forall i | 0 <= i < |s| :: Lower(s)[i] in SPACES <==> s[i] in SPACES
    ensures forall i | 0 <= i < |s| :: Lower(s)[i] in DOTS <==> s[i] in DOTS
  {
  }

  /** Canonicalization adds no byte of a letter-free set. */
  lemma CanonicalFree(name: Str, x: set<byte>)
    requires Free(name, x) && forall b | b in x :: !(65 <= b <= 90) && !(97 <= b <= 122)
    ensures Free(Canonical(name), x)
  {
    TrimFree(name, SPACES, x);
    LowerFree(Trim(name, SPACES), x);
    TrimRightIsPrefix(Lower(Trim(name, SPACES)), DOTS);
  }

  /** The fixed points are the lower-case names without surrounding spaces or trailing dots. */
  lemma CanonicalFixed(name: Str)
    ensures Canonical(name) == name <==>
            Free(name, UPPER) && Trimmed(name, SPACES) && (name == [] || name[|name| - 1] != DOT)
  {
    var t := Trim(name, SPACES);
    TrimSpec(name, SPACES);
    LowerSpec(t);
    TrimRightIsPrefix(Lower(t), DOTS);
    CanonicalSpec(name);
    if Canonical(name) == name {
      assert |t| == |name|;
    }
  }

  /**
    Trimming comes before the dots go, so a space left of the trailing dots survives the first pass and
    goes in the second: canonicalizing is idempotent exactly on names without one.
   */
  lemma CanonicalIdempotent(name: Str)
    ensures Canonical(Canonical(name)) == Canonical(name) <==>
            var stem := TrimRight(Trim(name, SPACES), DOTS); stem == [] || stem[|stem| - 1] !in SPACES
  {
    var t := Trim(name, SPACES);
    LowerTrimRight(t);
    CanonicalSpec(name);
    CanonicalFixed(Canonical(name));
    LowerSpaces(TrimRight(t, DOTS));
  }

  lemma {:induction false} LowerTrimRight(s: Str)
    ensures TrimRight(Lower(s), DOTS) == Lower(TrimRight(s, DOTS))
  {
    if s != [] {
      assert Lower(s)[..|s| - 1] == Lower(s[..|s| - 1]);
      LowerSpaces(s);
      LowerTrimRight(s[..|s| - 1]);
    }
  }

  /** `"a ."` is such a name: one pass gives `"a "`, two give `"a"`. */
  lemma CanonicalNotIdempotent()
    ensures Canonical([97, SPACE, DOT]) == [97, SPACE] && Canonical([97, SPACE]) == [97]
  {
    var s: Str := [97, SPACE, DOT];
    var t: Str := [97, SPACE];
    TrimSpec(s, SPACES);
    assert s[..2] == t && t[..1] == [97];
    assert Lower(s) == s;
    assert Canonical(s) == TrimRight(s, DOTS);
    assert TrimRight(s, DOTS) == TrimRight(t, DOTS) == t;
    assert Trim(t, SPACES) == TrimRight(t, SPACES) == TrimRight(t[..1], SPACES) == [97];
    assert Lower([97]) == [97];
  }

  /**
    What the canonical form of a name is, for every way to take white space off both ends and then dots off the
    right: the rest in lower case.
   */
  lemma CanonicalOf(left: Str, rest: Str, dots: Str, right: Str)
    requires AllIn(left, SPACES) && AllIn(dots, DOTS) && AllIn(right, SPACES)
    requires Trimmed(rest + dots, SPACES) && (rest == [] || Last(rest) != DOT)
    ensures Canonical(left + (rest + dots) + right) == Lower(rest)
  {
    hide Trim, TrimRight, Lower;
    var body := rest + dots;
    LowerOfParts(rest, dots);
    TrimAround(left, body, right, SPACES);
    TrimRightOff(Lower(rest), Lower(dots), DOTS);
  }

  lemma LowerOfParts(rest: Str, dots: Str)
    requires AllIn(dots, DOTS) && (rest == [] || Last(rest) != DOT)
    ensures Lower(rest + dots) == Lower(rest) + Lower(dots)
    ensures AllIn(Lower(dots), DOTS) && (Lower(rest) == [] || Last(Lower(rest)) !in DOTS)
  {
    LowerSpaces(rest);
    LowerSpaces(dots);
  }

  /** Every name can be taken apart so. */
  lemma CanonicalParts(name: Str) returns (left: Str, rest: Str, dots: Str, right: Str)
    ensures name == left + (rest + dots) + right
    ensures AllIn(left, SPACES) && AllIn(dots, DOTS) && AllIn(right, SPACES)
    ensures Trimmed(rest + dots, SPACES) && (rest == [] || Last(rest) != DOT)
  {
    hide TrimLeft, TrimRight;
    var tail := TrimLeft(name, SPACES);
    TrimLeftIsSuffix(name, SPACES);
    TrimLeftOff(name, SPACES);
    left := name[..|name| - |tail|];
    assert left + tail == name;
    var body := CutRight(tail, SPACES);
    right := tail[|body|..];
    rest := CutRight(body, DOTS);
    dots := body[|rest|..];
    if body != [] {
      assert tail[0] == body[0];
    }
    assert left + (body + right) == left + body + right;
  }

  lemma CutRight(s: Str, cut: set<byte>) returns (kept: Str)
    ensures kept <= s && s == kept + s[|kept|..] && AllIn(s[|kept|..], cut)
    ensures kept == [] || Last(kept) !in cut
  {
    hide TrimRight;
    kept := TrimRight(s, cut);
    TrimRightIsPrefix(s, cut);
  }
}
