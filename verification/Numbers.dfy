/** Decimal text (`strconv`, `%d`) and big-endian fields (`encoding/binary`). */
module Numbers {
  import opened Wrappers
  import opened Strings

  type uint16 = n: int | 0 <= n < 0x1_0000

  type uint32 = n: int | 0 <= n < 0x1_0000_0000

  // ---------- Decimals ----------

  /** `%d` of a non-negative number. */
  function FormatDec(n: nat): Str {
    if n < 10 then [48 + n] else FormatDec(n / 10) + [48 + n % 10]
  }

  predicate IsDigit(b: byte) {
    48 <= b <= 57
  }

  function DecValue(s: Str): nat
    requires forall i | 0 <= i < |s| :: IsDigit(s[i])
  {
    if s == [] then 0
    else
      assert IsDigit(s[|s| - 1]);
      DecValue(s[..|s| - 1]) * 10 + (s[|s| - 1] as int - 48)
  }

  /** `strconv.ParseUint(s, 10, bits)`, with `max` the largest value of that width. */
  function ParseUint(s: Str, max: nat): Option<nat> {
    if s != [] && (forall i | 0 <= i < |s| :: IsDigit(s[i])) && DecValue(s) <= max
    then Some(DecValue(s)) else None
  }

  /** `strconv.Atoi` on a 64-bit platform: an optional sign, then digits. */
  function Atoi(s: Str): Option<int> {
    var signed := s != [] && (s[0] == 43 || s[0] == 45);
    var digits := if signed then s[1..] else s;
    var negative := signed && s[0] == 45;
    match ParseUint(digits, if negative then 0x8000_0000_0000_0000 else 0x7FFF_FFFF_FFFF_FFFF)
    case Some(n) => var v: int := if negative then -(n as int) else n; Some(v)
    case None => None
  }

  /** Printed decimals are digits only, without a leading zero, and parse back to the number. */
  lemma {:induction false} ParseOfFormat(n: nat)
    ensures var s := FormatDec(n);
            && s != []
            && (forall i | 0 <= i < |s| :: IsDigit(s[i]))
            && DecValue(s) == n
            && (s[0] == 48 ==> n == 0)
  {
    if n >= 10 {
      ParseOfFormat(n / 10);
      var s := FormatDec(n);
      assert s[..|s| - 1] == FormatDec(n / 10);
    } else {
      assert DecValue([48 + n]) == DecValue([48 + n][..0]) * 10 + n;
    }
  }

  lemma FormatDecInjective(m: nat, n: nat)
    requires FormatDec(m) == FormatDec(n)
    ensures m == n
  {
    ParseOfFormat(m);
    ParseOfFormat(n);
  }

  /** Digits are never white space, dots, pipes or upper-case letters. */
  lemma FormatDecFree(n: nat, x: set<byte>)
    requires forall b | b in x :: !IsDigit(b)
    ensures Free(FormatDec(n), x)
  {
    ParseOfFormat(n);
  }

  /** A numeral of `n`: its decimal digits, after any number of zeros. */
  predicate Numeral(s: Str, n: nat) {
    exists k :: 0 <= k <= |s| && AllZeros(s[..k]) && s[k..] == FormatDec(n)
  }

  predicate AllZeros(s: Str) {
    forall i | 0 <= i < |s| :: s[i] == 48
  }

  predicate AllDigits(s: Str) {
    forall i | 0 <= i < |s| :: IsDigit(s[i])
  }

  lemma {:induction false} LeadingZeros(zeros: Str, s: Str)
    requires AllZeros(zeros) && AllDigits(s)
    ensures AllDigits(zeros + s) && DecValue(zeros + s) == DecValue(s)
    decreases |zeros + s|
  {
    var t := zeros + s;
    if s != [] {
      assert t[..|t| - 1] == zeros + s[..|s| - 1];
      LeadingZeros(zeros, s[..|s| - 1]);
    } else if zeros != [] {
      assert t[..|t| - 1] == zeros[..|zeros| - 1] + [];
      LeadingZeros(zeros[..|zeros| - 1], []);
      assert DecValue([]) == 0;
    }
  }

  /** Digits without a leading zero are the decimals of their value. */
  lemma {:induction false} FormatOfDigits(s: Str)
    requires s != [] && AllDigits(s) && (s[0] == 48 ==> |s| == 1)
    ensures FormatDec(DecValue(s)) == s
    ensures |s| > 1 ==> DecValue(s) >= 10
  {
    if |s| == 1 {
      assert DecValue(s[..0]) == 0;
    } else {
      var front := s[..|s| - 1];
      assert front[0] == s[0];
      if |front| == 1 {
        assert DecValue(front[..0]) == 0;
      }
      FormatOfDigits(front);
      assert s == front + [s[|s| - 1]];
    }
  }

  function ZerosBefore(s: Str): (k: nat)
    ensures k <= |s| && AllZeros(s[..k])
    ensures k < |s| ==> s[k] != 48
  {
    if s == [] || s[0] != 48 then 0
    else
      var k := 1 + ZerosBefore(s[1..]);
      assert s[..k] == [s[0]] + s[1..][..k - 1];
      k
  }

  /** Digits are a numeral of their value. */
  lemma DigitsAreNumeral(s: Str)
    requires s != [] && AllDigits(s)
    ensures Numeral(s, DecValue(s))
  {
    hide DecValue, FormatDec;
    var z := ZerosBefore(s);
    var k := if z == |s| then |s| - 1 else z;
    var zeros, rest := s[..k], s[k..];
    assert AllZeros(zeros) && AllDigits(rest) && s == zeros + rest;
    assert rest[0] == s[k] && (rest[0] == 48 ==> |rest| == 1);
    LeadingZeros(zeros, rest);
    FormatOfDigits(rest);
  }

  lemma NumeralIsDigits(s: Str, n: nat)
    requires Numeral(s, n)
    ensures s != [] && AllDigits(s) && DecValue(s) == n
  {
    hide DecValue, FormatDec;
    var k :| 0 <= k <= |s| && AllZeros(s[..k]) && s[k..] == FormatDec(n);
    ParseOfFormat(n);
    assert s == s[..k] + s[k..];
    LeadingZeros(s[..k], s[k..]);
  }

  /** `strconv.ParseUint` accepts exactly the numerals of numbers within its width. */
  lemma ParseUintExactly(s: Str, max: nat, n: nat)
    ensures ParseUint(s, max) == Some(n) <==> n <= max && Numeral(s, n)
  {
    hide DecValue, Numeral;
    if s != [] && AllDigits(s) {
      DigitsAreNumeral(s);
    }
    if Numeral(s, n) {
      NumeralIsDigits(s, n);
    }
  }

  /** A numeral with an optional sign, of a number that is not negative. */
  predicate SignedNumeral(s: Str, n: nat) {
    Numeral(s, n) || (s != [] && ((s[0] == 43 && Numeral(s[1..], n)) || (s[0] == 45 && n == 0 && Numeral(s[1..], n))))
  }

  lemma NumeralStart(s: Str, n: nat)
    requires Numeral(s, n)
    ensures s != [] && IsDigit(s[0])
  {
    NumeralIsDigits(s, n);
  }

  /** `strconv.Atoi` gives a number that is not negative exactly for its signed numerals, within 63 bits. */
  lemma AtoiExactly(s: Str, n: nat)
    requires n <= 0x7FFF_FFFF_FFFF_FFFF
    ensures Atoi(s) == Some(n) <==> SignedNumeral(s, n)
  {
    if s != [] && (s[0] == 43 || s[0] == 45) {
      ParseUintExactly(s[1..], if s[0] == 45 then 0x8000_0000_0000_0000 else 0x7FFF_FFFF_FFFF_FFFF, n);
      if Numeral(s, n) {
        NumeralStart(s, n);
      }
    } else {
      ParseUintExactly(s, 0x7FFF_FFFF_FFFF_FFFF, n);
    }
  }

  // ---------- Big-endian fields ----------

  /** The most significant byte comes first. */
  lemma BigEndian(n: uint32)
    ensures n < 0x1_0000 ==> U16(n)[0] as int * 256 + U16(n)[1] == n
    ensures ((U32(n)[0] as int * 256 + U32(n)[1]) * 256 + U32(n)[2]) * 256 + U32(n)[3] == n
  {
    var high, low := n / 0x1_0000, n % 0x1_0000;
    assert U32(n)[0] == high / 256 && U32(n)[1] == high % 256 && U32(n)[2] == low / 256 && U32(n)[3] == low % 256;
  }

  function U16(n: uint16): (r: seq<byte>)
    ensures |r| == 2
  {
    [n / 256, n % 256]
  }

  function U32(n: uint32): (r: seq<byte>)
    ensures |r| == 4
  {
    U16(n / 0x1_0000) + U16(n % 0x1_0000)
  }

  function GetU16(data: seq<byte>, at: nat): uint16
    requires at + 2 <= |data|
  {
    data[at] as int * 256 + data[at + 1]
  }

  function GetU32(data: seq<byte>, at: nat): uint32
    requires at + 4 <= |data|
  {
    GetU16(data, at) * 0x1_0000 + GetU16(data, at + 2)
  }

  /** `field` lies in `data` at `at`. */
  predicate Has(data: seq<byte>, at: nat, field: seq<byte>) {
    at + |field| <= |data| && data[at..at + |field|] == field
  }

  lemma HasSplit(data: seq<byte>, at: nat, a: seq<byte>, b: seq<byte>)
    ensures Has(data, at, a + b) <==> Has(data, at, a) && Has(data, at + |a|, b)
  {
    if Has(data, at, a + b) {
      assert data[at..at + |a|] == data[at..at + |a + b|][..|a|];
      assert data[at + |a|..at + |a| + |b|] == data[at..at + |a + b|][|a|..];
    }
    if Has(data, at, a) && Has(data, at + |a|, b) {
      assert data[at..at + |a + b|] == data[at..at + |a|] + data[at + |a|..at + |a| + |b|];
    }
  }

  lemma GetOfU16(data: seq<byte>, at: nat, n: uint16)
    requires Has(data, at, U16(n))
    ensures GetU16(data, at) == n
  {
    assert data[at] == data[at..at + 2][0] && data[at + 1] == data[at..at + 2][1];
  }

  lemma GetOfU32(data: seq<byte>, at: nat, n: uint32)
    requires Has(data, at, U32(n))
    ensures GetU32(data, at) == n
  {
    HasSplit(data, at, U16(n / 0x1_0000), U16(n % 0x1_0000));
    GetOfU16(data, at, n / 0x1_0000);
    GetOfU16(data, at + 2, n % 0x1_0000);
  }

  lemma HasU16(data: seq<byte>, at: nat, n: uint16)
    requires at + 2 <= |data|
    ensures Has(data, at, U16(n)) <==> GetU16(data, at) == n
  {
    if Has(data, at, U16(n)) {
      GetOfU16(data, at, n);
    }
    assert data[at..at + 2] == [data[at], data[at + 1]];
  }

  lemma HasU32(data: seq<byte>, at: nat, n: uint32)
    requires at + 4 <= |data|
    ensures Has(data, at, U32(n)) <==> GetU32(data, at) == n
  {
    hide U16, GetU16;
    HasSplit(data, at, U16(n / 0x1_0000), U16(n % 0x1_0000));
    HasU16(data, at, n / 0x1_0000);
    HasU16(data, at + 2, n % 0x1_0000);
  }
}
