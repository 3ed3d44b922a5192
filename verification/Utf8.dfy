/**
  Well-formed UTF-8 as section 4 of RFC 3629 defines it, which is what `str::from_utf8` accepts.
 */
module Utf8 {
  import opened Bytes

  predicate Tail(b: byte) {
    0x80 <= b <= 0xBF
  }

  /** Length of the UTF-8 character that `s` starts with; 0 when `s` starts with none. */
  function CharLen(s: seq<byte>): (n: nat)
    ensures n <= 4 && n <= |s|
  {
    if |s| == 0 then 0
    else if s[0] <= 0x7F then 1
    else if 0xC2 <= s[0] <= 0xDF then
      if |s| >= 2 && Tail(s[1]) then 2 else 0
    else if 0xE0 <= s[0] <= 0xEF then
      if |s| >= 3 && SecondOfThree(s[0], s[1]) && Tail(s[2]) then 3 else 0
    else if 0xF0 <= s[0] <= 0xF4 then
      if |s| >= 4 && SecondOfFour(s[0], s[1]) && Tail(s[2]) && Tail(s[3]) then 4 else 0
    else 0
  }

  predicate SecondOfThree(first: byte, second: byte) {
    if first == 0xE0 then 0xA0 <= second <= 0xBF
    else if first == 0xED then 0x80 <= second <= 0x9F
    else Tail(second)
  }

  predicate SecondOfFour(first: byte, second: byte) {
    if first == 0xF0 then 0x90 <= second <= 0xBF
    else if first == 0xF4 then 0x80 <= second <= 0x8F
    else Tail(second)
  }

  predicate Valid(s: seq<byte>)
    decreases |s|
  {
    s == [] || (CharLen(s) > 0 && Valid(s[CharLen(s)..]))
  }

  lemma OnlyTheFirstMayBeAscii(s: seq<byte>)
    ensures forall k | 0 < k < CharLen(s) :: s[k] >= 0x80
    ensures CharLen(s) > 1 ==> s[0] >= 0x80
  {
  }

  lemma CharLenOfPrefix(s: seq<byte>, i: nat)
    requires 0 < CharLen(s) <= i <= |s|
    ensures CharLen(s[..i]) == CharLen(s)
  {
    assert forall k | 0 <= k < i :: s[..i][k] == s[k];
  }

  /** Cutting valid UTF-8 in front of an ASCII byte cuts between two characters. */
  lemma {:induction false} CutBeforeAscii(s: seq<byte>, i: nat)
    requires Valid(s) && i < |s| && s[i] <= 0x7F
    ensures Valid(s[..i])
    decreases |s|
  {
    var n := CharLen(s);
    if i > 0 {
      OnlyTheFirstMayBeAscii(s);
      assert n <= i;
      assert s[n..][i - n] == s[i];
      CutBeforeAscii(s[n..], i - n);
      CharLenOfPrefix(s, i);
      assert s[..i][n..] == s[n..][..i - n];
    }
  }

  // ------------------------------------------------------------------ which strings these are

  /** A Unicode scalar value: a code point that is no surrogate. */
  type Scalar = c: int | 0 <= c < 0x110000 && !(0xD800 <= c <= 0xDFFF)

  /** The lowest base-64 digit, as a continuation octet. */
  function Digit(n: nat): byte {
    (0x80 + n % 0x40) as byte
  }

  /** The octets of one scalar value: its base-64 digits, the first one behind a length marker. */
  function Encode(c: Scalar): seq<byte> {
    if c < 0x80 then [c as byte]
    else if c < 0x800 then [(0xC0 + c / 0x40) as byte, Digit(c)]
    else if c < 0x1_0000 then [(0xE0 + c / 0x40 / 0x40) as byte, Digit(c / 0x40), Digit(c)]
    else [(0xF0 + c / 0x40 / 0x40 / 0x40) as byte, Digit(c / 0x40 / 0x40), Digit(c / 0x40), Digit(c)]
  }

  function EncodeAll(scalars: seq<Scalar>): seq<byte> {
    if scalars == [] then [] else Encode(scalars[0]) + EncodeAll(scalars[1..])
  }

  /** An encoding is a character of its own length, whatever follows. */
  lemma EncodingIsChar(c: Scalar, rest: seq<byte>)
    ensures CharLen(Encode(c) + rest) == |Encode(c)|
  {
    var s := Encode(c) + rest;
    assert forall i | 0 <= i < |Encode(c)| :: s[i] == Encode(c)[i];
  }

  /** The number whose higher digits make `high` and whose lowest is in the continuation octet `low`. */
  function Append(high: nat, low: byte): nat
    requires Tail(low)
  {
    high * 0x40 + (low as int - 0x80)
  }

  lemma AppendSplits(high: nat, low: byte)
    requires Tail(low)
    ensures Append(high, low) / 0x40 == high && Digit(Append(high, low)) == low
  {
  }

  /** Every character is the encoding of a scalar value. */
  lemma CharIsEncoding(s: seq<byte>) returns (c: Scalar)
    requires CharLen(s) > 0
    ensures Encode(c) == s[..CharLen(s)]
  {
    match CharLen(s) {
      case 1 => c := s[0] as int;
      case 2 =>
        AppendSplits(s[0] as int - 0xC0, s[1]);
        c := Append(s[0] as int - 0xC0, s[1]);
      case 3 => c := ThreeIsEncoding(s);
      case 4 => c := FourIsEncoding(s);
    }
  }

  lemma ThreeIsEncoding(s: seq<byte>) returns (c: Scalar)
    requires CharLen(s) == 3
    ensures Encode(c) == s[..3]
  {
    var a := s[0] as int - 0xE0;
    AppendSplits(a, s[1]);
    AppendSplits(Append(a, s[1]), s[2]);
    c := Append(Append(a, s[1]), s[2]);
  }

  lemma FourIsEncoding(s: seq<byte>) returns (c: Scalar)
    requires CharLen(s) == 4
    ensures Encode(c) == s[..4]
  {
    var p := Append(s[0] as int - 0xF0, s[1]);
    assert 0x10 <= p < 0x110;
    c := LastThreeOctets(s[0] as int - 0xF0, p, s[1], s[2], s[3]);
    assert s[..4] == [(0xF0 + (s[0] as int - 0xF0)) as byte, s[1], s[2], s[3]];
  }

  lemma LastThreeOctets(a: nat, p: nat, x: byte, y: byte, z: byte) returns (c: Scalar)
    requires Tail(x) && Tail(y) && Tail(z) && a <= 4
    requires p == Append(a, x) && 0x10 <= p < 0x110
    ensures Encode(c) == [(0xF0 + a) as byte, x, y, z]
  {
    var q := Append(p, y);
    AppendSplits(a, x);
    AppendSplits(p, y);
    AppendSplits(q, z);
    c := Append(q, z);
    assert c / 0x40 == q && q / 0x40 == p && p / 0x40 == a;
  }

  lemma {:induction false} EncodingIsValid(scalars: seq<Scalar>)
    ensures Valid(EncodeAll(scalars))
  {
    if scalars != [] {
      var rest := EncodeAll(scalars[1..]);
      EncodingIsChar(scalars[0], rest);
      EncodingIsValid(scalars[1..]);
      assert (Encode(scalars[0]) + rest)[|Encode(scalars[0])|..] == rest;
    }
  }

  lemma EncodeCons(c: Scalar, more: seq<Scalar>)
    ensures EncodeAll([c] + more) == Encode(c) + EncodeAll(more)
  {
    assert ([c] + more)[1..] == more;
  }

  lemma {:induction false} ValidIsEncoding(s: seq<byte>) returns (scalars: seq<Scalar>)
    requires Valid(s)
    ensures EncodeAll(scalars) == s
    decreases |s|
  {
    scalars := [];
    if s != [] {
      var c := CharIsEncoding(s);
      var more := ValidIsEncoding(s[CharLen(s)..]);
      EncodeCons(c, more);
      scalars := [c] + more;
    }
  }

  /** Valid are exactly the concatenated encodings of scalar values. */
  lemma ValidExactlyWhenEncoded(s: seq<byte>)
    ensures Valid(s) <==> exists scalars :: EncodeAll(scalars) == s
  {
    if Valid(s) {
      var scalars := ValidIsEncoding(s);
    }
    forall scalars | EncodeAll(scalars) == s ensures Valid(s) {
      EncodingIsValid(scalars);
    }
  }

  lemma {:induction false} AsciiIsValid(s: seq<byte>)
    requires forall b <- s :: b <= 0x7F
    ensures Valid(s)
    decreases |s|
  {
    if s != [] {
      assert s[0] in s && forall b <- s[1..] :: b in s;
      AsciiIsValid(s[1..]);
    }
  }
}
