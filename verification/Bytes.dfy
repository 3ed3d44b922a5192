/**
  Octets, the 16-bit big-endian fields of a datagram, and the bit operations the parser uses.
 */
module Bytes {
  newtype byte = b: int | 0 <= b < 0x100

  /** A `u16` of the source. */
  type u16 = n: int | 0 <= n < 0x1_0000

  /** `u16::from_be_bytes`. */
  function FromBeBytes(high: byte, low: byte): u16 {
    high as int * 0x100 + low as int
  }

  /** `u16::to_be_bytes`. */
  function ToBeBytes(n: u16): seq<byte> {
    [(n / 0x100) as byte, (n % 0x100) as byte]
  }

  /** `a & b` on unsigned words, bit by bit from the lowest. */
  function BitAnd(a: nat, b: nat): nat
    decreases a
  {
    if a == 0 then 0 else 2 * BitAnd(a / 2, b / 2) + (if b % 2 == 0 then 0 else a % 2)
  }

  /** `a & !b` on unsigned words at least as wide as `a`, bit by bit from the lowest. */
  function BitAndNot(a: nat, b: nat): nat
    decreases a
  {
    if a == 0 then 0 else 2 * BitAndNot(a / 2, b / 2) + (if b % 2 == 0 then a % 2 else 0)
  }

  /** How many bytes a value of `n` bytes takes with its padding. */
  function PaddedLen(n: u16): nat {
    (n + 3) / 4 * 4
  }

  lemma {:induction false} AndZero(a: nat)
    ensures BitAnd(a, 0) == 0 && BitAndNot(a, 0) == a
  {
    if a > 0 {
      AndZero(a / 2);
    }
  }

  lemma LowestBit(a: nat)
    ensures BitAnd(a, 1) == a % 2 && BitAndNot(a, 1) == a / 2 * 2
  {
    AndZero(a / 2);
  }

  lemma Quarter(x: nat)
    ensures x / 2 / 2 == x / 4 && x / 2 % 2 * 2 + x % 2 == x % 4
  {
  }

  /** `n & 3` is the remainder by 4. */
  lemma AndThreeIsRemainder(n: nat)
    ensures BitAnd(n, 3) == n % 4
  {
    LowestBit(n / 2);
    Quarter(n);
  }

  /** `x & !3` clears the remainder by 4. */
  lemma AndNotThreeClearsRemainder(x: nat)
    ensures BitAndNot(x, 3) == x / 4 * 4
  {
    LowestBit(x / 2);
    Quarter(x);
  }

  /** `(n + 3) & !3` is the padded length. */
  lemma MaskIsPaddedLen(n: u16)
    ensures BitAndNot(n + 3, 3) == PaddedLen(n)
  {
    AndNotThreeClearsRemainder(n + 3);
  }

  /** The padded length is the least multiple of 4 that is not below the length. */
  lemma PaddedLenIsLeastMultiple(n: u16)
    ensures PaddedLen(n) % 4 == 0 && n <= PaddedLen(n)
    ensures forall m: nat :: m % 4 == 0 && n <= m ==> PaddedLen(n) <= m
  {
  }

  /** Any padding shorter than 4 bytes that reaches a multiple of 4 is the one computed. */
  lemma PaddingIsUnique(n: u16, padding: nat)
    requires padding < 4 && (n + padding) % 4 == 0
    ensures PaddedLen(n) == n + padding
  {
  }

  lemma BeRoundTrip(n: u16)
    ensures FromBeBytes(ToBeBytes(n)[0], ToBeBytes(n)[1]) == n
  {
  }
}
