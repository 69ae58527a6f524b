/** Byte strings. The source files declare the ASCII-8BIT encoding, so every
    string of the protocol (words, keys, values, commands, tags) is a sequence
    of bytes here. */
module Bytes {

  /** A byte is its numeric value; the bit tests the source applies to
      bytes are stated on `bv8` where they occur. */
  type byte = b: int | 0 <= b < 256
  type Bytes = seq<byte>

  /** The numeric value of a byte. */
  function Octet(b: byte): (v: nat)
    ensures v < 256 && v == b
  {
    b
  }

  /** The byte with a given numeric value. */
  function ByteOf(v: nat): (b: byte)
    requires v < 256
    ensures Octet(b) == v
  {
    v
  }

  /** The bytes of a string literal whose characters are all below 256. */
  function FromAscii(s: string): (b: Bytes)
    requires forall i | 0 <= i < |s| :: s[i] as int < 256
    ensures |b| == |s|
    ensures forall i | 0 <= i < |s| :: b[i] as int == s[i] as int
  {
    seq(|s|, i requires 0 <= i < |s| => s[i] as int)
  }

  // Sentence-type words and keys the core interprets.
  const DoneKey: Bytes := FromAscii("!done")
  const ReKey: Bytes := FromAscii("!re")
  const TrapKey: Bytes := FromAscii("!trap")
  const FatalKey: Bytes := FromAscii("!fatal")
  const TagKey: Bytes := FromAscii(".tag")
  const MessageKey: Bytes := FromAscii("message")

  // Commands the core itself issues or recognises.
  const QuitCommand: Bytes := FromAscii("/quit")

  const EqualsSign: byte := 0x3d   // '='
  const Newline: byte := 0x0a      // '\n'
  const Dot: byte := 0x2e          // '.'

  predicate StartsWith(s: Bytes, prefix: Bytes) {
    |prefix| <= |s| && s[..|prefix|] == prefix
  }

  predicate IsDigit(b: byte) {
    0x30 <= Octet(b) <= 0x39
  }

  /** Ruby's `\s`: space, \t, \n, \v, \f, \r. */
  predicate IsSpace(b: byte) {
    b == 0x20 || (0x09 <= b <= 0x0d)
  }

  function DigitByte(d: nat): (b: byte)
    requires d < 10
    ensures IsDigit(b) && Octet(b) - 0x30 == d
  {
    ByteOf(0x30 + d)
  }

  /** Ruby's `Integer#to_s` for a non-negative integer. */
  function DecimalString(n: nat): (s: Bytes)
    ensures |s| >= 1
    ensures forall i | 0 <= i < |s| :: IsDigit(s[i])
  {
    if n < 10 then [DigitByte(n)] else DecimalString(n / 10) + [DigitByte(n % 10)]
  }

  /** The value of a string of decimal digits, most significant first. */
  function DigitsValue(s: Bytes): nat
    requires forall i | 0 <= i < |s| :: IsDigit(s[i])
  {
    if s == [] then 0
    else
      assert IsDigit(s[|s| - 1]);
      DigitsValue(s[..|s| - 1]) * 10 + (Octet(s[|s| - 1]) - 0x30)
  }

  lemma {:induction false} DecimalStringValue(n: nat)
    ensures DigitsValue(DecimalString(n)) == n
  {
    if n >= 10 {
      var s := DecimalString(n);
      assert s[..|s| - 1] == DecimalString(n / 10);
      DecimalStringValue(n / 10);
    }
  }

  /** Distinct counters give distinct decimal strings. */
  lemma DecimalStringInjective(a: nat, b: nat)
    ensures DecimalString(a) == DecimalString(b) <==> a == b
  {
    if DecimalString(a) == DecimalString(b) {
      DecimalStringValue(a);
      DecimalStringValue(b);
    }
  }
}
