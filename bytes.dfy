/** Bytes as the driver sees them: elements of a `std::string`, i.e. C `char`,
    taken here as signed and 8 bits wide (as on x86-64). Where `char` is
    unsigned (AArch64, for one) the decode of the read loop differs. */
module Bytes {

  /** A signed C `char`. */
  newtype SChar = x: int | -128 <= x < 128

  const NUL: SChar := 0
  const LF: SChar := 10
  const CR: SChar := 13

  /** Text made of 7-bit ASCII characters only. */
  predicate IsAscii(s: string) {
    forall i :: 0 <= i < |s| ==> s[i] as int < 128
  }

  /** The bytes of an ASCII string literal, one `char` per character. */
  function Ascii(s: string): (r: seq<SChar>)
    requires IsAscii(s)
    ensures |r| == |s|
    ensures forall i :: 0 <= i < |s| ==> r[i] as int == s[i] as int
  {
    seq(|s|, i requires 0 <= i < |s| => s[i] as int as SChar)
  }

  /** The unsigned reading (0..255) of a char's bit pattern, `c & 0xFF`. */
  function Unsigned(c: SChar): (u: int)
    ensures 0 <= u < 256
  {
    (c as int) % 256
  }

  lemma UnsignedValue(c: SChar)
    ensures Unsigned(c) == if c < 0 then c as int + 256 else c as int
  {
  }

  /** The char whose bit pattern reads as the unsigned value `u`. */
  function FromUnsigned(u: int): (c: SChar)
    requires 0 <= u < 256
    ensures Unsigned(c) == u
  {
    if u < 128 then u as SChar else (u - 256) as SChar
  }

  lemma FromUnsignedOfUnsigned(c: SChar)
    ensures FromUnsigned(Unsigned(c)) == c
  {
  }
}
