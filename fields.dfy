/** Reconstruction of the 16-bit big-endian fields of a measurement frame,
    both as the C expressions in the driver's read loop compute them on
    32-bit `int`s and as plain arithmetic, and the proof that the two agree. */
module Fields {
  import opened Bytes

  predicate IsInt16(v: int) { -0x8000 <= v < 0x8000 }
  predicate IsUInt16(v: int) { 0 <= v < 0x1_0000 }

  // ---------------------------------------------------------------------------
  // Arithmetic meaning of the two field formulas

  /** A signed 16-bit field: the high char (sign included) times 256 plus the
      unsigned low byte. */
  function SignedField(hi: SChar, lo: SChar): (v: int)
    ensures IsInt16(v)
  {
    hi as int * 256 + Unsigned(lo)
  }

  /** The frame counter: both bytes read unsigned. */
  function CounterField(hi: SChar, lo: SChar): (v: int)
    ensures IsUInt16(v)
  {
    Unsigned(hi) * 256 + Unsigned(lo)
  }

  /** The high and low chars of a signed 16-bit value (big-endian). */
  function SplitInt16(v: int): (p: (SChar, SChar))
    requires IsInt16(v)
  {
    ((v / 256) as SChar, FromUnsigned(v % 256))
  }

  /** The high and low chars of an unsigned 16-bit value (big-endian). */
  function SplitUInt16(v: int): (p: (SChar, SChar))
    requires IsUInt16(v)
  {
    (FromUnsigned(v / 256), FromUnsigned(v % 256))
  }

  lemma SignedFieldOfSplit(v: int)
    requires IsInt16(v)
    ensures SignedField(SplitInt16(v).0, SplitInt16(v).1) == v
  {
  }

  lemma SplitOfSignedField(hi: SChar, lo: SChar)
    ensures SplitInt16(SignedField(hi, lo)) == (hi, lo)
  {
    var v := SignedField(hi, lo);
    assert v / 256 == hi as int;
    assert v % 256 == Unsigned(lo);
    FromUnsignedOfUnsigned(lo);
  }

  lemma CounterFieldOfSplit(v: int)
    requires IsUInt16(v)
    ensures CounterField(SplitUInt16(v).0, SplitUInt16(v).1) == v
  {
  }

  lemma SplitOfCounterField(hi: SChar, lo: SChar)
    ensures SplitUInt16(CounterField(hi, lo)) == (hi, lo)
  {
    var v := CounterField(hi, lo);
    assert v / 256 == Unsigned(hi);
    assert v % 256 == Unsigned(lo);
    FromUnsignedOfUnsigned(hi);
    FromUnsignedOfUnsigned(lo);
  }

  /** The counter is the unsigned reading of the same two bytes as the signed
      decode: it is 65536 more exactly when the high byte is negative. */
  lemma CounterVersusSigned(hi: SChar, lo: SChar)
    ensures CounterField(hi, lo) == SignedField(hi, lo) + (if hi < 0 then 0x1_0000 else 0)
    ensures CounterField(hi, lo) == SignedField(hi, lo) <==> hi >= 0
  {
  }

  // ---------------------------------------------------------------------------
  // The C expressions, bit by bit

  /** The eight-bit pattern of an unsigned byte value, built from its binary
      digits, most significant first. It stands for `u as bv8`: written out
      this way, the link between the pattern and the value is a short
      induction (`BitPatternValue`) rather than a conversion the solver
      handles unevenly. */
  function BitPattern(u: nat): bv8
    requires u < 256
    decreases u
  {
    if u == 0 then 0 else (BitPattern(u / 2) << 1) | (if u % 2 == 1 then 1 else 0)
  }

  /** The bit pattern of a char. */
  function Bits(c: SChar): bv8 {
    BitPattern(Unsigned(c))
  }

  /** Integer promotion of a signed char to a 32-bit `int` (sign extension). */
  function Promote(b: bv8): bv32 {
    if b < 0x80 then b as bv32 else (b as bv32) | 0xFFFF_FF00
  }

  /** Byte `k` (0 = least significant) of a 32-bit word. */
  function ByteOf(w: bv32, k: bv32): bv8
    requires k < 4
  {
    ((w >> (8 * k)) & 0xFF) as bv8
  }

  /** A 32-bit word read as a two's-complement `int`: the conversion that
      stores the `unsigned` result of `... & 0xFFFFFF00` into an `int`.
      Before C++20 that conversion is implementation-defined for values
      above `INT_MAX`; this is the modulo-2^32 reading C++20 prescribes and
      GCC and Clang implement. */
  function ToInt32(w: bv32): (v: int)
    ensures -0x8000_0000 <= v < 0x8000_0000
  {
    var top := ByteOf(w, 3) as int;
    var low := ByteOf(w, 2) as int * 0x1_0000 + ByteOf(w, 1) as int * 0x100 + ByteOf(w, 0) as int;
    WordRange(if top < 128 then top else top - 256, low);
    (if top < 128 then top else top - 256) * 0x100_0000 + low
  }

  /** A signed top byte above 24 low bits makes a 32-bit `int`. */
  lemma WordRange(top: int, low: int)
    requires -128 <= top < 128 && 0 <= low < 0x100_0000
    ensures -0x8000_0000 <= top * 0x100_0000 + low < 0x8000_0000
  {
  }

  /** `((hi << 8) & 0xFFFFFF00) | (lo & 0x000000FF)` on bit patterns. The
      left shift of a negative promoted `char` is undefined before C++20;
      the shift here is the two's-complement one C++20 defines. */
  function SignedWord(h: bv8, l: bv8): int {
    ToInt32(((Promote(h) << 8) & 0xFFFF_FF00) | (Promote(l) & 0xFF))
  }

  /** `((hi << 8) & 0x0000FF00) | (lo & 0x000000FF)` on bit patterns. */
  function CounterWord(h: bv8, l: bv8): int {
    ToInt32(((Promote(h) << 8) & 0x0000_FF00) | (Promote(l) & 0xFF))
  }

  /** The signed-field expression of the read loop, on two chars. */
  function SignedFieldAsWritten(hi: SChar, lo: SChar): (v: int)
    ensures -0x8000_0000 <= v < 0x8000_0000
  {
    SignedWord(Bits(hi), Bits(lo))
  }

  /** The counter expression of the read loop, on two chars. */
  function CounterFieldAsWritten(hi: SChar, lo: SChar): (v: int)
    ensures -0x8000_0000 <= v < 0x8000_0000
  {
    CounterWord(Bits(hi), Bits(lo))
  }

  lemma ShiftIn(b: bv8, d: bv8)
    requires b < 0x80 && d < 2
    ensures ((b << 1) | d) as int == 2 * (b as int) + d as int
  {
  }

  lemma ByteSign(b: bv8)
    ensures (b < 0x80) == (b as int < 128)
  {
  }

  lemma {:induction false} BitPatternValue(u: nat)
    requires u < 256
    ensures BitPattern(u) as int == u
    decreases u
  {
    if u != 0 {
      BitPatternValue(u / 2);
      ByteSign(BitPattern(u / 2));
      ShiftIn(BitPattern(u / 2), if u % 2 == 1 then 1 else 0);
    }
  }

  lemma BitsValue(c: SChar)
    ensures Bits(c) as int == Unsigned(c)
    ensures (Bits(c) < 0x80) == (c >= 0)
  {
    BitPatternValue(Unsigned(c));
    ByteSign(Bits(c));
    UnsignedValue(c);
  }

  /** The bytes of the signed-field word: low, high, then the sign of high. */
  lemma SignedWordBytes(h: bv8, l: bv8)
    ensures var w := ((Promote(h) << 8) & 0xFFFF_FF00) | (Promote(l) & 0xFF);
      ByteOf(w, 0) == l && ByteOf(w, 1) == h &&
      ByteOf(w, 2) == ByteOf(w, 3) == (if h < 0x80 then 0 else 0xFF)
  {
  }

  /** The bytes of the counter word: low, high, zero, zero. */
  lemma CounterWordBytes(h: bv8, l: bv8)
    ensures var w := ((Promote(h) << 8) & 0x0000_FF00) | (Promote(l) & 0xFF);
      ByteOf(w, 0) == l && ByteOf(w, 1) == h && ByteOf(w, 2) == ByteOf(w, 3) == 0
  {
  }

  lemma SignedWordValue(h: bv8, l: bv8)
    ensures SignedWord(h, l) == (if h < 0x80 then h as int else h as int - 256) * 256 + l as int
  {
    SignedWordBytes(h, l);
  }

  lemma CounterWordValue(h: bv8, l: bv8)
    ensures CounterWord(h, l) == h as int * 256 + l as int
  {
    CounterWordBytes(h, l);
  }

  /** The read loop's signed expression computes `hi*256 + (lo mod 256)`. */
  lemma SignedFieldAsWrittenIsSignedField(hi: SChar, lo: SChar)
    ensures SignedFieldAsWritten(hi, lo) == SignedField(hi, lo)
    ensures SignedFieldAsWritten(hi, lo) == hi as int * 256 + (lo as int) % 256
  {
    BitsValue(hi);
    BitsValue(lo);
    UnsignedValue(hi);
    SignedWordValue(Bits(hi), Bits(lo));
    assert SignedWord(Bits(hi), Bits(lo)) == (if hi >= 0 then Unsigned(hi) else Unsigned(hi) - 256) * 256 + Unsigned(lo);
  }

  /** The read loop's counter expression computes the unsigned reading. */
  lemma CounterFieldAsWrittenIsCounterField(hi: SChar, lo: SChar)
    ensures CounterFieldAsWritten(hi, lo) == CounterField(hi, lo)
    ensures CounterFieldAsWritten(hi, lo) == ((hi as int) % 256) * 256 + (lo as int) % 256
  {
    BitsValue(hi);
    BitsValue(lo);
    CounterWordValue(Bits(hi), Bits(lo));
  }
}
