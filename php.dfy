/**
 * The pieces of PHP's integer and string semantics that the codec relies on.
 *
 * PHP's `int` is a 64-bit two's-complement word: `<<` drops the bits shifted
 * out of the top, `>>` is an arithmetic shift, `&`, `|` and `^` act on all 64
 * bits. The model keeps the word as a `bv64` so that these operators keep
 * their exact meaning. A PHP binary string is a sequence of bytes.
 */
module Php {
  import opened Results

  /** A PHP `int`, as its 64-bit pattern. */
  type Int = bv64

  /** One byte of a PHP string. */
  type Byte = bv8

  /** A PHP binary string. */
  type Bytes = seq<Byte>

  /** PHP_INT_MAX. */
  const INT_MAX: Int := 0x7FFF_FFFF_FFFF_FFFF

  const SIGN_BIT: Int := 0x8000_0000_0000_0000

  /**
   * The 64-bit patterns of the integers in the signed 8-, 16- and 32-bit
   * ranges [-2^(k-1), 2^(k-1)): either a non-negative pattern up to
   * 2^(k-1) - 1, or a negative one (sign bit set) at or above the pattern
   * of -2^(k-1).
   */
  predicate FitsSigned8(x: Int) {
    x <= 0x7f || x >= 0xFFFF_FFFF_FFFF_FF80
  }

  predicate FitsSigned16(x: Int) {
    x <= 0x7fff || x >= 0xFFFF_FFFF_FFFF_8000
  }

  predicate FitsSigned32(x: Int) {
    x <= 0x7fff_ffff || x >= 0xFFFF_FFFF_8000_0000
  }

  /** Each range holds its end points -2^(k-1) and 2^(k-1) - 1 and no point past them. */
  lemma FitsSignedBounds()
    ensures FitsSigned8(0x7f) && FitsSigned8(-0x80) && !FitsSigned8(0x80) && !FitsSigned8(-0x81)
    ensures FitsSigned16(0x7fff) && FitsSigned16(-0x8000) && !FitsSigned16(0x8000) && !FitsSigned16(-0x8001)
    ensures FitsSigned32(0x7fff_ffff) && FitsSigned32(-0x8000_0000)
    ensures !FitsSigned32(0x8000_0000) && !FitsSigned32(-0x8000_0001)
  {
  }

  /** The ranges are nested. */
  lemma FitsSignedNested(x: Int)
    ensures FitsSigned8(x) ==> FitsSigned16(x)
    ensures FitsSigned16(x) ==> FitsSigned32(x)
  {
  }

  /** PHP's `chr($x)`: the byte holding the low 8 bits of `$x`. */
  function Chr(x: Int): Byte {
    (x & 0xff) as Byte
  }

  /** PHP's `ord($c)`: the byte's value, 0 to 255. */
  function Ord(c: Byte): Int {
    c as Int
  }

  /** `chr` and `ord` are inverse on bytes; `chr` keeps only the low 8 bits. */
  lemma ChrOrd(c: Byte, x: Int)
    ensures Chr(Ord(c)) == c
    ensures Ord(Chr(x)) == x & 0xff
  {
  }

  /**
   * `isset($s[$offset])` followed by `$s[$offset]`: PHP accepts offsets in
   * [-strlen($s), strlen($s)); a negative offset counts from the end.
   */
  function StringOffset(s: Bytes, offset: int): (r: Option<Byte>)
    ensures r.Some? <==> -|s| <= offset < |s|
    ensures r.Some? ==> r.value == s[if offset < 0 then |s| + offset else offset]
  {
    if 0 <= offset < |s| then Some(s[offset])
    else if -|s| <= offset < 0 then Some(s[|s| + offset])
    else None
  }
}
